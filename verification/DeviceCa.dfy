/**
 * Trusted device CA certificates: the import of a PEM bundle into the certificate table, and the
 * certificate pool that caches the table. Times are nanoseconds.
 */
module DeviceCa {
  import opened Wrappers

  datatype Cert = Cert(raw: Bytes, subject: string, issuer: string, notBefore: int, notAfter: int)

  datatype Row = Row(pem: Bytes, subject: string, issuer: string, notBefore: int, notAfter: int)

  type Fingerprint = string

  type Table = map<Fingerprint, Row>

  /** x509.ParseCertificate, the hex SHA-256 of a certificate, and PEM text of a single certificate. */
  datatype Lib = Lib(
    parse: Bytes -> Option<Cert>,
    fingerprint: Bytes -> Fingerprint,
    encodePem: Bytes -> Bytes,
    decodePem: Bytes -> Option<Bytes>)

  /** A parsed certificate keeps its bytes, and PEM decoding undoes PEM encoding. */
  ghost predicate Lawful(lib: Lib) {
    && (forall b :: lib.parse(b).Some? ==> lib.parse(b).value.raw == b)
    && (forall b :: lib.decodePem(lib.encodePem(b)) == Some(b))
  }

  datatype Message =
    | MalformedAt(position: nat)
    | ExpiredAt(position: nat, subject: string)
    | ExistsAt(position: nat, subject: string)
    | ImportedAt(position: nat, subject: string)

  datatype Stats = Stats(detected: nat, imported: nat, skipped: nat, malformed: nat,
                         messages: seq<Message>, certificates: seq<Fingerprint>)

  const NO_STATS := Stats(0, 0, 0, 0, [], [])

  datatype Progress = Progress(position: nat, stats: Stats)

  const START := Progress(0, NO_STATS)

  const LABEL := "CERTIFICATE"

  function RowOf(lib: Lib, c: Cert): Row {
    Row(lib.encodePem(c.raw), c.subject, c.issuer, c.notBefore, c.notAfter)
  }

  function Skip(p: Progress, m: Message): Progress {
    p.(stats := p.stats.(skipped := p.stats.skipped + 1, messages := p.stats.messages + [m]))
  }

  /** From the next block up to the existence check: the certificate still to be created, if any. */
  function Scan(lib: Lib, t: Table, p: Progress, b: PemBlock, now: int): (Progress, Option<Cert>) {
    if b.kind != LABEL then (p, None)
    else
      var p := p.(position := p.position + 1);
      match lib.parse(b.bytes)
      case None =>
        (p.(stats := p.stats.(malformed := p.stats.malformed + 1,
                              messages := p.stats.messages + [MalformedAt(p.position)])), None)
      case Some(c) =>
        var p := p.(stats := p.stats.(detected := p.stats.detected + 1));
        if now > c.notAfter then (Skip(p, ExpiredAt(p.position, c.subject)), None)
        else if lib.fingerprint(c.raw) in t then (Skip(p, ExistsAt(p.position, c.subject)), None)
        else (p, Some(c))
  }

  /** The INSERT: the primary key turns a certificate that appeared meanwhile into a skipped one. */
  function Create(lib: Lib, t: Table, p: Progress, c: Cert): (Table, Progress) {
    var fp := lib.fingerprint(c.raw);
    if fp in t then (t, Skip(p, ExistsAt(p.position, c.subject)))
    else
      (t[fp := RowOf(lib, c)],
       p.(stats := p.stats.(imported := p.stats.imported + 1,
                            messages := p.stats.messages + [ImportedAt(p.position, c.subject)],
                            certificates := p.stats.certificates + [fp])))
  }

  function Process(lib: Lib, t: Table, p: Progress, b: PemBlock, now: int): (Table, Progress) {
    var (p', c) := Scan(lib, t, p, b, now);
    match c case None => (t, p') case Some(c) => Create(lib, t, p', c)
  }

  /** The time at which an import examines block i. */
  type Clock = nat -> int

  /** Table and progress after the first n blocks. */
  function After(lib: Lib, t: Table, blocks: seq<PemBlock>, n: nat, clock: Clock): (Table, Progress)
    requires n <= |blocks|
  {
    if n == 0 then (t, START)
    else
      var (t', p) := After(lib, t, blocks, n - 1, clock);
      Process(lib, t', p, blocks[n - 1], clock(n - 1))
  }

  // The pool -----------------------------------------------------------------------------------

  function CertOf(lib: Lib, r: Row): Option<Cert> {
    match lib.decodePem(r.pem) case Some(b) => lib.parse(b) case None => None
  }

  predicate Loadable(lib: Lib, t: Table) { forall fp :: fp in t ==> CertOf(lib, t[fp]).Some? }

  /** The certificates of the table. */
  function CertsOf(lib: Lib, t: Table): set<Cert> {
    set fp | fp in t && CertOf(lib, t[fp]).Some? :: CertOf(lib, t[fp]).value
  }

  class CaState {
    const lib: Lib
    var table: Table
    var pool: set<Cert>

    /** The pool caches the table. */
    ghost predicate Fresh()
      reads this
    {
      pool == CertsOf(lib, table)
    }

    /** InitTrustedDeviceCACertsDB: an existing table, and no pool until it is loaded. */
    constructor (lib: Lib, t: Table)
      ensures this.lib == lib && table == t && pool == {}
    {
      this.lib := lib;
      table := t;
      pool := {};
    }

    /** ImportDeviceCACertificates; the first statement for block `fault` fails, if given and reached. */
    method ImportDeviceCACertificates(blocks: seq<PemBlock>, clock: Clock, fault: Option<nat>)
      returns (r: Option<Stats>)
      modifies this`table
      ensures r.Some? ==> (table, Progress(r.value.detected + r.value.malformed, r.value))
                          == After(lib, old(table), blocks, |blocks|, clock)
      ensures r.None? <==> fault.Some? && fault.value < |blocks|
                           && Wanted(lib, blocks[fault.value], clock(fault.value))
      ensures r.None? ==> table == After(lib, old(table), blocks, fault.value, clock).0
    {
      var position, stats := 0, NO_STATS;
      for i := 0 to |blocks|
        invariant (table, Progress(position, stats)) == After(lib, old(table), blocks, i, clock)
        invariant position == stats.detected + stats.malformed
        invariant fault.Some? && fault.value < i ==> !Wanted(lib, blocks[fault.value], clock(fault.value))
      {
        var b := blocks[i];
        if b.kind != LABEL {
          continue;
        }
        position := position + 1;
        var cert := lib.parse(b.bytes);
        if cert.None? {
          stats := stats.(malformed := stats.malformed + 1, messages := stats.messages + [MalformedAt(position)]);
          continue;
        }
        var c := cert.value;
        stats := stats.(detected := stats.detected + 1);
        if clock(i) > c.notAfter {
          stats := stats.(skipped := stats.skipped + 1, messages := stats.messages + [ExpiredAt(position, c.subject)]);
          continue;
        }
        var fp := lib.fingerprint(c.raw);
        if fault == Some(i) {
          return None;
        }
        if fp in table {
          stats := stats.(skipped := stats.skipped + 1, messages := stats.messages + [ExistsAt(position, c.subject)]);
          continue;
        }
        table := table[fp := RowOf(lib, c)];
        stats := stats.(imported := stats.imported + 1,
                        messages := stats.messages + [ImportedAt(position, c.subject)],
                        certificates := stats.certificates + [fp]);
      }
      return Some(stats);
    }

    /** DeleteDeviceCACertificate: None when the statement fails, else whether a row went. */
    method DeleteDeviceCACertificate(fp: Fingerprint, fault: bool) returns (found: Option<bool>)
      modifies this`table
      ensures table == if fault then old(table) else old(table) - {fp}
      ensures found == if fault then None else Some(fp in old(table))
    {
      if fault {
        return None;
      }
      found := Some(fp in table);
      table := table - {fp};
    }

    /** LoadTrustedDeviceCAs: read the table, parse every row, then swap the pool. */
    method LoadTrustedDeviceCAs(fault: bool) returns (ok: bool)
      modifies this`pool
      ensures ok == (!fault && Loadable(lib, table))
      ensures pool == if ok then CertsOf(lib, table) else old(pool)
    {
      if fault {
        return false;
      }
      var certs: set<Cert> := {};
      var todo := table.Keys;
      ghost var done: set<Fingerprint> := {};
      while todo != {}
        invariant done + todo == table.Keys && done !! todo
        invariant forall fp :: fp in done ==> CertOf(lib, table[fp]).Some?
        invariant certs == set fp | fp in done && CertOf(lib, table[fp]).Some? :: CertOf(lib, table[fp]).value
        decreases todo
      {
        var fp :| fp in todo;
        var c := CertOf(lib, table[fp]);
        if c.None? {
          return false;
        }
        certs := certs + {c.value};
        todo := todo - {fp};
        done := done + {fp};
      }
      assert done == table.Keys;
      pool := certs;
      return true;
    }

    /** The import handler: reload the pool only if something was imported. */
    method HandleImport(blocks: seq<PemBlock>, clock: Clock, fault: Option<nat>, loadFault: bool)
      returns (ok: bool)
      requires Lawful(lib) && Loadable(lib, table)
      modifies this
      ensures Loadable(lib, table)
      ensures ok ==> table == After(lib, old(table), blocks, |blocks|, clock).0
      ensures ok && (old(Fresh()) || table != old(table)) ==> Fresh()
      ensures fault.None? && !loadFault ==> ok
      ensures fault.Some? && fault.value < |blocks| && Wanted(lib, blocks[fault.value], clock(fault.value)) ==> !ok
      ensures !ok ==> pool == old(pool)
                      && exists n :: 0 <= n <= |blocks| && table == After(lib, old(table), blocks, n, clock).0
    {
      var stats := ImportDeviceCACertificates(blocks, clock, fault);
      var n := if stats.Some? then |blocks| else fault.value;
      AfterLoadable(lib, old(table), blocks, n, clock);
      if stats.None? {
        return false;
      }
      if stats.value.imported > 0 {
        ok := LoadTrustedDeviceCAs(loadFault);
        return;
      }
      AfterGrowth(lib, old(table), blocks, |blocks|, clock);
      return true;
    }

    /** The delete handler: reload the pool after every deletion that found its row. */
    method HandleDelete(fp: Fingerprint, fault: bool, loadFault: bool) returns (ok: bool, found: bool)
      requires Loadable(lib, table)
      modifies this
      ensures Loadable(lib, table)
      ensures table == if fault then old(table) else old(table) - {fp}
      ensures ok ==> !fault && found == (fp in old(table))
      ensures ok && (old(Fresh()) || found) ==> Fresh()
      ensures !fault && !loadFault ==> ok
      ensures !ok ==> pool == old(pool)
    {
      var deleted := DeleteDeviceCACertificate(fp, fault);
      if deleted.None? {
        return false, false;
      }
      found := deleted.value;
      if !found {
        assert table == old(table);
        return true, found;
      }
      ok := LoadTrustedDeviceCAs(loadFault);
    }
  }

  // Serial runs --------------------------------------------------------------------------------

  datatype Request = ImportCerts(blocks: seq<PemBlock>, clock: Clock) | DeleteCert(fp: Fingerprint)

  function Served(lib: Lib, t: Table, r: Request): Table {
    match r
    case ImportCerts(blocks, clock) => After(lib, t, blocks, |blocks|, clock).0
    case DeleteCert(fp) => t - {fp}
  }

  /**
   * The server from start-up, with requests one after another and no storage failures: `history` is
   * the table and the pool between requests, and the pool always holds exactly the table.
   */
  method ServeSerially(ca: CaState, requests: seq<Request>) returns (ok: bool, history: seq<(Table, set<Cert>)>)
    requires Lawful(ca.lib)
    modifies ca
    ensures ok == Loadable(ca.lib, old(ca.table))
    ensures ok ==> |history| == |requests| + 1 && history[0].0 == old(ca.table)
                   && history[|requests|] == (ca.table, ca.pool)
    ensures ok ==> forall i :: 0 <= i < |requests| ==> history[i + 1].0 == Served(ca.lib, history[i].0, requests[i])
    ensures forall i :: 0 <= i < |history| ==> history[i].1 == CertsOf(ca.lib, history[i].0)
  {
    hide Served;
    history := [];
    ok := ca.LoadTrustedDeviceCAs(false);
    if !ok {
      return;
    }
    history := [(ca.table, ca.pool)];
    for k := 0 to |requests|
      invariant Loadable(ca.lib, ca.table) && ca.Fresh()
      invariant |history| == k + 1 && history[0].0 == old(ca.table) && history[k] == (ca.table, ca.pool)
      invariant forall i :: 0 <= i < k ==> history[i + 1].0 == Served(ca.lib, history[i].0, requests[i])
      invariant forall i :: 0 <= i < |history| ==> history[i].1 == CertsOf(ca.lib, history[i].0)
    {
      ServeOne(ca, requests[k]);
      history := history + [(ca.table, ca.pool)];
    }
  }

  method ServeOne(ca: CaState, r: Request)
    requires Lawful(ca.lib) && Loadable(ca.lib, ca.table) && ca.Fresh()
    modifies ca
    ensures Loadable(ca.lib, ca.table) && ca.Fresh()
    ensures ca.table == Served(ca.lib, old(ca.table), r)
  {
    match r {
      case ImportCerts(blocks, clock) =>
        var _ := ca.HandleImport(blocks, clock, None, false);
      case DeleteCert(fp) =>
        var _, _ := ca.HandleDelete(fp, false, false);
    }
  }

  // One import ---------------------------------------------------------------------------------

  /** Every certificate is imported or skipped, has one message, and is reported if imported. */
  predicate Balanced(s: Stats, creating: nat) {
    && s.detected == s.imported + s.skipped + creating
    && |s.messages| + creating == s.detected + s.malformed
    && |s.certificates| == s.imported
  }

  lemma {:induction false} ImportBalanced(lib: Lib, t: Table, blocks: seq<PemBlock>, n: nat, clock: Clock)
    requires n <= |blocks|
    ensures Balanced(After(lib, t, blocks, n, clock).1.stats, 0)
  {
    if n > 0 { ImportBalanced(lib, t, blocks, n - 1, clock); }
  }

  /** The table only gains rows: those reported, each once, under keys that were not there. */
  lemma {:induction false} AfterGrowth(lib: Lib, t: Table, blocks: seq<PemBlock>, n: nat, clock: Clock)
    requires n <= |blocks|
    ensures var (t', p) := After(lib, t, blocks, n, clock);
            && |t'| == |t| + p.stats.imported
            && (forall fp :: fp in t ==> fp in t' && t'[fp] == t[fp])
            && (p.stats.imported == 0 ==> t' == t)
  {
    hide Process;
    if n > 0 {
      AfterGrowth(lib, t, blocks, n - 1, clock);
      var (t', p) := After(lib, t, blocks, n - 1, clock);
      ProcessGrowth(lib, t', p, blocks[n - 1], clock(n - 1));
    }
  }

  lemma ProcessGrowth(lib: Lib, t: Table, p: Progress, b: PemBlock, now: int)
    ensures var (t', p') := Process(lib, t, p, b, now);
            && |t'| == |t| + p'.stats.imported - p.stats.imported
            && p'.stats.imported >= p.stats.imported
            && (forall fp :: fp in t ==> fp in t' && t'[fp] == t[fp])
            && (p'.stats.imported == p.stats.imported ==> t' == t)
  {
  }

  lemma {:induction false} AfterLoadable(lib: Lib, t: Table, blocks: seq<PemBlock>, n: nat, clock: Clock)
    requires Lawful(lib) && Loadable(lib, t) && n <= |blocks|
    ensures Loadable(lib, After(lib, t, blocks, n, clock).0)
  {
    if n > 0 {
      AfterLoadable(lib, t, blocks, n - 1, clock);
      var c := lib.parse(blocks[n - 1].bytes);
      if c.Some? { assert CertOf(lib, RowOf(lib, c.value)) == c; }
    }
  }

  /** A certificate that is well formed and not expired is in the table afterwards. */
  predicate Wanted(lib: Lib, b: PemBlock, now: int) {
    b.kind == LABEL && lib.parse(b.bytes).Some? && now <= lib.parse(b.bytes).value.notAfter
  }

  function FingerprintOf(lib: Lib, b: PemBlock): Fingerprint
    requires lib.parse(b.bytes).Some?
  {
    lib.fingerprint(lib.parse(b.bytes).value.raw)
  }

  lemma {:induction false} WantedStored(lib: Lib, t: Table, blocks: seq<PemBlock>, n: nat, clock: Clock, i: nat)
    requires i < n <= |blocks| && Wanted(lib, blocks[i], clock(i))
    ensures FingerprintOf(lib, blocks[i]) in After(lib, t, blocks, n, clock).0
  {
    if i < n - 1 { WantedStored(lib, t, blocks, n - 1, clock, i); }
  }

  /** The row keeps the certificate's names and dates, and its PEM parses to the certificate. */
  predicate Describes(lib: Lib, r: Row, c: Cert) {
    r == RowOf(lib, c) && CertOf(lib, r) == Some(c)
  }

  /** The block offers the certificate that the row describes. */
  predicate Supplies(lib: Lib, b: PemBlock, now: int, fp: Fingerprint, r: Row) {
    Wanted(lib, b, now) && FingerprintOf(lib, b) == fp && Describes(lib, r, lib.parse(b.bytes).value)
  }

  /** The block offers a certificate under the fingerprint that has not expired when it is examined. */
  predicate Gives(lib: Lib, b: PemBlock, now: int, fp: Fingerprint) {
    && b.kind == "CERTIFICATE" && lib.parse(b.bytes).Some?
    && now <= lib.parse(b.bytes).value.notAfter && lib.fingerprint(lib.parse(b.bytes).value.raw) == fp
  }

  /** The row of a new fingerprint comes from the first block that gives it, field by field. */
  lemma {:induction false} StoredRow(lib: Lib, t: Table, blocks: seq<PemBlock>, n: nat, clock: Clock, fp: Fingerprint, i: nat)
    requires n <= |blocks| && i < |blocks| && Gives(lib, blocks[i], clock(i), fp)
    requires fp !in t && forall j :: 0 <= j < i ==> !Gives(lib, blocks[j], clock(j), fp)
    ensures var t', c := After(lib, t, blocks, n, clock).0, lib.parse(blocks[i].bytes).value;
            && (fp in t' <==> i < n)
            && (i < n ==> t'[fp] == Row(lib.encodePem(c.raw), c.subject, c.issuer, c.notBefore, c.notAfter))
  {
    if n > 0 { StoredRow(lib, t, blocks, n - 1, clock, fp, i); }
  }

  /** Nothing else is added: every new row describes the certificate of a wanted block. */
  lemma {:induction false} NewRowsDescribed(lib: Lib, t: Table, blocks: seq<PemBlock>, n: nat, clock: Clock, fp: Fingerprint)
    requires Lawful(lib) && n <= |blocks| && fp !in t
    requires fp in After(lib, t, blocks, n, clock).0
    ensures exists i :: 0 <= i < n && Supplies(lib, blocks[i], clock(i), fp, After(lib, t, blocks, n, clock).0[fp])
  {
    var t' := After(lib, t, blocks, n - 1, clock).0;
    if fp in t' {
      NewRowsDescribed(lib, t, blocks, n - 1, clock, fp);
      var i :| 0 <= i < n - 1 && Supplies(lib, blocks[i], clock(i), fp, t'[fp]);
      assert Supplies(lib, blocks[i], clock(i), fp, After(lib, t, blocks, n, clock).0[fp]);
    } else {
      var c := lib.parse(blocks[n - 1].bytes).value;
      assert Describes(lib, RowOf(lib, c), c);
      assert Supplies(lib, blocks[n - 1], clock(n - 1), fp, RowOf(lib, c));
    }
  }

  /**
   * Importing a bundle again at any later time, other imports between but no deletes, imports
   * nothing and leaves the table unchanged.
   */
  lemma {:induction false} ReimportNothing(lib: Lib, t: Table, blocks: seq<PemBlock>, m: nat, clock: Clock,
                                           between: Table, later: Clock)
    requires m <= |blocks| && forall i :: 0 <= i < |blocks| ==> clock(i) <= later(i)
    requires After(lib, t, blocks, |blocks|, clock).0.Keys <= between.Keys
    ensures After(lib, between, blocks, m, later).0 == between
    ensures After(lib, between, blocks, m, later).1.stats.imported == 0
  {
    if m > 0 {
      ReimportNothing(lib, t, blocks, m - 1, clock, between, later);
      if Wanted(lib, blocks[m - 1], later(m - 1)) {
        WantedStored(lib, t, blocks, |blocks|, clock, m - 1);
      }
    }
  }

  /** Time matters: an earlier clock can import what a later one skipped as expired. */
  lemma EarlierClockImports(lib: Lib, b: PemBlock, now: int)
    requires b.kind == LABEL && lib.parse(b.bytes).Some? && now > lib.parse(b.bytes).value.notAfter
    ensures After(lib, map[], [b], 1, _ => now).0 == map[]
    ensures After(lib, map[], [b], 1, _ => lib.parse(b.bytes).value.notAfter).1.stats.imported == 1
  {
    assert After(lib, map[], [b], 0, _ => now) == (map[], START);
    assert After(lib, map[], [b], 0, _ => lib.parse(b.bytes).value.notAfter) == (map[], START);
  }

  /** The clock as the second part of a bundle sees it, n blocks on. */
  function Later(clock: Clock, n: nat): Clock { (i: nat) => clock(n + i) }

  /** The table does not depend on the position counter or the statistics. */
  lemma {:induction false} ConcatTable(lib: Lib, t: Table, a: seq<PemBlock>, b: seq<PemBlock>, m: nat, clock: Clock)
    requires m <= |b|
    ensures After(lib, t, a + b, |a| + m, clock).0 == After(lib, After(lib, t, a, |a|, clock).0, b, m, Later(clock, |a|)).0
  {
    if m == 0 {
      PrefixAfter(lib, t, a, b, |a|, clock);
    } else {
      hide Process;
      ConcatTable(lib, t, a, b, m - 1, clock);
      assert (a + b)[|a| + m - 1] == b[m - 1];
      var second := Later(clock, |a|);
      var (t', p) := After(lib, t, a + b, |a| + m - 1, clock);
      ProcessTable(lib, t', p, After(lib, After(lib, t, a, |a|, clock).0, b, m - 1, second).1, b[m - 1], second(m - 1));
    }
  }

  lemma ProcessTable(lib: Lib, t: Table, p: Progress, q: Progress, b: PemBlock, now: int)
    ensures Process(lib, t, p, b, now).0 == Process(lib, t, q, b, now).0
  {
  }

  lemma {:induction false} PrefixAfter(lib: Lib, t: Table, a: seq<PemBlock>, b: seq<PemBlock>, n: nat, clock: Clock)
    requires n <= |a|
    ensures After(lib, t, a + b, n, clock) == After(lib, t, a, n, clock)
  {
    if n > 0 {
      PrefixAfter(lib, t, a, b, n - 1, clock);
      assert (a + b)[n - 1] == a[n - 1];
    }
  }

  /** Importing a concatenation leaves the same table as importing the parts in order. */
  lemma ImportConcat(lib: Lib, t: Table, a: seq<PemBlock>, b: seq<PemBlock>, clock: Clock)
    ensures After(lib, t, a + b, |a + b|, clock).0
            == After(lib, After(lib, t, a, |a|, clock).0, b, |b|, Later(clock, |a|)).0
  {
    ConcatTable(lib, t, a, b, |b|, clock);
  }

  // Counts and messages ------------------------------------------------------------------------

  /** The certificate blocks among the first n. */
  function Positions(blocks: seq<PemBlock>, n: nat): nat
    requires n <= |blocks|
  {
    if n == 0 then 0 else Positions(blocks, n - 1) + if blocks[n - 1].kind == "CERTIFICATE" then 1 else 0
  }

  /** What the import says about certificate block i, at the given position. */
  function Verdict(lib: Lib, t: Table, blocks: seq<PemBlock>, i: nat, clock: Clock, position: nat): Message
    requires i < |blocks|
  {
    match lib.parse(blocks[i].bytes)
    case None => MalformedAt(position)
    case Some(c) =>
      if clock(i) > c.notAfter then ExpiredAt(position, c.subject)
      else if lib.fingerprint(c.raw) in After(lib, t, blocks, i, clock).0 then ExistsAt(position, c.subject)
      else ImportedAt(position, c.subject)
  }

  lemma AfterMessage(lib: Lib, t: Table, blocks: seq<PemBlock>, n: nat, clock: Clock)
    requires 0 < n <= |blocks|
    ensures var p, q := After(lib, t, blocks, n - 1, clock).1, After(lib, t, blocks, n, clock).1;
            if blocks[n - 1].kind == "CERTIFICATE" then
              && q.position == p.position + 1
              && q.stats.messages == p.stats.messages + [Verdict(lib, t, blocks, n - 1, clock, p.position + 1)]
            else q == p
  {
    hide After;
    AfterLast(lib, t, blocks, n, clock);
  }

  /**
   * Every certificate block has one message, in order, numbered from 1 among the certificate blocks:
   * malformed, expired at the time it was examined, already in the table by then, or imported.
   */
  lemma {:induction false} MessagesExactly(lib: Lib, t: Table, blocks: seq<PemBlock>, n: nat, clock: Clock)
    requires n <= |blocks|
    ensures var p := After(lib, t, blocks, n, clock).1;
            && p.position == Positions(blocks, n) == |p.stats.messages|
            && forall i :: 0 <= i < n && blocks[i].kind == "CERTIFICATE" ==>
                 Positions(blocks, i) < |p.stats.messages|
                 && p.stats.messages[Positions(blocks, i)]
                    == Verdict(lib, t, blocks, i, clock, Positions(blocks, i) + 1)
  {
    hide After, Process, Verdict;
    if n == 0 {
      NothingCounted(lib, t, blocks, clock);
    } else {
      MessagesExactly(lib, t, blocks, n - 1, clock);
      AfterMessage(lib, t, blocks, n, clock);
      forall i | 0 <= i < n - 1 && blocks[i].kind == "CERTIFICATE"
        ensures Positions(blocks, i) < Positions(blocks, n - 1)
      {
      }
    }
  }

  predicate Malformed(lib: Lib, b: PemBlock) { b.kind == "CERTIFICATE" && lib.parse(b.bytes).None? }

  predicate Detected(lib: Lib, b: PemBlock) { b.kind == "CERTIFICATE" && lib.parse(b.bytes).Some? }

  /** Block i holds a certificate that had expired when it was examined, or that the table had by then. */
  predicate Skipped(lib: Lib, t: Table, blocks: seq<PemBlock>, i: nat, clock: Clock)
    requires i < |blocks|
  {
    Detected(lib, blocks[i])
    && var c := lib.parse(blocks[i].bytes).value;
       clock(i) > c.notAfter || lib.fingerprint(c.raw) in After(lib, t, blocks, i, clock).0
  }

  ghost function MalformedBlocks(lib: Lib, blocks: seq<PemBlock>, n: nat): set<nat>
    requires n <= |blocks|
  {
    set i | 0 <= i < n && Malformed(lib, blocks[i])
  }

  ghost function DetectedBlocks(lib: Lib, blocks: seq<PemBlock>, n: nat): set<nat>
    requires n <= |blocks|
  {
    set i | 0 <= i < n && Detected(lib, blocks[i])
  }

  ghost function SkippedBlocks(lib: Lib, t: Table, blocks: seq<PemBlock>, n: nat, clock: Clock): set<nat>
    requires n <= |blocks|
  {
    set i | 0 <= i < n && Skipped(lib, t, blocks, i, clock)
  }

  lemma OneMore(a: set<nat>, b: set<nat>, n: nat, more: bool)
    requires n !in a && b == a + if more then {n} else {}
    ensures |b| == |a| + if more then 1 else 0
  {
  }

  lemma MalformedGrow(lib: Lib, blocks: seq<PemBlock>, n: nat)
    requires n < |blocks|
    ensures |MalformedBlocks(lib, blocks, n + 1)|
            == |MalformedBlocks(lib, blocks, n)| + if Malformed(lib, blocks[n]) then 1 else 0
  {
    hide Malformed;
    OneMore(MalformedBlocks(lib, blocks, n), MalformedBlocks(lib, blocks, n + 1), n, Malformed(lib, blocks[n]));
  }

  lemma DetectedGrow(lib: Lib, blocks: seq<PemBlock>, n: nat)
    requires n < |blocks|
    ensures |DetectedBlocks(lib, blocks, n + 1)|
            == |DetectedBlocks(lib, blocks, n)| + if Detected(lib, blocks[n]) then 1 else 0
  {
    hide Detected;
    OneMore(DetectedBlocks(lib, blocks, n), DetectedBlocks(lib, blocks, n + 1), n, Detected(lib, blocks[n]));
  }

  lemma SkippedGrow(lib: Lib, t: Table, blocks: seq<PemBlock>, n: nat, clock: Clock)
    requires n < |blocks|
    ensures |SkippedBlocks(lib, t, blocks, n + 1, clock)|
            == |SkippedBlocks(lib, t, blocks, n, clock)| + if Skipped(lib, t, blocks, n, clock) then 1 else 0
  {
    SkippedSet(lib, t, blocks, n, clock);
    hide Skipped, SkippedBlocks;
    OneMore(SkippedBlocks(lib, t, blocks, n, clock), SkippedBlocks(lib, t, blocks, n + 1, clock), n,
            Skipped(lib, t, blocks, n, clock));
  }

  lemma SkippedSet(lib: Lib, t: Table, blocks: seq<PemBlock>, n: nat, clock: Clock)
    requires n < |blocks|
    ensures n !in SkippedBlocks(lib, t, blocks, n, clock)
    ensures SkippedBlocks(lib, t, blocks, n + 1, clock)
            == SkippedBlocks(lib, t, blocks, n, clock) + if Skipped(lib, t, blocks, n, clock) then {n} else {}
  {
    hide Skipped;
  }

  lemma ProcessCounts(lib: Lib, t: Table, p: Progress, b: PemBlock, now: int)
    ensures var s, s' := p.stats, Process(lib, t, p, b, now).1.stats;
            var c := lib.parse(b.bytes);
            var out := c.Some? && (now > c.value.notAfter || lib.fingerprint(c.value.raw) in t);
            && s'.malformed == s.malformed + (if Malformed(lib, b) then 1 else 0)
            && s'.detected == s.detected + (if Detected(lib, b) then 1 else 0)
            && s'.skipped == s.skipped + (if Detected(lib, b) && out then 1 else 0)
            && s'.imported == s.imported + (if Detected(lib, b) && !out then 1 else 0)
  {
  }

  lemma AfterCounts(lib: Lib, t: Table, blocks: seq<PemBlock>, n: nat, clock: Clock)
    requires 0 < n <= |blocks|
    ensures var s, s', b := After(lib, t, blocks, n - 1, clock).1.stats, After(lib, t, blocks, n, clock).1.stats, blocks[n - 1];
            var out := Skipped(lib, t, blocks, n - 1, clock);
            && s'.malformed == s.malformed + (if Malformed(lib, b) then 1 else 0)
            && s'.detected == s.detected + (if Detected(lib, b) then 1 else 0)
            && s'.skipped == s.skipped + (if out then 1 else 0)
            && s'.imported == s.imported + (if Detected(lib, b) && !out then 1 else 0)
  {
    hide Process;
    var (t', p) := After(lib, t, blocks, n - 1, clock);
    ProcessCounts(lib, t', p, blocks[n - 1], clock(n - 1));
  }

  lemma NothingCounted(lib: Lib, t: Table, blocks: seq<PemBlock>, clock: Clock)
    ensures After(lib, t, blocks, 0, clock) == (t, START)
    ensures MalformedBlocks(lib, blocks, 0) == DetectedBlocks(lib, blocks, 0) == SkippedBlocks(lib, t, blocks, 0, clock) == {}
  {
  }

  /** The counts, over the blocks: every certificate block is malformed, skipped or imported. */
  lemma {:induction false} CountsExactly(lib: Lib, t: Table, blocks: seq<PemBlock>, n: nat, clock: Clock)
    requires n <= |blocks|
    ensures var s := After(lib, t, blocks, n, clock).1.stats;
            && s.malformed == |MalformedBlocks(lib, blocks, n)|
            && s.detected == |DetectedBlocks(lib, blocks, n)|
            && s.skipped == |SkippedBlocks(lib, t, blocks, n, clock)|
            && s.imported == s.detected - s.skipped
  {
    hide After, Malformed, Detected, Skipped, MalformedBlocks, DetectedBlocks, SkippedBlocks;
    if n == 0 {
      NothingCounted(lib, t, blocks, clock);
    } else {
      CountsExactly(lib, t, blocks, n - 1, clock);
      AfterCounts(lib, t, blocks, n, clock);
      MalformedGrow(lib, blocks, n - 1);
      DetectedGrow(lib, blocks, n - 1);
      SkippedGrow(lib, t, blocks, n - 1, clock);
      SkippedDetected(lib, t, blocks, n - 1, clock);
    }
  }

  lemma SkippedDetected(lib: Lib, t: Table, blocks: seq<PemBlock>, i: nat, clock: Clock)
    requires i < |blocks|
    ensures Skipped(lib, t, blocks, i, clock) ==> Detected(lib, blocks[i])
  {
  }

  lemma AfterReported(lib: Lib, t: Table, blocks: seq<PemBlock>, n: nat, clock: Clock)
    requires 0 < n <= |blocks|
    ensures var (t', p) := After(lib, t, blocks, n - 1, clock);
            var (t'', q) := After(lib, t, blocks, n, clock);
            || (t'' == t' && q.stats.certificates == p.stats.certificates)
            || exists fp :: fp !in t' && t''.Keys == t'.Keys + {fp} && |t''| == |t'| + 1
                            && q.stats.certificates == p.stats.certificates + [fp]
  {
    hide After;
    AfterLast(lib, t, blocks, n, clock);
  }

  lemma AfterLast(lib: Lib, t: Table, blocks: seq<PemBlock>, n: nat, clock: Clock)
    requires 0 < n <= |blocks|
    ensures var (t', p) := After(lib, t, blocks, n - 1, clock);
            After(lib, t, blocks, n, clock) == Process(lib, t', p, blocks[n - 1], clock(n - 1))
  {
  }

  /** The reported fingerprints are those of the new rows, each once. */
  lemma {:induction false} ReportedExactly(lib: Lib, t: Table, blocks: seq<PemBlock>, n: nat, clock: Clock)
    requires n <= |blocks|
    ensures var (t', p) := After(lib, t, blocks, n, clock);
            && t.Keys <= t'.Keys
            && |p.stats.certificates| == |t'| - |t|
            && forall fp :: fp in p.stats.certificates <==> fp in t' && fp !in t
  {
    hide After, Process, Balanced;
    if n == 0 {
      NothingCounted(lib, t, blocks, clock);
    } else {
      ReportedExactly(lib, t, blocks, n - 1, clock);
      AfterReported(lib, t, blocks, n, clock);
    }
  }

  // The pool as the table's certificates -------------------------------------------------------

  /** A certificate is trusted exactly if some row's PEM parses to it; the pool loads if every row's does. */
  lemma TrustedExactly(lib: Lib, t: Table, c: Cert)
    ensures c in CertsOf(lib, t)
            <==> exists fp :: fp in t && lib.decodePem(t[fp].pem).Some? && lib.parse(lib.decodePem(t[fp].pem).value) == Some(c)
    ensures Loadable(lib, t)
            <==> forall fp :: fp in t ==> lib.decodePem(t[fp].pem).Some? && lib.parse(lib.decodePem(t[fp].pem).value).Some?
  {
    if c in CertsOf(lib, t) {
      var fp :| fp in t && CertOf(lib, t[fp]) == Some(c);
      assert lib.decodePem(t[fp].pem).Some?;
    }
    if Loadable(lib, t) {
      forall fp | fp in t
        ensures lib.decodePem(t[fp].pem).Some? && lib.parse(lib.decodePem(t[fp].pem).value).Some?
      {
        assert CertOf(lib, t[fp]).Some?;
      }
    }
  }

  /**
   * What an import is for: a well-formed certificate that has not expired, and whose fingerprint was
   * not in the table, is trusted once the pool is loaded from the table it leaves.
   */
  lemma ImportedTrusted(lib: Lib, t: Table, blocks: seq<PemBlock>, clock: Clock, i: nat)
    requires Lawful(lib) && i < |blocks| && blocks[i].kind == "CERTIFICATE" && lib.parse(blocks[i].bytes).Some?
    requires clock(i) <= lib.parse(blocks[i].bytes).value.notAfter
    requires lib.fingerprint(blocks[i].bytes) !in t
    ensures var t' := After(lib, t, blocks, |blocks|, clock).0;
            exists c :: c in CertsOf(lib, t') && lib.fingerprint(c.raw) == lib.fingerprint(blocks[i].bytes)
  {
    var fp, t' := lib.fingerprint(blocks[i].bytes), After(lib, t, blocks, |blocks|, clock).0;
    WantedStored(lib, t, blocks, |blocks|, clock, i);
    NewRowsDescribed(lib, t, blocks, |blocks|, clock, fp);
    var j :| 0 <= j < |blocks| && Supplies(lib, blocks[j], clock(j), fp, t'[fp]);
    assert CertOf(lib, t'[fp]).Some?;
    assert CertOf(lib, t'[fp]).value in CertsOf(lib, t');
  }
}
