/**
 * Concurrent use of the certificate table: imports whose existence check and insert are separate
 * statements, and pool reloads whose table read and pool swap are separate steps.
 */
module CaConcurrency {
  import opened Wrappers
  import opened DeviceCa

  // Concurrent imports -------------------------------------------------------------------------

  /** One import request: its bundle, the next block, and a certificate past its existence check. */
  datatype Importer = Importer(blocks: seq<PemBlock>, next: nat, p: Progress, creating: Option<Cert>)

  datatype World = World(table: Table, importers: seq<Importer>)

  /** An importer takes the next block at some time, or inserts the certificate it has checked. */
  datatype Step = ScanNext(k: nat, now: int) | Insert(k: nat)

  function StepOne(lib: Lib, w: World, s: Step): World {
    if s.k >= |w.importers| then w
    else
      var i := w.importers[s.k];
      match s
      case ScanNext(k, now) =>
        if i.creating.Some? || i.next >= |i.blocks| then w
        else
          var (p, c) := Scan(lib, w.table, i.p, i.blocks[i.next], now);
          w.(importers := w.importers[k := i.(next := i.next + 1, p := p, creating := c)])
      case Insert(k) =>
        if i.creating.None? then w
        else
          var (t, p) := Create(lib, w.table, i.p, i.creating.value);
          World(t, w.importers[k := i.(p := p, creating := None)])
  }

  function Run(lib: Lib, w: World, steps: seq<Step>): World {
    if steps == [] then w else StepOne(lib, Run(lib, w, steps[..|steps| - 1]), steps[|steps| - 1])
  }

  /** All fingerprints reported as imported, with multiplicity. */
  function Reported(xs: seq<Importer>): multiset<Fingerprint> {
    if xs == [] then multiset{}
    else Reported(xs[..|xs| - 1]) + multiset(xs[|xs| - 1].p.stats.certificates)
  }

  function TotalImported(xs: seq<Importer>): nat {
    if xs == [] then 0 else TotalImported(xs[..|xs| - 1]) + xs[|xs| - 1].p.stats.imported
  }

  /** The certificate detected but not yet inserted. */
  function Outstanding(i: Importer): nat { if i.creating.Some? then 1 else 0 }

  predicate AllBalanced(xs: seq<Importer>) {
    forall k :: 0 <= k < |xs| ==> Balanced(xs[k].p.stats, Outstanding(xs[k]))
  }

  lemma ReportedLast(xs: seq<Importer>)
    requires xs != []
    ensures Reported(xs) == Reported(xs[..|xs| - 1]) + multiset(xs[|xs| - 1].p.stats.certificates)
  {
  }

  lemma {:induction false} ReportedUpdate(xs: seq<Importer>, k: nat, i: Importer, more: multiset<Fingerprint>)
    requires k < |xs|
    requires multiset(i.p.stats.certificates) == multiset(xs[k].p.stats.certificates) + more
    ensures Reported(xs[k := i]) == Reported(xs) + more
  {
    hide Reported;
    var n := |xs| - 1;
    ReportedLast(xs);
    ReportedLast(xs[k := i]);
    if k == n {
      assert xs[k := i][..n] == xs[..n];
    } else {
      assert xs[k := i][..n] == xs[..n][k := i];
      ReportedUpdate(xs[..n], k, i, more);
    }
  }

  lemma {:induction false} ReportedSize(xs: seq<Importer>)
    requires AllBalanced(xs)
    ensures |Reported(xs)| == TotalImported(xs)
  {
    if xs != [] { ReportedSize(xs[..|xs| - 1]); }
  }

  /** The new rows of the table are exactly the reported certificates, each reported once. */
  ghost predicate Conserved(start: Table, w: World) {
    && AllBalanced(w.importers)
    && (forall fp :: fp in start ==> fp in w.table && w.table[fp] == start[fp])
    && Reported(w.importers) == multiset(w.table.Keys - start.Keys)
  }

  lemma ScanKeeps(lib: Lib, t: Table, p: Progress, b: PemBlock, now: int)
    requires Balanced(p.stats, 0)
    ensures var (p', c) := Scan(lib, t, p, b, now);
            Balanced(p'.stats, if c.Some? then 1 else 0) && p'.stats.certificates == p.stats.certificates
  {
  }

  lemma CreateKeeps(lib: Lib, t: Table, p: Progress, c: Cert)
    requires Balanced(p.stats, 1)
    ensures var (t', p') := Create(lib, t, p, c);
            var fp := lib.fingerprint(c.raw);
            && Balanced(p'.stats, 0)
            && (fp in t ==> t' == t && p'.stats.certificates == p.stats.certificates)
            && (fp !in t ==> t' == t[fp := RowOf(lib, c)] && p'.stats.certificates == p.stats.certificates + [fp])
  {
  }

  lemma BalancedUpdate(xs: seq<Importer>, k: nat, i: Importer)
    requires AllBalanced(xs) && k < |xs| && Balanced(i.p.stats, Outstanding(i))
    ensures AllBalanced(xs[k := i])
  {
  }

  /** An importer changes its progress without importing. */
  lemma ConservedSame(start: Table, w: World, k: nat, i: Importer)
    requires Conserved(start, w) && k < |w.importers| && Balanced(i.p.stats, Outstanding(i))
    requires i.p.stats.certificates == w.importers[k].p.stats.certificates
    ensures Conserved(start, w.(importers := w.importers[k := i]))
  {
    hide Reported, AllBalanced, Balanced;
    BalancedUpdate(w.importers, k, i);
    ReportedUpdate(w.importers, k, i, multiset{});
  }

  /** An importer adds a row and reports it. */
  lemma ConservedNew(start: Table, w: World, k: nat, i: Importer, fp: Fingerprint, row: Row)
    requires Conserved(start, w) && k < |w.importers| && Balanced(i.p.stats, Outstanding(i))
    requires fp !in w.table && i.p.stats.certificates == w.importers[k].p.stats.certificates + [fp]
    ensures Conserved(start, World(w.table[fp := row], w.importers[k := i]))
  {
    hide Reported, AllBalanced, Balanced;
    BalancedUpdate(w.importers, k, i);
    ReportedUpdate(w.importers, k, i, multiset{fp});
    NewKey(start, w.table, w.table[fp := row], fp);
  }

  lemma ConservedScan(lib: Lib, start: Table, w: World, k: nat, now: int)
    requires Conserved(start, w)
    ensures Conserved(start, StepOne(lib, w, ScanNext(k, now)))
  {
    hide Scan, Reported;
    if k < |w.importers| {
      var i := w.importers[k];
      if i.creating.None? && i.next < |i.blocks| {
        ScanKeeps(lib, w.table, i.p, i.blocks[i.next], now);
        ConservedSame(start, w, k, StepOne(lib, w, ScanNext(k, now)).importers[k]);
      }
    }
  }

  lemma ConservedInsert(lib: Lib, start: Table, w: World, k: nat)
    requires Conserved(start, w)
    ensures Conserved(start, StepOne(lib, w, Insert(k)))
  {
    hide Create, Reported;
    if k < |w.importers| && w.importers[k].creating.Some? {
      var i := w.importers[k];
      var c := i.creating.value;
      var fp := lib.fingerprint(c.raw);
      CreateKeeps(lib, w.table, i.p, c);
      var i' := StepOne(lib, w, Insert(k)).importers[k];
      if fp in w.table {
        ConservedSame(start, w, k, i');
      } else {
        ConservedNew(start, w, k, i', fp, RowOf(lib, c));
      }
    }
  }

  lemma NewKey(start: Table, t: Table, t': Table, fp: Fingerprint)
    requires t'.Keys == t.Keys + {fp} && fp !in t && start.Keys <= t.Keys
    ensures multiset(t'.Keys - start.Keys) == multiset(t.Keys - start.Keys) + multiset{fp}
  {
    assert t'.Keys - start.Keys == (t.Keys - start.Keys) + {fp};
  }

  lemma {:induction false} ConservedRun(lib: Lib, start: Table, w: World, steps: seq<Step>)
    requires Conserved(start, w)
    ensures Conserved(start, Run(lib, w, steps))
    decreases |steps|
  {
    if steps != [] {
      var n := |steps| - 1;
      ConservedRun(lib, start, w, steps[..n]);
      var w' := Run(lib, w, steps[..n]);
      match steps[n]
      case ScanNext(k, now) => ConservedScan(lib, start, w', k, now);
      case Insert(k) => ConservedInsert(lib, start, w', k);
    }
  }

  predicate Idle(i: Importer) { i.p == START && i.creating.None? }

  function Begin(blocks: seq<PemBlock>): (i: Importer)
    ensures Idle(i)
  {
    Importer(blocks, 0, START, None)
  }

  function Fresh(bundles: seq<seq<PemBlock>>): (xs: seq<Importer>)
    ensures |xs| == |bundles| && forall k :: 0 <= k < |xs| ==> Idle(xs[k])
  {
    seq(|bundles|, k requires 0 <= k < |bundles| => Begin(bundles[k]))
  }

  lemma {:induction false} NothingReported(xs: seq<Importer>)
    requires forall k :: 0 <= k < |xs| ==> Idle(xs[k])
    ensures Reported(xs) == multiset{}
  {
    if xs != [] {
      var n := |xs| - 1;
      NothingReported(xs[..n]);
      assert Idle(xs[n]);
    }
  }

  lemma GrowthIsCardinality(start: Table, t: Table)
    requires start.Keys <= t.Keys
    ensures |t.Keys - start.Keys| == |t| - |start|
  {
    assert t.Keys == start.Keys + (t.Keys - start.Keys);
  }

  lemma ConservedStart(start: Table, xs: seq<Importer>)
    requires forall k :: 0 <= k < |xs| ==> Idle(xs[k])
    ensures Conserved(start, World(start, xs))
  {
    NothingReported(xs);
    var none := start.Keys - start.Keys;
    assert none == {};
    assert multiset(none) == multiset{};
    forall k | 0 <= k < |xs|
      ensures Balanced(xs[k].p.stats, Outstanding(xs[k]))
    {
      assert Idle(xs[k]);
    }
  }

  lemma ConservedGrowth(start: Table, w: World)
    requires Conserved(start, w)
    ensures |w.table| == |start| + TotalImported(w.importers)
  {
    ReportedSize(w.importers);
    assert start.Keys <= w.table.Keys;
    GrowthIsCardinality(start, w.table);
  }

  /**
   * Conservation: for any bundles imported concurrently, in any interleaving of checks and inserts,
   * the counts of every import add up, the sum of the imported counts is the growth of the table,
   * and each new row is reported to exactly one import, once.
   */
  lemma ImportsConserve(lib: Lib, start: Table, bundles: seq<seq<PemBlock>>, steps: seq<Step>)
    ensures var w := Run(lib, World(start, Fresh(bundles)), steps);
            && (forall k :: 0 <= k < |w.importers| ==>
                  var s, waiting := w.importers[k].p.stats, if w.importers[k].creating.Some? then 1 else 0;
                  && s.detected == s.imported + s.skipped + waiting
                  && |s.messages| + waiting == s.detected + s.malformed
                  && |s.certificates| == s.imported)
            && Reported(w.importers) == multiset(w.table.Keys - start.Keys)
            && |w.table| == |start| + TotalImported(w.importers)
  {
    var w := World(start, Fresh(bundles));
    ConservedStart(start, w.importers);
    ConservedRun(lib, start, w, steps);
    ConservedGrowth(start, Run(lib, w, steps));
  }

  /** The imports at first: one for each bundle, at its first block, with nothing counted. */
  lemma FreshExactly(bundles: seq<seq<PemBlock>>)
    ensures |Fresh(bundles)| == |bundles|
    ensures forall k :: 0 <= k < |bundles| ==>
              Fresh(bundles)[k] == Importer(bundles[k], 0, Progress(0, Stats(0, 0, 0, 0, [], [])), None)
  {
  }

  /** The turns of one import for its first n blocks, block i examined at clock(i). */
  function Alone(k: nat, n: nat, clock: Clock): seq<Step> {
    if n == 0 then [] else Alone(k, n - 1, clock) + [ScanNext(k, clock(n - 1)), Insert(k)]
  }

  /** An import whose checks and inserts nothing comes between is the sequential import. */
  lemma {:induction false} AloneIsSequential(lib: Lib, w: World, k: nat, n: nat, clock: Clock)
    requires k < |w.importers| && Idle(w.importers[k]) && w.importers[k].next == 0 && n <= |w.importers[k].blocks|
    ensures var blocks := w.importers[k].blocks;
            var (t, p) := After(lib, w.table, blocks, n, clock);
            Run(lib, w, Alone(k, n, clock)) == World(t, w.importers[k := Importer(blocks, n, p, None)])
  {
    hide Process, StepOne, Run;
    if n == 0 {
      assert Run(lib, w, []) == w by { RunNone(lib, w); }
      assert w.importers[k := w.importers[k]] == w.importers;
    } else {
      AloneIsSequential(lib, w, k, n - 1, clock);
      RunTwo(lib, w, Alone(k, n - 1, clock), ScanNext(k, clock(n - 1)), Insert(k));
      BlockAlone(lib, Run(lib, w, Alone(k, n - 1, clock)), k, clock(n - 1));
    }
  }

  lemma RunNone(lib: Lib, w: World)
    ensures Run(lib, w, []) == w
  {
  }

  lemma BlockAlone(lib: Lib, w: World, k: nat, now: int)
    requires k < |w.importers| && w.importers[k].creating.None? && w.importers[k].next < |w.importers[k].blocks|
    ensures var i := w.importers[k];
            var (t, p) := Process(lib, w.table, i.p, i.blocks[i.next], now);
            StepOne(lib, StepOne(lib, w, ScanNext(k, now)), Insert(k))
            == World(t, w.importers[k := Importer(i.blocks, i.next + 1, p, None)])
  {
    hide Scan, Create;
  }

  lemma RunTwo(lib: Lib, w: World, steps: seq<Step>, a: Step, b: Step)
    ensures Run(lib, w, steps + [a, b]) == StepOne(lib, StepOne(lib, Run(lib, w, steps), a), b)
  {
    hide StepOne;
    assert (steps + [a, b])[..|steps| + 1] == steps + [a];
    assert (steps + [a])[..|steps|] == steps;
  }

  /**
   * The race: a certificate inserted by another import after the check is skipped with its own
   * message and keeps the other's row, and nobody else is affected.
   */
  lemma OvertakenIsSkipped(lib: Lib, w: World, k: nat)
    requires k < |w.importers| && w.importers[k].creating.Some?
    requires lib.fingerprint(w.importers[k].creating.value.raw) in w.table
    ensures var i, w' := w.importers[k], StepOne(lib, w, Insert(k));
            var s, c := i.p.stats, i.creating.value;
            && w'.table == w.table
            && w'.importers == w.importers[k := w'.importers[k]]
            && w'.importers[k] == Importer(i.blocks, i.next, Progress(i.p.position,
                 Stats(s.detected, s.imported, s.skipped + 1, s.malformed,
                       s.messages + [ExistsAt(i.p.position, c.subject)], s.certificates)), None)
  {
  }

  // Concurrent requests and the pool -----------------------------------------------------------

  /** How far a request has come: changing the table, then reading it, then swapping the pool. */
  datatype Phase =
    | Adding(i: Importer)
    | Removing(fp: Fingerprint)
    | Loading
    | Holding(certs: set<Cert>)
    | Done

  datatype Server = Server(table: Table, pool: set<Cert>, requests: seq<Phase>)

  /** Request k takes its next step, at some time; `fault` makes its statement fail, if it has one. */
  datatype Turn = Turn(k: nat, now: int, fault: bool)

  function Set(w: Server, k: nat, p: Phase): Server
    requires k < |w.requests|
  {
    w.(requests := w.requests[k := p])
  }

  function Add(lib: Lib, w: Server, k: nat, i: Importer, now: int): Server
    requires k < |w.requests|
  {
    match i.creating
    case Some(c) =>
      var (t, p) := Create(lib, w.table, i.p, c);
      Set(w.(table := t), k, Adding(i.(p := p, creating := None)))
    case None =>
      if i.next < |i.blocks| then
        var (p, c) := Scan(lib, w.table, i.p, i.blocks[i.next], now);
        Set(w, k, Adding(i.(next := i.next + 1, p := p, creating := c)))
      else Set(w, k, if i.p.stats.imported > 0 then Loading else Done)
  }

  /** Both handlers: a failed statement ends the request, and a table that does not parse ends its reload. */
  function Take(lib: Lib, w: Server, s: Turn): Server {
    if s.k >= |w.requests| then w
    else
      match w.requests[s.k]
      case Adding(i) => if s.fault then Set(w, s.k, Done) else Add(lib, w, s.k, i, s.now)
      case Removing(fp) =>
        if s.fault || fp !in w.table then Set(w, s.k, Done)
        else Set(w.(table := w.table - {fp}), s.k, Loading)
      case Loading => Set(w, s.k, if s.fault || !Loadable(lib, w.table) then Done else Holding(CertsOf(lib, w.table)))
      case Holding(certs) => Set(w.(pool := certs), s.k, Done)
      case Done => w
  }

  /** A failing statement ends its request and changes nothing; the swap has no statement to fail. */
  lemma FailedTurn(lib: Lib, w: Server, k: nat, now: int)
    requires k < |w.requests| && !w.requests[k].Holding?
    ensures Take(lib, w, Turn(k, now, true)) == Server(w.table, w.pool, w.requests[k := Done])
  {
  }

  /** A delete removes its row alone and goes on to the reload; without the row it is finished. */
  lemma RemovingTurn(lib: Lib, w: Server, k: nat, now: int, fp: Fingerprint)
    requires k < |w.requests| && w.requests[k] == Removing(fp)
    ensures var w' := Take(lib, w, Turn(k, now, false));
            && w'.pool == w.pool
            && w'.requests == w.requests[k := if fp in w.table then Loading else Done]
            && fp !in w'.table
            && forall x :: x != fp ==> (x in w'.table <==> x in w.table) && (x in w.table ==> w'.table[x] == w.table[x])
  {
  }

  /** A reload reads the table and, if every row of it parses, installs its certificates, whatever it is then. */
  lemma ReloadTurns(lib: Lib, w: Server, u: Server, k: nat, now: int, fault: bool)
    requires k < |w.requests| == |u.requests| && w.requests[k] == Loading
    requires u.requests[k] == Take(lib, w, Turn(k, now, false)).requests[k]
    ensures Take(lib, w, Turn(k, now, false)).(requests := []) == w.(requests := [])
    ensures Take(lib, u, Turn(k, now, fault)).table == u.table
    ensures Take(lib, u, Turn(k, now, fault)).requests == u.requests[k := Done]
    ensures Take(lib, u, Turn(k, now, fault)).pool == if Loadable(lib, w.table) then CertsOf(lib, w.table) else u.pool
  {
    hide Loadable, CertsOf;
  }

  /** The import of a request: one block at a time, and a reload exactly if something was imported. */
  lemma AddingTurns(lib: Lib, w: Server, k: nat, now: int, i: Importer)
    requires k < |w.requests| && w.requests[k] == Adding(i) && i.creating.None? && i.next <= |i.blocks|
    ensures var w' := Take(lib, w, Turn(k, now, false));
            if i.next == |i.blocks| then
              w' == Server(w.table, w.pool, w.requests[k := if i.p.stats.imported == 0 then Done else Loading])
            else
              var (t, p) := Process(lib, w.table, i.p, i.blocks[i.next], now);
              var w'' := if w'.requests[k].i.creating.None? then w' else Take(lib, w', Turn(k, now, false));
              w'' == Server(t, w.pool, w.requests[k := Adding(Importer(i.blocks, i.next + 1, p, None))])
  {
  }

  /** A request that has not begun. */
  predicate Unstarted(p: Phase) { p.Removing? || (p.Adding? && Idle(p.i)) }

  /** The stored table at start-up, and the requests that will arrive. */
  datatype Boot = Boot(lib: Lib, table: Table, requests: seq<Phase>)

  /** Start-up fails unless every stored row parses; no request has begun. */
  predicate Starts(b: Boot) {
    Loadable(b.lib, b.table) && forall k :: 0 <= k < |b.requests| ==> Unstarted(b.requests[k])
  }

  /** Any imports and deletes can arrive, in any order, at a server whose table loads. */
  lemma AnyRequestsStart(lib: Lib, t: Table, bundles: seq<seq<PemBlock>>, requests: seq<Phase>)
    requires Loadable(lib, t)
    requires forall k :: 0 <= k < |requests| ==>
               requests[k].Removing? || (requests[k].Adding? && requests[k].i in Fresh(bundles))
    ensures Starts(Boot(lib, t, requests))
  {
  }

  /** The server after start-up, which loads the pool, and then the turns taken. */
  function Serve(b: Boot, turns: seq<Turn>): Server {
    if turns == [] then Server(b.table, CertsOf(b.lib, b.table), b.requests)
    else Take(b.lib, Serve(b, turns[..|turns| - 1]), turns[|turns| - 1])
  }

  /** The certificates in the table after the first n turns. */
  function CertsAt(b: Boot, turns: seq<Turn>, n: nat): set<Cert>
    requires n <= |turns|
  {
    CertsOf(b.lib, Serve(b, turns[..n]).table)
  }

  /** The turn reads the whole table for a reload. */
  predicate Reads(lib: Lib, w: Server, s: Turn) {
    s.k < |w.requests| && w.requests[s.k].Loading? && !s.fault && Loadable(lib, w.table)
  }

  predicate Swaps(w: Server, s: Turn) { s.k < |w.requests| && w.requests[s.k].Holding? }

  /** When request k read the table for its reload: 0 if it has not. */
  function ReadAt(b: Boot, turns: seq<Turn>, k: nat): (n: nat)
    ensures n <= |turns|
  {
    if turns == [] then 0
    else
      var n := |turns| - 1;
      if turns[n].k == k && Reads(b.lib, Serve(b, turns[..n]), turns[n]) then n else ReadAt(b, turns[..n], k)
  }

  /** When the reload that swapped the pool last had read the table: 0, the start-up, if none has. */
  function PoolRead(b: Boot, turns: seq<Turn>): (n: nat)
    ensures n <= |turns|
  {
    if turns == [] then 0
    else
      var n := |turns| - 1;
      if Swaps(Serve(b, turns[..n]), turns[n]) then ReadAt(b, turns[..n], turns[n].k) else PoolRead(b, turns[..n])
  }

  /** When any reload last read the table. */
  function LastRead(b: Boot, turns: seq<Turn>): (n: nat)
    ensures n <= |turns|
  {
    if turns == [] then 0
    else
      var n := |turns| - 1;
      if Reads(b.lib, Serve(b, turns[..n]), turns[n]) then n else LastRead(b, turns[..n])
  }

  /** What a turn does to the pool and to a reload's certificates. */
  lemma TakePool(lib: Lib, w: Server, s: Turn, k: nat)
    requires k < |w.requests|
    ensures var w' := Take(lib, w, s);
            && |w'.requests| == |w.requests|
            && w'.pool == (if Swaps(w, s) then w.requests[s.k].certs else w.pool)
            && (w'.requests[k].Holding? ==>
                  if s.k == k && Reads(lib, w, s) then w'.requests[k].certs == CertsOf(lib, w.table)
                  else w'.requests[k] == w.requests[k])
  {
    hide CertsOf, Loadable, Scan, Create;
  }

  lemma TakeSize(lib: Lib, w: Server, s: Turn)
    ensures |Take(lib, w, s).requests| == |w.requests|
    ensures !Swaps(w, s) ==> Take(lib, w, s).pool == w.pool
  {
    hide CertsOf, Loadable, Scan, Create;
  }

  /** The certificates read earlier are those of the same turn in the longer run. */
  lemma CertsAtPrefix(b: Boot, turns: seq<Turn>, n: nat)
    requires turns != [] && n < |turns|
    ensures CertsAt(b, turns[..|turns| - 1], n) == CertsAt(b, turns, n)
  {
    assert turns[..|turns| - 1][..n] == turns[..n];
  }

  /**
   * In every interleaving of imports, deletes and reloads, failures included, the pool is the table
   * that the reload which swapped last had read, and a reload about to swap holds the table it read.
   */
  lemma {:induction false} PoolIsSnapshot(b: Boot, turns: seq<Turn>)
    requires Starts(b)
    ensures var w := Serve(b, turns);
            && |w.requests| == |b.requests|
            && w.pool == CertsAt(b, turns, PoolRead(b, turns))
            && forall k :: 0 <= k < |w.requests| && w.requests[k].Holding?
                 ==> w.requests[k].certs == CertsAt(b, turns, ReadAt(b, turns, k))
    decreases |turns|
  {
    hide Take, CertsOf, Loadable;
    if turns == [] {
      assert turns[..0] == turns;
      assert forall k :: 0 <= k < |b.requests| ==> Unstarted(b.requests[k]);
    } else {
      var n := |turns| - 1;
      var before, s := turns[..n], turns[n];
      PoolIsSnapshot(b, before);
      var w := Serve(b, before);
      TakeSize(b.lib, w, s);
      CertsAtPrefix(b, turns, PoolRead(b, before));
      if Swaps(w, s) {
        TakePool(b.lib, w, s, s.k);
        CertsAtPrefix(b, turns, ReadAt(b, before, s.k));
      }
      forall k | 0 <= k < |w.requests| && Serve(b, turns).requests[k].Holding?
        ensures Serve(b, turns).requests[k].certs == CertsAt(b, turns, ReadAt(b, turns, k))
      {
        TakePool(b.lib, w, s, k);
        CertsAtPrefix(b, turns, ReadAt(b, before, k));
      }
    }
  }

  /**
   * PoolIsSnapshot read as a condition on the history: the pool holds exactly the table if and only
   * if the reload that swapped last read the certificates of today.
   */
  lemma PoolFreshExactly(b: Boot, turns: seq<Turn>)
    requires Starts(b)
    ensures Serve(b, turns).pool == CertsOf(b.lib, Serve(b, turns).table)
            <==> CertsAt(b, turns, PoolRead(b, turns)) == CertsAt(b, turns, |turns|)
  {
    hide CertsOf, Take;
    PoolIsSnapshot(b, turns);
    assert turns[..|turns|] == turns;
  }

  // Once all requests have finished ------------------------------------------------------------

  /** A certificate past its existence check was parsed from its own bytes. */
  predicate Sound(lib: Lib, p: Phase) {
    p.Adding? && p.i.creating.Some? ==> lib.parse(p.i.creating.value.raw) == p.i.creating
  }

  /** The request has changed the table and has not read it since. */
  predicate Owes(p: Phase) { p.Loading? || (p.Adding? && p.i.p.stats.imported > 0) }

  predicate SomeOwes(w: Server) { exists k :: 0 <= k < |w.requests| && Owes(w.requests[k]) }

  ghost predicate Healthy(lib: Lib, w: Server) {
    Loadable(lib, w.table) && forall k :: 0 <= k < |w.requests| ==> Sound(lib, w.requests[k])
  }

  /** What a scan or an insert does to a sound importer. */
  lemma AddStep(lib: Lib, w: Server, k: nat, i: Importer, now: int)
    requires Lawful(lib) && k < |w.requests| && w.requests[k] == Adding(i) && Healthy(lib, w)
    ensures var w' := Add(lib, w, k, i, now);
            && w'.requests == w.requests[k := w'.requests[k]]
            && Loadable(lib, w'.table) && Sound(lib, w'.requests[k])
            && (w'.table == w.table || Owes(w'.requests[k]))
            && (Owes(w.requests[k]) ==> Owes(w'.requests[k]))
  {
    if i.creating.Some? {
      assert Sound(lib, w.requests[k]);
      assert CertOf(lib, RowOf(lib, i.creating.value)) == i.creating;
    }
  }

  /** A turn without failure either keeps the table or leaves its request owing a read; a read pays. */
  lemma TakeOwes(lib: Lib, w: Server, s: Turn)
    requires Lawful(lib) && Healthy(lib, w) && !s.fault && s.k < |w.requests|
    ensures var w' := Take(lib, w, s);
            && w'.requests == w.requests[s.k := w'.requests[s.k]]
            && Healthy(lib, w')
            && (w'.table == w.table || Owes(w'.requests[s.k]))
            && (Owes(w.requests[s.k]) ==> Owes(w'.requests[s.k]) || Reads(lib, w, s))
            && (Reads(lib, w, s) ==> w'.table == w.table)
  {
    hide Add, CertsOf;
    if w.requests[s.k].Adding? { AddStep(lib, w, s.k, w.requests[s.k].i, s.now); }
  }

  lemma {:induction false} TableIsLastRead(b: Boot, turns: seq<Turn>)
    requires Starts(b) && Lawful(b.lib)
    requires forall i :: 0 <= i < |turns| ==> !turns[i].fault
    ensures var w := Serve(b, turns);
            && Healthy(b.lib, w)
            && (CertsOf(b.lib, w.table) == CertsAt(b, turns, LastRead(b, turns)) || SomeOwes(w))
    decreases |turns|
  {
    hide Take, CertsOf, Loadable, Owes, Sound;
    if turns == [] {
      assert turns[..0] == turns;
      BootSound(b);
    } else {
      var n := |turns| - 1;
      var before, s := turns[..n], turns[n];
      TableIsLastRead(b, before);
      var w, w' := Serve(b, before), Serve(b, turns);
      CertsAtPrefix(b, turns, LastRead(b, before));
      if s.k < |w.requests| {
        TakeOwes(b.lib, w, s);
        if j :| 0 <= j < |w.requests| && Owes(w.requests[j]) { assert j != s.k ==> w'.requests[j] == w.requests[j]; }
      } else {
        TakeNobody(b.lib, w, s);
      }
    }
  }

  lemma TakeNobody(lib: Lib, w: Server, s: Turn)
    requires s.k >= |w.requests|
    ensures Take(lib, w, s) == w
  {
  }

  lemma BootSound(b: Boot)
    requires Starts(b)
    ensures forall k :: 0 <= k < |b.requests| ==> Sound(b.lib, b.requests[k])
  {
    forall k | 0 <= k < |b.requests|
      ensures Sound(b.lib, b.requests[k])
    {
      assert Unstarted(b.requests[k]);
    }
  }

  /**
   * Once all requests have finished, none having failed, the pool equals the table if and only if
   * the reload that swapped last had read the same certificates as the reload that read last; so it
   * does whenever they are the same reload, that is, unless a slow reload was overtaken.
   */
  lemma QuiescentExactly(b: Boot, turns: seq<Turn>)
    requires Starts(b) && Lawful(b.lib)
    requires forall i :: 0 <= i < |turns| ==> !turns[i].fault
    requires forall k :: 0 <= k < |Serve(b, turns).requests| ==> Serve(b, turns).requests[k].Done?
    ensures Serve(b, turns).pool == CertsOf(b.lib, Serve(b, turns).table)
            <==> CertsAt(b, turns, PoolRead(b, turns)) == CertsAt(b, turns, LastRead(b, turns))
    ensures PoolRead(b, turns) == LastRead(b, turns)
            ==> Serve(b, turns).pool == CertsOf(b.lib, Serve(b, turns).table)
  {
    hide Take, CertsOf, Loadable;
    PoolIsSnapshot(b, turns);
    TableIsLastRead(b, turns);
  }

  /** Deleting the only row with a certificate removes it from the table's certificates. */
  lemma OnlyRow(lib: Lib, t: Table, fp: Fingerprint)
    requires Loadable(lib, t) && fp in t
    requires forall x :: x in t && CertOf(lib, t[x]) == CertOf(lib, t[fp]) ==> x == fp
    ensures CertOf(lib, t[fp]).Some?
    ensures CertOf(lib, t[fp]).value in CertsOf(lib, t) - CertsOf(lib, t - {fp})
  {
  }

  /**
   * It can fail: two deletes, each change, read, swap. The first is overtaken between its read and
   * its swap, and when both have finished the pool still holds the certificate the second deleted.
   */
  lemma SlowReloadLeavesStalePool(lib: Lib, t: Table, fp: Fingerprint, fp': Fingerprint)
    requires Loadable(lib, t) && fp in t && fp' in t && fp != fp'
    requires forall x :: x in t && CertOf(lib, t[x]) == CertOf(lib, t[fp']) ==> x == fp'
    ensures var b := Boot(lib, t, [Removing(fp), Removing(fp')]);
            var turns := [Turn(0, 0, false), Turn(0, 0, false), Turn(1, 0, false), Turn(1, 0, false),
                          Turn(1, 0, false), Turn(0, 0, false)];
            var w := Serve(b, turns);
            && w.requests == [Done, Done]
            && w.table == t - {fp, fp'}
            && CertOf(lib, t[fp']).value in w.pool - CertsOf(lib, w.table)
  {
    var b := Boot(lib, t, [Removing(fp), Removing(fp')]);
    var p, q := Turn(0, 0, false), Turn(1, 0, false);
    var u1, u2, u3 := [p], [p, p], [p, p, q];
    var u4, u5, u6 := u3 + [q], u3 + [q, q], u3 + [q, q, p];
    assert u6 == [p, p, q, q, q, p];
    assert u6[..5] == u5 && u5[..4] == u4 && u4[..3] == u3 && u3[..2] == u2 && u2[..1] == u1 && u1[..0] == [];
    var t1, t2 := t - {fp}, t - {fp} - {fp'};
    OnlyRow(lib, t1, fp');
    var c1 := CertsOf(lib, t1);
    assert Loadable(lib, t1) && Loadable(lib, t2);
    hide CertsOf, Loadable, CertOf;
    assert Serve(b, []) == Server(t, CertsOf(lib, t), b.requests);
    assert Serve(b, u1) == Server(t1, CertsOf(lib, t), [Loading, Removing(fp')]);
    assert Serve(b, u2) == Server(t1, CertsOf(lib, t), [Holding(c1), Removing(fp')]);
    assert Serve(b, u3) == Server(t2, CertsOf(lib, t), [Holding(c1), Loading]);
    assert Serve(b, u4) == Server(t2, CertsOf(lib, t), [Holding(c1), Holding(CertsOf(lib, t2))]);
    assert Serve(b, u5) == Server(t2, CertsOf(lib, t2), [Holding(c1), Done]);
    assert Serve(b, u6) == Server(t2, c1, [Done, Done]);
    assert t2 == t - {fp, fp'};
  }
}
