/**
 * The rendezvous server's sessions: tokens, the TO0 and TO1 nonce rows whose foreign key cascades,
 * and the periodic cleanup. Times are nanoseconds.
 */
module RvSessions {
  import opened Wrappers
  import B = BlobStore

  type Id = Bytes
  type Nonce = Bytes

  datatype Session = Session(protocol: nat, createdAt: int)

  datatype Error = InvalidSession | NotFound | Storage

  datatype Proto = TO0 | TO1

  datatype Tables = Tables(sessions: map<Id, Session>, nonces: map<(Proto, Id), Nonce>)

  // Statements ---------------------------------------------------------------------------------

  // SQLite enforces foreign keys per connection, and the server switches enforcement on for one
  // connection of its pool; `fk` says whether the connection of a statement enforces them.

  /** DELETE on sessions; an enforced foreign key cascades to both nonce tables. */
  function DeleteSessions(t: Tables, gone: set<Id>, fk: bool): Tables {
    Tables(t.sessions - gone, if fk then map k | k in t.nonces && k.1 !in gone :: t.nonces[k] else t.nonces)
  }

  /** Sessions created before the cutoff. */
  function Stale(t: Tables, cutoff: int): set<Id> { set id | id in t.sessions && t.sessions[id].createdAt < cutoff }

  /** INSERT or UPDATE of a nonce row; an enforced foreign key refuses a session that does not exist. */
  function SaveNonce(t: Tables, p: Proto, id: Id, nonce: Nonce, fk: bool): Tables {
    if fk && id !in t.sessions then t else t.(nonces := t.nonces[(p, id) := nonce])
  }

  class SessionStore {
    var tables: Tables

    constructor ()
      ensures tables == Tables(map[], map[])
    {
      tables := Tables(map[], map[]);
    }

    /** NewToken: a random identifier; the primary key refuses one in use. */
    method NewToken(id: Id, protocol: nat, now: int) returns (ok: bool)
      modifies this
      ensures ok == (id !in old(tables).sessions)
      ensures tables == if ok then old(tables).(sessions := old(tables).sessions[id := Session(protocol, now)])
                        else old(tables)
    {
      if id in tables.sessions {
        return false;
      }
      tables := tables.(sessions := tables.sessions[id := Session(protocol, now)]);
      return true;
    }

    /** InvalidateToken; the token is None when the context has none or it is not base64. */
    method InvalidateToken(token: Option<Id>, fk: bool) returns (r: Result<(), Error>)
      modifies this
      ensures token.None? ==> r == Err(InvalidSession) && tables == old(tables)
      ensures token.Some? ==>
                && tables == DeleteSessions(old(tables), {token.value}, fk)
                && r == if token.value in old(tables).sessions then Ok(()) else Err(NotFound)
    {
      if token.None? {
        return Err(InvalidSession);
      }
      var found := token.value in tables.sessions;
      tables := DeleteSessions(tables, {token.value}, fk);
      return if found then Ok(()) else Err(NotFound);
    }

    /** getSessionID: the check half of every nonce read and write. */
    method GetSessionId(token: Option<Id>) returns (r: Result<Id, Error>)
      ensures r == if token.Some? && token.value in tables.sessions then Ok(token.value) else Err(InvalidSession)
    {
      if token.None? || token.value !in tables.sessions {
        return Err(InvalidSession);
      }
      return Ok(token.value);
    }

    /** The save half of SetTO0SignNonce and SetTO1ProofNonce. */
    method Save(p: Proto, id: Id, nonce: Nonce, fk: bool) returns (ok: bool)
      modifies this
      ensures tables == SaveNonce(old(tables), p, id, nonce, fk)
      ensures ok <==> !fk || id in old(tables).sessions
    {
      ok := !fk || id in tables.sessions;
      if ok {
        tables := tables.(nonces := tables.nonces[(p, id) := nonce]);
      }
    }

    /** TO0SignNonce and TO1ProofNonce. */
    method ReadNonce(p: Proto, token: Option<Id>) returns (r: Result<Nonce, Error>)
      ensures r == if token.None? || token.value !in tables.sessions then Err(InvalidSession)
                   else if (p, token.value) in tables.nonces then Ok(tables.nonces[(p, token.value)])
                   else Err(NotFound)
    {
      var id := GetSessionId(token);
      if id.Err? {
        return Err(id.error);
      }
      if (p, id.value) !in tables.nonces {
        return Err(NotFound);
      }
      return Ok(tables.nonces[(p, id.value)]);
    }

    /** CleanupExpiredSessions: a session goes exactly if it was created before now - maxAge. */
    method CleanupExpiredSessions(maxAge: int, now: int, fk: bool) returns (deleted: nat)
      modifies this
      ensures forall id :: id in tables.sessions
                           <==> id in old(tables).sessions && old(tables).sessions[id].createdAt >= now - maxAge
      ensures forall id :: id in tables.sessions ==> tables.sessions[id] == old(tables).sessions[id]
      ensures tables == DeleteSessions(old(tables), Stale(old(tables), now - maxAge), fk)
      ensures deleted == |old(tables).sessions| - |tables.sessions|
    {
      var gone := set id | id in tables.sessions && tables.sessions[id].createdAt < now - maxAge;
      ghost var before := tables;
      assert gone == Stale(before, now - maxAge);
      tables := DeleteSessions(tables, gone, fk);
      assert before.sessions.Keys == gone + tables.sessions.Keys;
      deleted := |gone|;
    }
  }

  /** runCleanup: both tasks run even if one fails; sessions only with a positive maximum age. */
  method RunCleanup(blobs: B.BlobTable, store: SessionStore, maxAge: int, now: int, fk: bool,
                    blobsFail: bool, sessionsFail: bool)
    returns (deleted: nat, errors: nat)
    modifies blobs, store
    ensures blobs.rows == if blobsFail then old(blobs.rows) else B.Clean(old(blobs.rows), now)
    ensures store.tables == if maxAge <= 0 || sessionsFail then old(store.tables)
                            else DeleteSessions(old(store.tables), Stale(old(store.tables), now - maxAge), fk)
    ensures errors == (if blobsFail then 1 else 0) + (if maxAge > 0 && sessionsFail then 1 else 0)
    ensures deleted == |old(blobs.rows)| - |blobs.rows| + |old(store.tables).sessions| - |store.tables.sessions|
  {
    var blobCount, sessionCount := 0, 0;
    errors := 0;
    if blobsFail {
      errors := errors + 1;
    } else {
      blobCount := blobs.CleanupExpiredBlobs(now);
    }
    if maxAge > 0 {
      if sessionsFail {
        errors := errors + 1;
      } else {
        sessionCount := store.CleanupExpiredSessions(maxAge, now, fk);
      }
    }
    deleted := blobCount + sessionCount;
  }

  // Interleaved runs ---------------------------------------------------------------------------

  type Conn = nat

  /** Which connections of the pool enforce foreign keys. */
  type Pool = Conn -> bool

  /** Nonce writers are numbered; a writer that passed its check remembers the session it saw. */
  datatype Step =
    | New(at: int, id: Id, protocol: nat)
    | Invalidate(at: int, id: Id, conn: Conn)
    | Clean(at: int, maxAge: int, conn: Conn)
    | Check(at: int, writer: nat, id: Id)
    | Write(at: int, writer: nat, p: Proto, nonce: Nonce, conn: Conn)

  datatype World = World(tables: Tables, checked: map<nat, Id>)

  function Next(fk: Pool, w: World, s: Step): World {
    match s
    case New(at, id, protocol) =>
      if id in w.tables.sessions then w
      else w.(tables := w.tables.(sessions := w.tables.sessions[id := Session(protocol, at)]))
    case Invalidate(_, id, conn) => w.(tables := DeleteSessions(w.tables, {id}, fk(conn)))
    case Clean(at, maxAge, conn) =>
      w.(tables := DeleteSessions(w.tables, Stale(w.tables, at - maxAge), fk(conn)))
    case Check(_, writer, id) =>
      if id in w.tables.sessions then w.(checked := w.checked[writer := id]) else w
    case Write(_, writer, p, nonce, conn) =>
      if writer !in w.checked then w
      else World(SaveNonce(w.tables, p, w.checked[writer], nonce, fk(conn)), w.checked - {writer})
  }

  function Run(fk: Pool, steps: seq<Step>): World {
    if steps == [] then World(Tables(map[], map[]), map[])
    else Next(fk, Run(fk, steps[..|steps| - 1]), steps[|steps| - 1])
  }

  /** Every nonce row refers to a live session. */
  predicate Integrity(t: Tables) { forall k :: k in t.nonces ==> k.1 in t.sessions }

  predicate Monotone(steps: seq<Step>) {
    forall i, j :: 0 <= i <= j < |steps| ==> steps[i].at <= steps[j].at
  }

  /** Every session was created between the two times. */
  predicate CreatedBetween(t: Tables, lo: int, hi: int) {
    forall id :: id in t.sessions ==> lo <= t.sessions[id].createdAt <= hi
  }

  predicate HasNonce(t: Tables, ids: set<Id>) { exists k :: k in t.nonces && k.1 in ids }

  /** The step leaves a nonce without its session: on a connection without foreign keys, a delete of a
      session that has one, or a write whose session went after its check. */
  predicate Orphans(fk: Pool, w: World, s: Step) {
    match s
    case Invalidate(_, id, conn) => !fk(conn) && HasNonce(w.tables, {id})
    case Clean(at, maxAge, conn) => !fk(conn) && HasNonce(w.tables, Stale(w.tables, at - maxAge))
    case Write(_, writer, _, _, conn) => !fk(conn) && writer in w.checked && w.checked[writer] !in w.tables.sessions
    case _ => false
  }

  lemma IntegrityStep(fk: Pool, w: World, s: Step)
    requires Integrity(w.tables)
    ensures Integrity(Next(fk, w, s).tables) <==> !Orphans(fk, w, s)
  {
    var t, t' := w.tables, Next(fk, w, s).tables;
    if Orphans(fk, w, s) {
      if s.Write? {
        assert (s.p, w.checked[s.writer]) in t'.nonces;
      } else {
        var gone := if s.Invalidate? then {s.id} else Stale(t, s.at - s.maxAge);
        var k :| k in t.nonces && k.1 in gone;
        assert k in t'.nonces && k.1 !in t'.sessions;
      }
    } else if s.Clean? && !fk(s.conn) {
      forall k | k in t'.nonces
        ensures k.1 in t'.sessions
      {
        assert k.1 !in Stale(t, s.at - s.maxAge);
      }
    }
  }

  /** Integrity after every step of the run. */
  predicate KeptThroughout(fk: Pool, steps: seq<Step>) {
    Integrity(Run(fk, steps).tables) && (steps != [] ==> KeptThroughout(fk, steps[..|steps| - 1]))
  }

  predicate NoneOrphans(fk: Pool, steps: seq<Step>) {
    steps != [] ==>
      var before := steps[..|steps| - 1];
      NoneOrphans(fk, before) && !Orphans(fk, Run(fk, before), steps[|steps| - 1])
  }

  /** A run keeps every nonce with its session throughout if and only if none of its steps orphans one. */
  lemma {:induction false} NoOrphansExactly(fk: Pool, steps: seq<Step>)
    ensures KeptThroughout(fk, steps) <==> NoneOrphans(fk, steps)
    decreases |steps|
  {
    hide Orphans, Next;
    if steps != [] {
      var before := steps[..|steps| - 1];
      NoOrphansExactly(fk, before);
      if KeptThroughout(fk, before) { IntegrityStep(fk, Run(fk, before), steps[|steps| - 1]); }
    }
  }

  /** The nonce writes and session deletes of the run are enforced. */
  predicate Enforced(fk: Pool, steps: seq<Step>) {
    forall i :: 0 <= i < |steps| ==> steps[i].New? || steps[i].Check? || fk(steps[i].conn)
  }

  /**
   * Integrity: although a nonce is written in two steps, with cleanups and invalidations between,
   * no state has a nonce row without its session, if every write and delete is enforced.
   */
  lemma NoOrphanNonces(fk: Pool, steps: seq<Step>)
    requires Enforced(fk, steps)
    ensures Integrity(Run(fk, steps).tables)
  {
    EnforcedOrphansNone(fk, steps);
    NoOrphansExactly(fk, steps);
  }

  lemma {:induction false} EnforcedOrphansNone(fk: Pool, steps: seq<Step>)
    requires Enforced(fk, steps)
    ensures NoneOrphans(fk, steps)
    decreases |steps|
  {
    hide Run;
    if steps != [] { EnforcedOrphansNone(fk, steps[..|steps| - 1]); }
  }

  /** A delete on a connection without foreign keys leaves the session's nonce behind. */
  lemma UnenforcedDelete(fk: Pool, c: Conn, id: Id, p: Proto, nonce: Nonce)
    requires !fk(c)
    ensures var steps := [New(0, id, 0), Check(0, 0, id), Write(0, 0, p, nonce, c), Invalidate(0, id, c)];
            !Integrity(Run(fk, steps).tables)
  {
    var a, b, w, d := New(0, id, 0), Check(0, 0, id), Write(0, 0, p, nonce, c), Invalidate(0, id, c);
    RunFour(fk, a, b, w, d);
    var w3 := Next(fk, Next(fk, Next(fk, Run(fk, []), a), b), w);
    assert (p, id) in w3.tables.nonces;
    assert (p, id) in Next(fk, w3, d).tables.nonces;
  }

  /** The race: a session invalidated between check and save, and the save not enforced. */
  lemma UnenforcedWrite(fk: Pool, c: Conn, d: Conn, id: Id, p: Proto, nonce: Nonce)
    requires !fk(c) && fk(d)
    ensures var steps := [New(0, id, 0), Check(0, 0, id), Invalidate(0, id, d), Write(0, 0, p, nonce, c)];
            !Integrity(Run(fk, steps).tables)
  {
    var a, b, i, w := New(0, id, 0), Check(0, 0, id), Invalidate(0, id, d), Write(0, 0, p, nonce, c);
    RunFour(fk, a, b, i, w);
    var w3 := Next(fk, Next(fk, Next(fk, Run(fk, []), a), b), i);
    assert (p, id) in Next(fk, w3, w).tables.nonces;
  }

  lemma RunFour(fk: Pool, a: Step, b: Step, c: Step, d: Step)
    ensures Run(fk, [a, b, c, d]) == Next(fk, Next(fk, Next(fk, Next(fk, Run(fk, []), a), b), c), d)
  {
    hide Next;
    assert [a, b, c, d][..3] == [a, b, c] && [a, b, c][..2] == [a, b] && [a, b][..1] == [a] && [a][..0] == [];
    assert Run(fk, [a]) == Next(fk, Run(fk, []), a);
    assert Run(fk, [a, b]) == Next(fk, Run(fk, [a]), b);
    assert Run(fk, [a, b, c]) == Next(fk, Run(fk, [a, b]), c);
  }

  /** Every run keeps its nonces with their sessions if and only if every connection enforces foreign keys. */
  lemma IntegrityExactly(fk: Pool)
    ensures (forall steps :: Integrity(Run(fk, steps).tables)) <==> (forall c :: fk(c))
  {
    if forall c :: fk(c) {
      forall steps
        ensures Integrity(Run(fk, steps).tables)
      {
        NoOrphanNonces(fk, steps);
      }
    } else {
      var c :| !fk(c);
      UnenforcedDelete(fk, c, [], TO0, []);
    }
  }

  /** After a cleanup, every session was created no earlier than its cutoff. */
  lemma {:induction false} AgesBounded(fk: Pool, steps: seq<Step>, c: nat, lo: int)
    requires Monotone(steps) && c < |steps| && steps[c].Clean? && lo <= steps[c].at
    requires lo == steps[c].at - steps[c].maxAge
    ensures CreatedBetween(Run(fk, steps).tables, lo, steps[|steps| - 1].at)
    decreases |steps|
  {
    var n := |steps| - 1;
    var before := steps[..n];
    assert before == steps[..n];
    if c < n {
      AgesBounded(fk, before, c, lo);
      assert steps[c].at <= steps[n].at;
      assert steps[n - 1].at <= steps[n].at;
    } else {
      CreatedInPast(fk, before, steps[n].at);
    }
  }

  lemma {:induction false} CreatedInPast(fk: Pool, steps: seq<Step>, now: int)
    requires forall i :: 0 <= i < |steps| ==> steps[i].at <= now
    ensures forall id :: id in Run(fk, steps).tables.sessions ==> Run(fk, steps).tables.sessions[id].createdAt <= now
    decreases |steps|
  {
    if steps != [] {
      var n := |steps| - 1;
      assert steps[n].at <= now;
      CreatedInPast(fk, steps[..n], now);
    }
  }

  /**
   * Age: at time t after a cleanup that ran at c with a positive maximum age, no session is older
   * than maxAge + (t - c), whatever ran in between.
   */
  lemma SessionAgeBounded(fk: Pool, steps: seq<Step>, c: nat, t: int, id: Id)
    requires forall i, j :: 0 <= i < j < |steps| ==> steps[i].at <= steps[j].at
    requires c < |steps| && steps[c].Clean? && steps[c].maxAge > 0
    requires steps[|steps| - 1].at <= t && id in Run(fk, steps).tables.sessions
    ensures t - Run(fk, steps).tables.sessions[id].createdAt <= steps[c].maxAge + (t - steps[c].at)
  {
    AgesBounded(fk, steps, c, steps[c].at - steps[c].maxAge);
  }

  // What each step leaves ----------------------------------------------------------------------

  /** The nonce rows of a session, unchanged in both. */
  ghost predicate SameNonces(t: Tables, t': Tables, id: Id) {
    forall p: Proto :: ((p, id) in t.nonces <==> (p, id) in t'.nonces)
                       && ((p, id) in t.nonces ==> t.nonces[(p, id)] == t'.nonces[(p, id)])
  }

  ghost predicate NoNonces(t: Tables, id: Id) { forall p: Proto :: (p, id) !in t.nonces }

  /**
   * A cleanup at `at` keeps a session exactly if it was created at `at` minus the maximum age or
   * later, and keeps its nonces with it; of a session that goes the nonces go too, unless the
   * connection does not enforce foreign keys.
   */
  lemma CleanupExactly(fk: Pool, w: World, at: int, maxAge: int, conn: Conn, id: Id)
    requires id in w.tables.sessions
    ensures var t, t' := w.tables, Next(fk, w, Clean(at, maxAge, conn)).tables;
            if t.sessions[id].createdAt >= at - maxAge
            then id in t'.sessions && t'.sessions[id] == t.sessions[id] && SameNonces(t, t', id)
            else id !in t'.sessions && if fk(conn) then NoNonces(t', id) else SameNonces(t, t', id)
  {
    var t := w.tables;
    assert id in Stale(t, at - maxAge) <==> t.sessions[id].createdAt < at - maxAge;
  }

  /** An invalidation takes its session, and of the others neither the session nor a nonce. */
  lemma InvalidateExactly(fk: Pool, w: World, at: int, id: Id, conn: Conn, other: Id)
    ensures var t, t' := w.tables, Next(fk, w, Invalidate(at, id, conn)).tables;
            && id !in t'.sessions
            && (if fk(conn) then NoNonces(t', id) else SameNonces(t, t', id))
            && (other != id ==> SameNonces(t, t', other) && (other in t'.sessions <==> other in t.sessions)
                                && (other in t.sessions ==> t'.sessions[other] == t.sessions[other]))
  {
  }

  /** A new token gets its own creation time, and does not replace a session in use. */
  lemma NewExactly(fk: Pool, w: World, at: int, id: Id, protocol: nat)
    ensures var w' := Next(fk, w, New(at, id, protocol));
            && id in w'.tables.sessions && w'.tables.nonces == w.tables.nonces && w'.checked == w.checked
            && w'.tables.sessions[id] == (if id in w.tables.sessions then w.tables.sessions[id]
                                          else Session(protocol, at))
            && forall x :: x != id ==> (x in w'.tables.sessions <==> x in w.tables.sessions)
                                       && (x in w.tables.sessions ==> w'.tables.sessions[x] == w.tables.sessions[x])
  {
  }

  /**
   * A nonce write goes to the session its writer had checked. It is stored if that session still
   * exists, or if the connection does not enforce foreign keys; the writer is done, nothing else changes.
   */
  lemma WriteExactly(fk: Pool, w: World, at: int, writer: nat, p: Proto, nonce: Nonce, conn: Conn, k: (Proto, Id))
    ensures var w' := Next(fk, w, Write(at, writer, p, nonce, conn));
            && w'.tables.sessions == w.tables.sessions
            && (forall x :: x in w'.checked <==> x in w.checked && x != writer)
            && (forall x :: x in w'.checked ==> w'.checked[x] == w.checked[x])
            && if writer in w.checked && k == (p, w.checked[writer]) && (k.1 in w.tables.sessions || !fk(conn))
               then k in w'.tables.nonces && w'.tables.nonces[k] == nonce
               else (k in w'.tables.nonces <==> k in w.tables.nonces)
                    && (k in w.tables.nonces ==> w'.tables.nonces[k] == w.tables.nonces[k])
    ensures forall id :: Next(fk, w, Check(at, writer, id)).tables == w.tables
                         && (writer in Next(fk, w, Check(at, writer, id)).checked
                             <==> id in w.tables.sessions || writer in w.checked)
                         && (id in w.tables.sessions ==> Next(fk, w, Check(at, writer, id)).checked[writer] == id)
  {
  }

  /** The step is no save of this nonce, and neither invalidates nor cleans up its session. */
  predicate Spares(w: World, s: Step, p: Proto, id: Id) {
    match s
    case Invalidate(_, x, _) => x != id
    case Clean(at, maxAge, _) => id in w.tables.sessions ==> w.tables.sessions[id].createdAt >= at - maxAge
    case Write(_, writer, q, _, _) => !(q == p && writer in w.checked && w.checked[writer] == id)
    case _ => true
  }

  ghost predicate AllSpare(fk: Pool, before: seq<Step>, later: seq<Step>, p: Proto, id: Id) {
    forall i :: 0 <= i < |later| ==> Spares(Run(fk, before + later[..i]), later[i], p, id)
  }

  /** A step spares a nonce exactly if the session is there after it and the step does not write it. */
  lemma SparedNonce(fk: Pool, w: World, s: Step, p: Proto, id: Id)
    requires id in w.tables.sessions && (p, id) in w.tables.nonces
    ensures Spares(w, s, p, id)
            <==> id in Next(fk, w, s).tables.sessions
                 && !(s.Write? && s.p == p && s.writer in w.checked && w.checked[s.writer] == id)
    ensures var t, t' := w.tables, Next(fk, w, s).tables;
            Spares(w, s, p, id) ==> (p, id) in t'.nonces && t'.nonces[(p, id)] == t.nonces[(p, id)]
  {
  }

  /**
   * A nonce saved under a live session is read back unchanged through any run that neither saves it
   * again, nor invalidates its session, nor reaches it with a cleanup whose cutoff is later than its
   * creation: whatever other sessions, writers and cleanups do.
   */
  lemma {:induction false} NonceKept(fk: Pool, before: seq<Step>, later: seq<Step>, p: Proto, id: Id)
    requires var t := Run(fk, before).tables; id in t.sessions && (p, id) in t.nonces
    requires AllSpare(fk, before, later, p, id)
    ensures var t, t' := Run(fk, before).tables, Run(fk, before + later).tables;
            id in t'.sessions && (p, id) in t'.nonces && t'.nonces[(p, id)] == t.nonces[(p, id)]
    decreases |later|
  {
    hide Next, Spares;
    if later == [] {
      assert before + later == before;
    } else {
      var n := |later| - 1;
      assert AllSpare(fk, before, later[..n], p, id) by {
        assert forall i :: 0 <= i < n ==> later[..n][..i] == later[..i] && later[..n][i] == later[i];
      }
      NonceKept(fk, before, later[..n], p, id);
      assert (before + later)[..|before + later| - 1] == before + later[..n];
      assert Spares(Run(fk, before + later[..n]), later[n], p, id);
      SparedNonce(fk, Run(fk, before + later[..n]), later[n], p, id);
    }
  }
}
