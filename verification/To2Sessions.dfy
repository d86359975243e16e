/**
 * The owner's TO2 session state: one row per session in each of three tables, written column by
 * column under a token. Values are the marshalled bytes of a column.
 */
module To2Sessions {
  import opened Wrappers

  type Id = Bytes
  type Value = Bytes

  datatype Field =
    | Guid | RvInfo | ProveDevice | SetupDevice | Mtu | Devmod
    | ReplacementGuid | ReplacementHmac
    | XSession

  datatype Table = Sessions2 | Replacements | KeyExchanges

  datatype Error = InvalidSession | NotFound | Undecodable | Storage

  function TableOf(f: Field): Table {
    match f
    case ReplacementGuid => Replacements
    case ReplacementHmac => Replacements
    case XSession => KeyExchanges
    case _ => Sessions2
  }

  /** SetGUID and SetReplacementGUID create the row if it is missing, SetXSession upserts it. */
  predicate Creates(f: Field) { f == Guid || f == ReplacementGuid || f == XSession }

  type Row = map<Field, Value>

  datatype Tables = Tables(live: set<Id>, rows: map<(Table, Id), Row>)

  const EMPTY := Tables({}, map[])

  /** What the Devmod getter returns for columns that were never written. */
  const NO_DEVMOD: Value := []

  /** What a getter returns for a column never written: an absent HMAC does not unmarshal. */
  function Unwritten(f: Field): Result<Value, Error> {
    if f == Devmod then Ok(NO_DEVMOD) else if f == ReplacementHmac then Err(Undecodable) else Err(NotFound)
  }

  /** A setter under a live session: an UPDATE that finds no row changes nothing and reports nothing. */
  function Write(t: Tables, id: Id, f: Field, v: Value): Tables {
    var key := (TableOf(f), id);
    if key in t.rows then t.(rows := t.rows[key := t.rows[key][f := v]])
    else if Creates(f) then t.(rows := t.rows[key := map[f := v]])
    else t
  }

  /** The row read of a getter, after its session check. */
  function Fetch(t: Tables, id: Id, f: Field): Result<Value, Error> {
    var key := (TableOf(f), id);
    if key !in t.rows then Err(NotFound)
    else if f in t.rows[key] then Ok(t.rows[key][f])
    else Unwritten(f)
  }

  function Read(t: Tables, id: Id, f: Field): Result<Value, Error> {
    if id !in t.live then Err(InvalidSession) else Fetch(t, id, f)
  }

  class To2Store {
    var tables: Tables

    constructor ()
      ensures tables == EMPTY
    {
      tables := EMPTY;
    }

    method NewToken(id: Id) returns (ok: bool)
      modifies this
      ensures ok == (id !in old(tables).live)
      ensures tables == old(tables).(live := old(tables).live + {id})
    {
      ok := id !in tables.live;
      tables := tables.(live := tables.live + {id});
    }

    /** InvalidateToken deletes the session row only; the rows that refer to it stay. The token is None
        when the context has none or it is not base64. */
    method InvalidateToken(token: Option<Id>) returns (r: Result<(), Error>)
      modifies this
      ensures token.None? ==> r == Err(InvalidSession) && tables == old(tables)
      ensures token.Some? ==>
                && tables == old(tables).(live := old(tables).live - {token.value})
                && r == if token.value in old(tables).live then Ok(()) else Err(NotFound)
    {
      if token.None? {
        return Err(InvalidSession);
      }
      r := if token.value in tables.live then Ok(()) else Err(NotFound);
      tables := tables.(live := tables.live - {token.value});
    }

    /** getSessionID: the check half of every getter and setter. */
    method GetSessionId(token: Option<Id>) returns (r: Result<Id, Error>)
      ensures r == if token.Some? && token.value in tables.live then Ok(token.value) else Err(InvalidSession)
    {
      if token.None? || token.value !in tables.live {
        return Err(InvalidSession);
      }
      return Ok(token.value);
    }

    /** The statement half of a setter, which no longer looks at the session. */
    method Save(id: Id, f: Field, v: Value, fault: bool) returns (r: Result<(), Error>)
      modifies this
      ensures r == if fault then Err(Storage) else Ok(())
      ensures tables == if fault then old(tables) else Write(old(tables), id, f, v)
    {
      if fault {
        return Err(Storage);
      }
      var key := (TableOf(f), id);
      if key in tables.rows {
        tables := tables.(rows := tables.rows[key := tables.rows[key][f := v]]);
      } else if Creates(f) {
        tables := tables.(rows := tables.rows[key := map[f := v]]);
      }
      return Ok(());
    }

    /** A setter that nothing interrupts. */
    method Set(token: Option<Id>, f: Field, v: Value, fault: bool) returns (r: Result<(), Error>)
      modifies this
      ensures r == if token.None? || token.value !in old(tables).live then Err(InvalidSession)
                   else if fault then Err(Storage)
                   else Ok(())
      ensures tables == if r.Ok? then Write(old(tables), token.value, f, v) else old(tables)
    {
      var session := GetSessionId(token);
      if session.Err? {
        return Err(session.error);
      }
      r := Save(session.value, f, v, fault);
    }

    /** A getter that nothing interrupts. */
    method Get(token: Option<Id>, f: Field) returns (r: Result<Value, Error>)
      ensures r == if token.None? then Err(InvalidSession) else Read(tables, token.value, f)
    {
      var session := GetSessionId(token);
      if session.Err? {
        return Err(session.error);
      }
      var key := (TableOf(f), session.value);
      if key !in tables.rows {
        return Err(NotFound);
      }
      if f in tables.rows[key] {
        return Ok(tables.rows[key][f]);
      }
      if f == Devmod {
        return Ok(NO_DEVMOD);
      }
      return if f == ReplacementHmac then Err(Undecodable) else Err(NotFound);
    }
  }

  // Runs ---------------------------------------------------------------------------------------

  /** Setters are numbered within their session; checks and saves of all of them interleave. */
  datatype Step =
    | New(id: Id)
    | Invalidate(id: Id)
    | Check(id: Id, n: nat)
    | Save(id: Id, n: nat, f: Field, v: Value)

  /** `passed` are the setters past their check that have not saved yet. */
  datatype World = World(tables: Tables, passed: set<(Id, nat)>)

  function Next(w: World, s: Step): World {
    match s
    case New(id) => w.(tables := w.tables.(live := w.tables.live + {id}))
    case Invalidate(id) => w.(tables := w.tables.(live := w.tables.live - {id}))
    case Check(id, n) => w.(passed := if id in w.tables.live then w.passed + {(id, n)} else w.passed - {(id, n)})
    case Save(id, n, f, v) =>
      if (id, n) in w.passed then World(Write(w.tables, id, f, v), w.passed - {(id, n)}) else w
  }

  function RunFrom(w: World, steps: seq<Step>): World {
    if steps == [] then w else Next(RunFrom(w, steps[..|steps| - 1]), steps[|steps| - 1])
  }

  function Run(steps: seq<Step>): World { RunFrom(World(EMPTY, {}), steps) }

  // The history as specification ---------------------------------------------------------------

  /** The session was opened and not invalidated since. */
  predicate Live(steps: seq<Step>, id: Id) {
    steps != []
    && (var last := steps[|steps| - 1];
        if last == New(id) then true
        else if last == Invalidate(id) then false
        else Live(steps[..|steps| - 1], id))
  }

  /** Setter n of the session checked it while it was live, and has not saved since. */
  predicate Passed(steps: seq<Step>, id: Id, n: nat) {
    steps != []
    && (var last, before := steps[|steps| - 1], steps[..|steps| - 1];
        if last == Check(id, n) then Live(before, id)
        else if last.Save? && last.id == id && last.n == n then false
        else Passed(before, id, n))
  }

  /** The last step is a save of the session by a setter that had passed its check. */
  predicate Saves(steps: seq<Step>, id: Id)
    requires steps != []
  {
    var last := steps[|steps| - 1];
    last.Save? && last.id == id && Passed(steps[..|steps| - 1], id, last.n)
  }

  /** Some setter that creates the session's row in this table has saved. */
  predicate Created(steps: seq<Step>, table: Table, id: Id) {
    steps != []
    && (var last := steps[|steps| - 1];
        || (Saves(steps, id) && Creates(last.f) && TableOf(last.f) == table)
        || Created(steps[..|steps| - 1], table, id))
  }

  /** The last value saved to the field once its row existed. */
  function LastWritten(steps: seq<Step>, id: Id, f: Field): Option<Value> {
    if steps == [] then None
    else
      var last, before := steps[|steps| - 1], steps[..|steps| - 1];
      if Saves(steps, id) && last.f == f && (Creates(f) || Created(before, TableOf(f), id)) then Some(last.v)
      else LastWritten(before, id, f)
  }

  function Column(t: Tables, id: Id, f: Field): Option<Value> {
    var key := (TableOf(f), id);
    if key in t.rows && f in t.rows[key] then Some(t.rows[key][f]) else None
  }

  lemma {:induction false} LiveFollows(steps: seq<Step>, id: Id)
    ensures id in Run(steps).tables.live <==> Live(steps, id)
    decreases |steps|
  {
    hide Write;
    if steps != [] {
      LiveFollows(steps[..|steps| - 1], id);
      WriteKeepsLive(Run(steps[..|steps| - 1]).tables, steps[|steps| - 1]);
    }
  }

  lemma WriteKeepsLive(t: Tables, s: Step)
    ensures s.Save? ==> Write(t, s.id, s.f, s.v).live == t.live
  {
  }

  lemma {:induction false} PassedFollows(steps: seq<Step>, id: Id, n: nat)
    ensures (id, n) in Run(steps).passed <==> Passed(steps, id, n)
    decreases |steps|
  {
    hide Live, Write;
    if steps != [] {
      LiveFollows(steps[..|steps| - 1], id);
      PassedFollows(steps[..|steps| - 1], id, n);
    }
  }

  /** What a write does to one row, and to one column. */
  lemma WriteRow(t: Tables, id: Id, f: Field, v: Value, id': Id, f': Field)
    ensures var t', key := Write(t, id, f, v), (TableOf(f'), id');
            && (key in t'.rows <==> key in t.rows || (id == id' && TableOf(f) == TableOf(f') && Creates(f)))
            && Column(t', id', f') == (if id == id' && f == f' && (Creates(f) || key in t.rows) then Some(v)
                                       else Column(t, id', f'))
  {
  }

  lemma {:induction false} StoreFollowsHistory(steps: seq<Step>, id: Id, f: Field)
    ensures (TableOf(f), id) in Run(steps).tables.rows <==> Created(steps, TableOf(f), id)
    ensures Column(Run(steps).tables, id, f) == LastWritten(steps, id, f)
    decreases |steps|
  {
    hide Live, Passed, Write, Column;
    if steps == [] {
      EmptyColumn(id, f);
    } else {
      var before, last := steps[..|steps| - 1], steps[|steps| - 1];
      StoreFollowsHistory(before, id, f);
      var w := Run(before);
      if last.Save? {
        PassedFollows(before, last.id, last.n);
        WriteRow(w.tables, last.id, last.f, last.v, id, f);
      } else {
        SameColumn(w.tables, Next(w, last).tables, id, f);
      }
    }
  }

  lemma EmptyColumn(id: Id, f: Field)
    ensures Column(EMPTY, id, f) == None
  {
  }

  lemma SameColumn(t: Tables, t': Tables, id: Id, f: Field)
    requires t.rows == t'.rows
    ensures Column(t, id, f) == Column(t', id, f)
  {
  }

  /** What a row read returns after a history. */
  function Expected(steps: seq<Step>, id: Id, f: Field): Result<Value, Error> {
    if !Created(steps, TableOf(f), id) then Err(NotFound)
    else match LastWritten(steps, id, f) case Some(v) => Ok(v) case None => Unwritten(f)
  }

  /**
   * The store is a register file over its history: in any interleaving a session check passes exactly
   * while the session is live, and a row read returns not found until the creating setter of its
   * table has saved, and from then on the last value saved since.
   */
  lemma ReadsLastWrite(steps: seq<Step>, id: Id, f: Field)
    ensures Fetch(Run(steps).tables, id, f) == Expected(steps, id, f)
    ensures Read(Run(steps).tables, id, f) == if Live(steps, id) then Expected(steps, id, f) else Err(InvalidSession)
  {
    hide Run, LastWritten, Created;
    LiveFollows(steps, id);
    StoreFollowsHistory(steps, id, f);
  }

  /** A step of another session, or a save of another field, does not change what a live read returns. */
  lemma OtherStepsUnseen(w: World, s: Step, id: Id, f: Field)
    requires id in w.tables.live && Column(w.tables, id, f).Some?
    requires s.id == id ==> s.Check? || (s.Save? && s.f != f)
    ensures id in Next(w, s).tables.live && Column(Next(w, s).tables, id, f) == Column(w.tables, id, f)
  {
    if s.Save? { WriteRow(w.tables, s.id, s.f, s.v, id, f); }
  }

  /** After SetGUID (for the HMAC: after SetReplacementGUID), a save is read back until the next one. */
  lemma {:induction false} WriteReadBack(steps: seq<Step>, id: Id, n: nat, f: Field, v: Value, later: seq<Step>)
    requires Live(steps, id) && Passed(steps, id, n) && (Creates(f) || Created(steps, TableOf(f), id))
    requires forall i :: 0 <= i < |later| && later[i].id == id ==> later[i].Check? || (later[i].Save? && later[i].f != f)
    ensures var t := Run(steps + [Save(id, n, f, v)] + later).tables;
            id in t.live && Column(t, id, f) == Some(v) && Read(t, id, f) == Ok(v)
    decreases |later|
  {
    hide Next, Live, Passed, Created;
    var all := steps + [Save(id, n, f, v)] + later;
    if later == [] {
      assert all[..|all| - 1] == steps && all[|all| - 1] == Save(id, n, f, v);
      LiveFollows(steps, id);
      PassedFollows(steps, id, n);
      StoreFollowsHistory(steps, id, f);
      SaveStores(Run(steps), id, n, f, v);
    } else {
      var m := |later| - 1;
      WriteReadBack(steps, id, n, f, v, later[..m]);
      assert all[..|all| - 1] == steps + [Save(id, n, f, v)] + later[..m];
      assert all[|all| - 1] == later[m];
      OtherStepsUnseen(Run(all[..|all| - 1]), later[m], id, f);
    }
  }

  lemma SaveStores(w: World, id: Id, n: nat, f: Field, v: Value)
    requires (id, n) in w.passed && (Creates(f) || (TableOf(f), id) in w.tables.rows)
    ensures var t := Next(w, Save(id, n, f, v)).tables; t.live == w.tables.live && Column(t, id, f) == Some(v)
  {
    WriteRow(w.tables, id, f, v, id, f);
  }

  /** A save before the creating setter is accepted and lost. */
  lemma EarlyWriteLost(steps: seq<Step>, id: Id, n: nat, f: Field, v: Value)
    requires Passed(steps, id, n) && !Creates(f) && !Created(steps, TableOf(f), id)
    ensures Run(steps + [Save(id, n, f, v)]).tables == Run(steps).tables
  {
    var all := steps + [Save(id, n, f, v)];
    assert all[..|all| - 1] == steps;
    StoreFollowsHistory(steps, id, f);
  }

  // Field by field -----------------------------------------------------------------------------

  /** Some setter of this field that had passed its check has saved. */
  predicate Stored(steps: seq<Step>, id: Id, f: Field) {
    steps != []
    && ((Saves(steps, id) && steps[|steps| - 1].f == f) || Stored(steps[..|steps| - 1], id, f))
  }

  /** SetGUID opens the row of the protocol fields, SetReplacementGUID that of the HMAC, SetXSession its own. */
  lemma {:induction false} OpenedBy(steps: seq<Step>, id: Id, f: Field)
    ensures f in {Guid, RvInfo, ProveDevice, SetupDevice, Mtu, Devmod} ==>
              (Created(steps, TableOf(f), id) <==> Stored(steps, id, Guid))
    ensures f in {ReplacementGuid, ReplacementHmac} ==>
              (Created(steps, TableOf(f), id) <==> Stored(steps, id, ReplacementGuid))
    ensures f == XSession ==> (Created(steps, TableOf(f), id) <==> Stored(steps, id, XSession))
    decreases |steps|
  {
    hide Saves;
    if steps != [] { OpenedBy(steps[..|steps| - 1], id, f); }
  }

  lemma {:induction false} WrittenIsStored(steps: seq<Step>, id: Id, f: Field)
    ensures LastWritten(steps, id, f).Some? ==> Stored(steps, id, f)
    decreases |steps|
  {
    hide Saves, Created;
    if steps != [] { WrittenIsStored(steps[..|steps| - 1], id, f); }
  }

  /**
   * Until its row is opened a field is not found, whatever else was saved: the protocol fields until
   * the GUID is saved, the replacement GUID and HMAC until the replacement GUID is, and the key
   * exchange until it is itself. Once open, a field that was never saved is not found, except that the
   * device description reads as empty and the missing HMAC does not unmarshal.
   */
  lemma UnsavedReads(steps: seq<Step>, id: Id, f: Field)
    requires Live(steps, id) && !Stored(steps, id, f)
    ensures Read(Run(steps).tables, id, f)
            == if f == Devmod && Stored(steps, id, Guid) then Ok([])
               else if f == ReplacementHmac && Stored(steps, id, ReplacementGuid) then Err(Undecodable)
               else Err(NotFound)
  {
    hide Run, LastWritten, Created, Live, Stored;
    ReadsLastWrite(steps, id, f);
    OpenedBy(steps, id, f);
    WrittenIsStored(steps, id, f);
  }

  lemma UnopenedReads(steps: seq<Step>, id: Id)
    requires Live(steps, id)
    ensures !Stored(steps, id, Guid) ==>
              forall f :: f in {Guid, RvInfo, ProveDevice, SetupDevice, Mtu, Devmod} ==>
                Read(Run(steps).tables, id, f) == Err(NotFound)
    ensures !Stored(steps, id, ReplacementGuid) ==>
              Read(Run(steps).tables, id, ReplacementGuid) == Err(NotFound)
              && Read(Run(steps).tables, id, ReplacementHmac) == Err(NotFound)
    ensures !Stored(steps, id, XSession) ==> Read(Run(steps).tables, id, XSession) == Err(NotFound)
  {
    hide Run, LastWritten, Created, Live, Stored;
    forall f: Field
      ensures !Created(steps, TableOf(f), id) ==> Read(Run(steps).tables, id, f) == Err(NotFound)
    {
      ReadsLastWrite(steps, id, f);
    }
    forall f: Field
      ensures f in {Guid, RvInfo, ProveDevice, SetupDevice, Mtu, Devmod} ==>
                (Created(steps, TableOf(f), id) <==> Stored(steps, id, Guid))
    {
      OpenedBy(steps, id, f);
    }
    OpenedBy(steps, id, ReplacementGuid);
    OpenedBy(steps, id, ReplacementHmac);
    OpenedBy(steps, id, XSession);
  }

  /**
   * A save by a setter that passed its check is read back at once: of the GUID, the replacement GUID
   * and the key exchange always, of the other protocol fields if and only if the GUID was saved
   * before, and of the HMAC if and only if the replacement GUID was; otherwise it changes nothing.
   */
  lemma SaveReadBack(steps: seq<Step>, id: Id, n: nat, f: Field, v: Value)
    requires Live(steps, id) && Passed(steps, id, n)
    ensures var t' := Run(steps + [Save(id, n, f, v)]).tables;
            if || f in {Guid, ReplacementGuid, XSession}
               || (f in {RvInfo, ProveDevice, SetupDevice, Mtu, Devmod} && Stored(steps, id, Guid))
               || (f == ReplacementHmac && Stored(steps, id, ReplacementGuid))
            then Read(t', id, f) == Ok(v)
            else t' == Run(steps).tables
  {
    hide Run, Created, Live, Passed, Stored;
    OpenedBy(steps, id, f);
    if Creates(f) || Created(steps, TableOf(f), id) {
      WriteReadBack(steps, id, n, f, v, []);
      assert steps + [Save(id, n, f, v)] + [] == steps + [Save(id, n, f, v)];
    } else {
      EarlyWriteLost(steps, id, n, f, v);
    }
  }

  // Isolation ----------------------------------------------------------------------------------

  function StepsOf(steps: seq<Step>, id: Id): seq<Step> {
    if steps == [] then []
    else
      var last := steps[|steps| - 1];
      StepsOf(steps[..|steps| - 1], id) + if last.id == id then [last] else []
  }

  lemma OwnSteps(steps: seq<Step>, id: Id)
    requires steps != []
    ensures var before, last := steps[..|steps| - 1], steps[|steps| - 1];
            var own := StepsOf(before, id);
            if last.id == id then StepsOf(steps, id) == own + [last] && (own + [last])[..|own|] == own
            else StepsOf(steps, id) == own
  {
  }

  lemma {:induction false} SetterIsolated(steps: seq<Step>, id: Id, n: nat)
    ensures Live(steps, id) == Live(StepsOf(steps, id), id)
    ensures Passed(steps, id, n) == Passed(StepsOf(steps, id), id, n)
    decreases |steps|
  {
    hide StepsOf;
    if steps == [] {
      NoSteps(id);
    } else {
      SetterIsolated(steps[..|steps| - 1], id, n);
      OwnSteps(steps, id);
    }
  }

  lemma NoSteps(id: Id)
    ensures StepsOf([], id) == []
  {
  }

  /** The session's own last step saves in its own history exactly when it saves in the whole one. */
  lemma SavesIsolated(steps: seq<Step>, id: Id)
    requires steps != [] && steps[|steps| - 1].id == id
    ensures var own := StepsOf(steps, id);
            && own != [] && own[|own| - 1] == steps[|steps| - 1]
            && own[..|own| - 1] == StepsOf(steps[..|steps| - 1], id)
            && Saves(own, id) == Saves(steps, id)
  {
    hide StepsOf, Passed;
    OwnSteps(steps, id);
    var last := steps[|steps| - 1];
    if last.Save? { SetterIsolated(steps[..|steps| - 1], id, last.n); }
  }

  lemma {:induction false} HistoryIsolated(steps: seq<Step>, id: Id, f: Field)
    ensures Created(steps, TableOf(f), id) == Created(StepsOf(steps, id), TableOf(f), id)
    ensures LastWritten(steps, id, f) == LastWritten(StepsOf(steps, id), id, f)
    decreases |steps|
  {
    hide StepsOf, Passed;
    if steps == [] {
      NoSteps(id);
    } else {
      HistoryIsolated(steps[..|steps| - 1], id, f);
      if steps[|steps| - 1].id == id {
        hide Saves;
        SavesIsolated(steps, id);
      } else {
        OwnSteps(steps, id);
      }
    }
  }

  /** No session sees another: every read depends only on the steps under its own token. */
  lemma SessionsIsolated(steps: seq<Step>, id: Id, f: Field)
    ensures Read(Run(steps).tables, id, f) == Read(Run(StepsOf(steps, id)).tables, id, f)
  {
    HistoryIsolated(steps, id, f);
    SetterIsolated(steps, id, 0);
    ReadsLastWrite(steps, id, f);
    ReadsLastWrite(StepsOf(steps, id), id, f);
  }

  // Invalidation -------------------------------------------------------------------------------

  predicate NeverOpened(steps: seq<Step>, id: Id) { New(id) !in steps }

  /** The session's rows are the same in both. */
  ghost predicate SameRows(t: Tables, t': Tables, id: Id) {
    forall table: Table :: ((table, id) in t.rows <==> (table, id) in t'.rows)
                           && ((table, id) in t.rows ==> t.rows[(table, id)] == t'.rows[(table, id)])
  }

  /** A session that is not live stays so, and without a setter past its check its rows stay too. */
  lemma DeadStep(w: World, s: Step, id: Id)
    requires id !in w.tables.live && s != New(id)
    ensures id !in Next(w, s).tables.live
    ensures (forall n :: (id, n) !in w.passed) ==>
              SameRows(w.tables, Next(w, s).tables, id) && forall n :: (id, n) !in Next(w, s).passed
  {
    if s.Save? { assert s.id != id ==> forall table :: (TableOf(s.f), s.id) != (table, id); }
  }

  lemma {:induction false} DeadRun(w: World, steps: seq<Step>, id: Id)
    requires id !in w.tables.live && NeverOpened(steps, id)
    ensures id !in RunFrom(w, steps).tables.live
    ensures (forall n :: (id, n) !in w.passed) ==>
              SameRows(w.tables, RunFrom(w, steps).tables, id) && forall n :: (id, n) !in RunFrom(w, steps).passed
    decreases |steps|
  {
    hide Next;
    if steps != [] {
      var m := |steps| - 1;
      assert forall x :: x in steps[..m] ==> x in steps;
      DeadRun(w, steps[..m], id);
      DeadStep(RunFrom(w, steps[..m]), steps[m], id);
    }
  }

  lemma {:induction false} RunSplit(w: World, a: seq<Step>, b: seq<Step>)
    ensures RunFrom(w, a + b) == RunFrom(RunFrom(w, a), b)
    decreases |b|
  {
    if b == [] {
      assert a + b == a;
    } else {
      var n := |b| - 1;
      RunSplit(w, a, b[..n]);
      assert (a + b)[..|a + b| - 1] == a + b[..n];
    }
  }

  /** Once invalidated, every later access of the session reports it invalid, for good. */
  lemma InvalidForGood(steps: seq<Step>, id: Id, later: seq<Step>, f: Field)
    requires NeverOpened(later, id)
    ensures Read(Run(steps + [Invalidate(id)] + later).tables, id, f) == Err(InvalidSession)
  {
    var before := steps + [Invalidate(id)];
    assert before[..|steps|] == steps;
    RunSplit(World(EMPTY, {}), before, later);
    DeadRun(Run(before), later, id);
  }

  /**
   * The rows of an invalidated session remain, unchanged in every run that follows, if and only if
   * no setter had passed its check before: one that had can still write.
   */
  lemma DeadRowsExactly(w: World, id: Id)
    requires id !in w.tables.live
    ensures (forall later :: NeverOpened(later, id) ==> SameRows(w.tables, RunFrom(w, later).tables, id))
            <==> (forall n :: (id, n) !in w.passed)
  {
    if forall n :: (id, n) !in w.passed {
      forall later | NeverOpened(later, id)
        ensures SameRows(w.tables, RunFrom(w, later).tables, id)
      {
        DeadRun(w, later, id);
      }
    } else {
      var n :| (id, n) in w.passed;
      var v := if Column(w.tables, id, Guid) == Some([0]) then [1] else [0];
      var s := Save(id, n, Guid, v);
      assert [s][..0] == [] && RunFrom(w, [s]) == Next(w, s);
      WriteRow(w.tables, id, Guid, v, id, Guid);
      assert !SameRows(w.tables, Next(w, s).tables, id) by {
        assert Column(Next(w, s).tables, id, Guid) == Some(v);
        assert (Sessions2, id) in Next(w, s).tables.rows;
      }
      assert NeverOpened([s], id);
    }
  }
}
