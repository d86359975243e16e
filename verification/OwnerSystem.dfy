/**
 * The owner service as one transition system: requests change the tables between any two steps of
 * the scheduler, which lists pending vouchers once per round, checks each for completion, and only
 * then, in a step of its own, registers it. A step that is not enabled changes nothing.
 */
module OwnerSystem {
  import opened Wrappers
  import opened OwnerStore
  import S = To0Scheduler

  /** The GUID in the header of a stored voucher, if the bytes decode. */
  type Header = Bytes -> Option<Guid>

  /** `open` is the GUID that passed its completion check and is about to be registered. */
  datatype State = State(tables: Tables, batch: seq<VoucherRow>, now: int, next: S.Schedule, open: Option<Guid>)

  datatype Step =
    | Request(call: Call)
    | StartRound(at: int, order: seq<Guid>)
    | Check(works: bool)
    | Register(reply: Option<u32>)

  /** The listing has every pending voucher once, in any order. */
  predicate Lists(t: Tables, order: seq<Guid>) {
    && (forall i, j :: 0 <= i < j < |order| ==> order[i] != order[j])
    && (set g | g in order) == Pending(t)
  }

  /** A listing in any order, and nothing else: each pending voucher, once. */
  lemma ListsExactly(t: Tables, order: seq<Guid>)
    ensures Lists(t, order) <==> multiset(order) == multiset(Pending(t))
  {
    if Lists(t, order) { OnceEach(order); }
    if multiset(order) == multiset(Pending(t)) {
      assert forall g :: g in order <==> g in multiset(order);
      forall i, j | 0 <= i < j < |order|
        ensures order[i] != order[j]
      {
        Twice(order, i, j);
      }
    }
  }

  lemma Twice(order: seq<Guid>, i: nat, j: nat)
    requires i < j < |order|
    ensures order[i] == order[j] ==> multiset(order)[order[j]] >= 2
  {
    assert order == order[..j] + [order[j]] + order[j + 1..];
    assert order[..j][i] == order[i];
  }

  lemma {:induction false} OnceEach(order: seq<Guid>)
    requires forall i, j :: 0 <= i < j < |order| ==> order[i] != order[j]
    ensures forall g :: multiset(order)[g] == if g in order then 1 else 0
  {
    if order != [] {
      var n := |order| - 1;
      assert order == order[..n] + [order[n]];
      OnceEach(order[..n]);
    }
  }

  function RowsOf(t: Tables, order: seq<Guid>): (rows: seq<VoucherRow>)
    requires Lists(t, order)
    ensures |rows| == |order|
    ensures forall i :: 0 <= i < |rows| ==> order[i] in Pending(t) && rows[i] == t.vouchers[order[i]]
    ensures forall g :: g in Pending(t) ==> t.vouchers[g] in rows
  {
    assert forall i :: 0 <= i < |order| ==> order[i] in (set g | g in order) && order[i] in Pending(t);
    var rows := seq(|order|, i requires 0 <= i < |order| && order[i] in t.vouchers => t.vouchers[order[i]]);
    assert forall i :: 0 <= i < |order| ==> rows[i] in rows;
    rows
  }

  /** What the check finds for a listed voucher; the reply of a registration comes later. */
  function VisitOf(header: Header, t: Tables, row: VoucherRow, works: bool): S.Visit {
    match header(row.cbor)
    case None => S.Undecodable
    case Some(g) =>
      if !works then S.CheckFailed(g) else if IsTO2Completed(t, g) then S.Completed(g) else S.Open(g, None)
  }

  function Next(header: Header, s: State, step: Step): (State, seq<S.Event>) {
    match step
    case Request(c) => (s.(tables := Exec(b => header(b).Some?, s.tables, c.op, c.fault)), [])
    case StartRound(at, order) =>
      if s.batch == [] && s.open.None? && Lists(s.tables, order)
      then (s.(batch := RowsOf(s.tables, order), now := at), [])
      else (s, [])
    case Check(works) =>
      if s.batch == [] || s.open.Some? then (s, [])
      else
        var v := VisitOf(header, s.tables, s.batch[0], works);
        var s := s.(batch := s.batch[1..]);
        if v.Open? && S.Due(s.next, s.now, v.guid) then (s.(open := Some(v.guid)), [])
        else if v.Completed? then (s.(next := s.next - {S.Key(v.guid)}), [S.SawCompleted(v.guid)])
        else (s, [])
    case Register(reply) =>
      if s.open.None? then (s, [])
      else
        var g := s.open.value;
        (s.(next := s.next[S.Key(g) := s.now + S.Backoff(reply)], open := None), [S.Attempted(g, s.now, reply)])
  }

  function Run(header: Header, s: State, steps: seq<Step>): (State, seq<S.Event>)
    decreases |steps|
  {
    if steps == [] then (s, [])
    else
      var (s', events) := Next(header, s, steps[0]);
      var (s'', more) := Run(header, s', steps[1..]);
      (s'', events + more)
  }

  // What each step does ------------------------------------------------------------------------

  /**
   * A check takes one listed row. It reports a completion exactly if the row decodes, the lookup works
   * and the device has completed TO2, and forgets its waiting time; it hands the device over to be
   * registered exactly if it has not completed and its waiting time is over; a row that does not
   * decode and a lookup that fails leave everything but the listing as it was.
   */
  lemma CheckExactly(header: Header, s: State, works: bool)
    requires s.batch != [] && s.open.None?
    ensures var (s', events) := Next(header, s, Check(works));
            var g := header(s.batch[0].cbor);
            var done := g.Some? && g.value in s.tables.onboarding && s.tables.onboarding[g.value].completed;
            && s'.batch == s.batch[1..] && s'.tables == s.tables && s'.now == s.now
            && (events == if works && done then [S.SawCompleted(g.value)] else [])
            && (s'.open == if works && g.Some? && !done
                              && (S.Key(g.value) in s.next ==> s.next[S.Key(g.value)] <= s.now) then g else None)
            && (s'.next == if works && done then s.next - {S.Key(g.value)} else s.next)
  {
  }

  /**
   * A registration reports the attempt at the time its round started, and the device then waits from
   * that time on; a round starts with exactly the pending vouchers, and only once the last one ended.
   */
  lemma OtherSteps(header: Header, s: State, reply: Option<u32>, at: int, order: seq<Guid>, call: Call)
    ensures var (s', events) := Next(header, s, Register(reply));
            if s.open.None? then s' == s && events == []
            else && events == [S.Attempted(s.open.value, s.now, reply)]
                 && s' == s.(open := None, next := s'.next)
                 && S.Lookup(s'.next, s.open.value) == Some(s.now + match reply
                                                                   case None => 10_000_000_000
                                                                   case Some(r) =>
                                                                     if r == 0 then 300_000_000_000 else r * 1_000_000_000)
                 && forall g :: g != s.open.value ==> S.Lookup(s'.next, g) == S.Lookup(s.next, g)
    ensures var (s', events) := Next(header, s, StartRound(at, order));
            && events == []
            && if s.batch != [] || s.open.Some? || !Lists(s.tables, order) then s' == s
               else && s' == s.(batch := s'.batch, now := at) && |s'.batch| == |order|
                    && forall i :: 0 <= i < |order| ==>
                         order[i] in s.tables.vouchers && s'.batch[i] == s.tables.vouchers[order[i]]
    ensures var (s', events) := Next(header, s, Request(call));
            events == [] && s' == s.(tables := Exec(b => header(b).Some?, s.tables, call.op, call.fault))
  {
    S.BackoffExact(reply);
    if s.open.Some? {
      forall g | g != s.open.value
        ensures S.Lookup(s.next[S.Key(s.open.value) := s.now + S.Backoff(reply)], g) == S.Lookup(s.next, g)
      {
        OtherKeys(g, s.open.value, s.next, s.now + S.Backoff(reply));
      }
    }
  }

  // Spacing ------------------------------------------------------------------------------------

  /** A GUID about to be registered is due: only the scheduler changes its own schedule. */
  predicate OpenIsDue(s: State) { s.open.Some? ==> S.Due(s.next, s.now, s.open.value) }

  /**
   * The visit a step finishes, if any: a check that ends the visit, or a registration. A visit that
   * is not due gets no reply; `unused` stands for it.
   */
  function Emits(header: Header, s: State, step: Step, unused: Option<u32>): seq<S.Visit> {
    match step
    case Check(works) =>
      if s.batch == [] || s.open.Some? then []
      else
        var v := VisitOf(header, s.tables, s.batch[0], works);
        if !v.Open? then [v] else if S.Due(s.next, s.now, v.guid) then [] else [S.Open(v.guid, unused)]
    case Register(reply) => if s.open.None? then [] else [S.Open(s.open.value, reply)]
    case _ => []
  }

  function VisitsOf(header: Header, s: State, steps: seq<Step>, unused: Option<u32>): seq<S.Visit>
    decreases |steps|
  {
    if steps == [] then []
    else Emits(header, s, steps[0], unused) + VisitsOf(header, Next(header, s, steps[0]).0, steps[1..], unused)
  }

  /** The two steps of a visit are one visit of the sequential scheduler, whatever happens between. */
  lemma StepVisits(header: Header, s: State, step: Step, unused: Option<u32>)
    requires OpenIsDue(s)
    ensures var (s', events) := Next(header, s, step);
            OpenIsDue(s') && (s'.next, events) == S.RoundOf(s.next, s.now, Emits(header, s, step, unused))
  {
    var visits := Emits(header, s, step, unused);
    NoVisits(s);
    if visits != [] { S.RoundOne(s.next, s.now, visits[0]); }
  }

  /** Spacing holds in every interleaving: requests between check and registration do not disturb it. */
  lemma {:induction false} InterleavedSpacing(header: Header, s: State, steps: seq<Step>, past: seq<S.Event>)
    requires OpenIsDue(s) && S.Tracks(s.next, past) && S.Spaced(past)
    ensures var (s', events) := Run(header, s, steps);
            OpenIsDue(s') && S.Tracks(s'.next, past + events) && S.Spaced(past + events)
    decreases |steps|
  {
    hide S.Spaced, S.Tracks, Next, Emits;
    if steps == [] {
      assert past + [] == past;
    } else {
      var (s', events) := Next(header, s, steps[0]);
      StepVisits(header, s, steps[0], None);
      S.RoundKeeps(s.next, s.now, Emits(header, s, steps[0], None), past);
      InterleavedSpacing(header, s', steps[1..], past + events);
      var more := Run(header, s', steps[1..]).1;
      assert past + events + more == past + (events + more);
    }
  }

  /** The steps of one round are a round of the sequential scheduler. */
  lemma {:induction false} RunIsRound(header: Header, s: State, steps: seq<Step>, unused: Option<u32>)
    requires OpenIsDue(s) && forall i :: 0 <= i < |steps| ==> !steps[i].StartRound?
    ensures var (s', events) := Run(header, s, steps);
            && OpenIsDue(s') && s'.now == s.now
            && (s'.next, events) == S.RoundOf(s.next, s.now, VisitsOf(header, s, steps, unused))
    decreases |steps|
  {
    hide Next, Emits, S.RoundOf;
    NoVisits(s);
    if steps != [] {
      var s' := Next(header, s, steps[0]).0;
      StepVisits(header, s, steps[0], unused);
      SameRound(header, s, steps[0]);
      RunIsRound(header, s', steps[1..], unused);
      S.RoundConcat(s.next, s.now, Emits(header, s, steps[0], unused), VisitsOf(header, s', steps[1..], unused));
    }
  }

  lemma NoVisits(s: State)
    ensures S.RoundOf(s.next, s.now, []) == (s.next, [])
  {
  }

  lemma SameRound(header: Header, s: State, step: Step)
    requires !step.StartRound?
    ensures Next(header, s, step).0.now == s.now
  {
  }

  // Progress -----------------------------------------------------------------------------------

  /** Some row still to be visited in the round names g. */
  predicate Waiting(header: Header, batch: seq<VoucherRow>, g: Guid) {
    exists i :: 0 <= i < |batch| && header(batch[i].cbor) == Some(g)
  }

  /** No new round, and every completion check of g works and finds it open. */
  predicate StaysOpen(header: Header, s: State, steps: seq<Step>, g: Guid)
    decreases |steps|
  {
    steps == []
    || (&& !steps[0].StartRound?
        && (steps[0].Check? && s.batch != [] && s.open.None? && header(s.batch[0].cbor) == Some(g)
            ==> steps[0].works && !IsTO2Completed(s.tables, g))
        && StaysOpen(header, Next(header, s, steps[0]).0, steps[1..], g))
  }

  /** Requests, registrations, and checks that come to nothing or are not of g leave it open. */
  lemma OthersStayOpen(header: Header, s: State, works: bool, call: Call, reply: Option<u32>, g: Guid)
    ensures StaysOpen(header, s, [Request(call)], g) && StaysOpen(header, s, [Register(reply)], g)
    ensures s.batch == [] || s.open.Some? || header(s.batch[0].cbor) != Some(g) || (works && !IsTO2Completed(s.tables, g))
            <==> StaysOpen(header, s, [Check(works)], g)
  {
  }

  /** What is left of the round owes g one attempt. */
  predicate Owed(header: Header, s: State, g: Guid) {
    s.open == Some(g) || (Waiting(header, s.batch, g) && S.Due(s.next, s.now, g))
  }

  lemma OtherKeys(g: Guid, h: Guid, next: S.Schedule, at: int)
    requires g != h
    ensures S.Lookup(next[S.Key(h) := at], g) == S.Lookup(next, g)
    ensures S.Lookup(next - {S.Key(h)}, g) == S.Lookup(next, g)
  {
    if S.Key(g) == S.Key(h) { S.KeyInjective(g, h); }
  }

  lemma CheckOwes(header: Header, s: State, works: bool, g: Guid)
    requires OpenIsDue(s) && s.batch != [] && s.open.None?
    requires header(s.batch[0].cbor) == Some(g) ==> works && !IsTO2Completed(s.tables, g)
    ensures var (s', events) := Next(header, s, Check(works));
            S.Attempts(events, g) == 0 && (Owed(header, s, g) <==> Owed(header, s', g))
  {
    var (s', events) := Next(header, s, Check(works));
    assert S.Attempts([], g) == 0;
    if events != [] {
      assert events[..0] == [];
      OtherKeys(g, header(s.batch[0].cbor).value, s.next, 0);
    }
    assert Waiting(header, s.batch, g) <==> header(s.batch[0].cbor) == Some(g) || Waiting(header, s'.batch, g) by {
      if i :| 0 <= i < |s'.batch| && header(s'.batch[i].cbor) == Some(g) {
        assert s.batch[i + 1] == s'.batch[i];
      }
      if i :| 0 < i < |s.batch| && header(s.batch[i].cbor) == Some(g) {
        assert s'.batch[i - 1] == s.batch[i];
      }
    }
  }

  lemma RegisterOwes(header: Header, s: State, reply: Option<u32>, g: Guid)
    requires OpenIsDue(s) && s.open.Some?
    ensures var (s', events) := Next(header, s, Register(reply));
            && S.Attempts(events, g) == (if s.open == Some(g) then 1 else 0)
            && (Owed(header, s', g) <==> s.open != Some(g) && Owed(header, s, g))
  {
    var (s', events) := Next(header, s, Register(reply));
    assert S.Attempts([], g) == 0 && events[..0] == [];
    S.BackoffExact(reply);
    if s.open != Some(g) { OtherKeys(g, s.open.value, s.next, s.now + S.Backoff(reply)); }
  }

  /** The rest of a round attempts g once if it owes g an attempt, and otherwise not at all. */
  lemma {:induction false} RestOfRound(header: Header, s: State, steps: seq<Step>, g: Guid)
    requires OpenIsDue(s) && StaysOpen(header, s, steps, g)
    requires var s' := Run(header, s, steps).0; s'.batch == [] && s'.open.None?
    ensures S.Attempts(Run(header, s, steps).1, g) == if Owed(header, s, g) then 1 else 0
    decreases |steps|
  {
    if steps != [] {
      var (s', events) := Next(header, s, steps[0]);
      StepVisits(header, s, steps[0], None);
      RestOfRound(header, s', steps[1..], g);
      S.AttemptsConcat(events, Run(header, s', steps[1..]).1, g);
      if steps[0].Check? && s.batch != [] && s.open.None? {
        CheckOwes(header, s, steps[0].works, g);
      } else if steps[0].Register? && s.open.Some? {
        RegisterOwes(header, s, steps[0].reply, g);
      }
    }
  }

  /**
   * Progress: a round attempts a pending GUID exactly once if it is due and its stored voucher
   * decodes, provided each completion check of it works and finds it open, whatever requests
   * interleave and whatever happens to the others; one that is not due is not attempted.
   */
  lemma PendingAttemptedOnce(header: Header, s: State, at: int, order: seq<Guid>, steps: seq<Step>, g: Guid)
    requires s.batch == [] && s.open.None? && Lists(s.tables, order)
    requires g in Pending(s.tables) && header(s.tables.vouchers[g].cbor) == Some(g)
    requires StaysOpen(header, Next(header, s, StartRound(at, order)).0, steps, g)
    requires var s' := Run(header, s, [StartRound(at, order)] + steps).0; s'.batch == [] && s'.open.None?
    ensures S.Attempts(Run(header, s, [StartRound(at, order)] + steps).1, g)
            == if S.Due(s.next, at, g) then 1 else 0
  {
    var all := [StartRound(at, order)] + steps;
    var s' := Next(header, s, all[0]).0;
    assert all[1..] == steps;
    RestOfRound(header, s', steps, g);
    assert [] + Run(header, s', steps).1 == Run(header, s', steps).1;
    var row := s.tables.vouchers[g];
    assert row in s'.batch;
    var i :| 0 <= i < |s'.batch| && s'.batch[i] == row;
    assert Waiting(header, s'.batch, g);
  }

  // Completion ---------------------------------------------------------------------------------

  /** Every voucher row is stored under the GUID of its header, as every caller of the store does. */
  ghost predicate Keyed(header: Header, t: Tables) {
    forall g :: g in t.vouchers ==> header(t.vouchers[g].cbor) == Some(g)
  }

  predicate KeyedCall(header: Header, c: Call) {
    match c.op
    case Insert(g, row) => header(row.cbor) == Some(g)
    case Add(g, row) => header(row.cbor) == Some(g)
    case Replace(_, n, row) => header(row.cbor) == Some(n)
    case _ => true
  }

  /** A call is keyed exactly if it keeps every keyed table keyed. */
  lemma KeyedExactly(header: Header, op: Op)
    ensures KeyedCall(header, Call(op, None))
            <==> forall t :: Keyed(header, t) ==> Keyed(header, Exec(b => header(b).Some?, t, op, None))
  {
    var none := Tables(map[], map[]);
    var after := Exec(b => header(b).Some?, none, op, None);
    if Keyed(header, none) ==> Keyed(header, after) {
      match op
      case Insert(g, row) => assert after.vouchers[g] == row;
      case Add(g, row) => assert after.vouchers[g] == row;
      case Replace(_, n, row) => assert after.vouchers[n] == row;
      case _ =>
    }
  }

  predicate RemovesNow(header: Header, s: State, step: Step, x: Guid) {
    && step.Request?
    && (step.call.op.Remove? || step.call.op.Resell?)
    && step.call.op.guid == x
    && Succeeds(b => header(b).Some?, s.tables, step.call.op, step.call.fault)
  }

  /** It does so exactly if x had a voucher and has none after it. */
  lemma RemovesExactly(header: Header, s: State, step: Step, x: Guid)
    ensures RemovesNow(header, s, step, x)
            <==> && step.Request? && (step.call.op.Remove? || step.call.op.Resell?)
                 && x in s.tables.vouchers && x !in Next(header, s, step).0.tables.vouchers
  {
  }

  /** x is settled, and any row of x still waiting in the round will be found completed. */
  ghost predicate Quiet(header: Header, s: State, x: Guid) {
    && Keyed(header, s.tables)
    && Settled(s.tables, x)
    && (IsTO2Completed(s.tables, x) || !Waiting(header, s.batch, x))
  }

  /** Every call is keyed, and none removes x. */
  ghost predicate Undisturbed(header: Header, s: State, steps: seq<Step>, x: Guid)
    decreases |steps|
  {
    steps == []
    || (&& (steps[0].Request? ==> KeyedCall(header, steps[0].call))
        && !RemovesNow(header, s, steps[0], x)
        && Undisturbed(header, Next(header, s, steps[0]).0, steps[1..], x))
  }

  /** Some step of the run finishes a registration. */
  predicate Registers(steps: seq<Step>) { exists i :: 0 <= i < |steps| && steps[i].Register? }

  lemma QuietStep(header: Header, s: State, step: Step, x: Guid)
    requires Quiet(header, s, x) && !RemovesNow(header, s, step, x)
    requires step.Request? ==> KeyedCall(header, step.call)
    ensures var (s', events) := Next(header, s, step);
            && Quiet(header, s', x)
            && (s'.open == Some(x) <==> s.open == Some(x) && !step.Register?)
            && S.Attempts(events, x) == if s.open == Some(x) && step.Register? then 1 else 0
  {
    var (s', events) := Next(header, s, step);
    assert S.Attempts([], x) == 0;
    assert events != [] ==> events[..0] == [];
    match step
    case Request(c) =>
      assert [c][0] == c && [c][1..] == [];
      SettledStep(b => header(b).Some?, s.tables, c, x);
    case StartRound(at, order) =>
      if s' != s { assert forall i :: 0 <= i < |s'.batch| ==> order[i] in Pending(s.tables); }
    case Check(_) =>
      if s' != s {
        if i :| 0 <= i < |s'.batch| && header(s'.batch[i].cbor) == Some(x) { assert s.batch[i + 1] == s'.batch[i]; }
        if header(s.batch[0].cbor) == Some(x) { assert Waiting(header, s.batch, x); }
      }
    case Register(_) =>
  }

  /**
   * Once settled, a GUID is attempted at most once more until its voucher is removed, however
   * requests and scheduler steps interleave: exactly once if its completion check had already
   * passed and that registration goes ahead, and never otherwise.
   */
  lemma {:induction false} QuietAttempts(header: Header, s: State, steps: seq<Step>, x: Guid)
    requires Quiet(header, s, x) && Undisturbed(header, s, steps, x)
    ensures S.Attempts(Run(header, s, steps).1, x) == if s.open == Some(x) && Registers(steps) then 1 else 0
    decreases |steps|
  {
    if steps != [] {
      var (s', events) := Next(header, s, steps[0]);
      QuietStep(header, s, steps[0], x);
      QuietAttempts(header, s', steps[1..], x);
      S.AttemptsConcat(events, Run(header, s', steps[1..]).1, x);
      assert Registers(steps) <==> steps[0].Register? || Registers(steps[1..]) by {
        if i :| 0 <= i < |steps[1..]| && steps[1..][i].Register? { assert steps[i + 1].Register?; }
        if i :| 0 < i < |steps| && steps[i].Register? { assert steps[1..][i - 1].Register?; }
      }
    }
  }

  /** A settled GUID is never attempted again, in any run, if and only if no check of it is in flight. */
  lemma NeverAgainExactly(header: Header, s: State, x: Guid)
    requires Quiet(header, s, x)
    ensures (forall steps :: Undisturbed(header, s, steps, x) ==> S.Attempts(Run(header, s, steps).1, x) == 0)
            <==> s.open != Some(x)
  {
    if s.open != Some(x) {
      forall steps | Undisturbed(header, s, steps, x)
        ensures S.Attempts(Run(header, s, steps).1, x) == 0
      {
        QuietAttempts(header, s, steps, x);
      }
    } else {
      var finish := [Register(None)];
      assert finish[1..] == [] && finish[0].Register?;
      assert Undisturbed(header, Next(header, s, finish[0]).0, [], x);
      assert Undisturbed(header, s, finish, x) && Registers(finish);
      QuietAttempts(header, s, finish, x);
    }
  }

  /** A successful replacement makes the old GUID quiet at once, and a new GUID that nothing names. */
  lemma ReplacementQuiets(header: Header, s: State, g: Guid, n: Guid, row: VoucherRow)
    requires Keyed(header, s.tables) && header(row.cbor) == Some(n)
    requires Succeeds(b => header(b).Some?, s.tables, Replace(g, n, row), None)
    ensures var s' := Next(header, s, Request(Call(Replace(g, n, row), None))).0;
            && Quiet(header, s', g)
            && (n !in s.tables.onboarding && !Waiting(header, s.batch, n) ==> Quiet(header, s', n))
  {
  }

  lemma RunFour(header: Header, s: State, a: Step, b: Step, c: Step, d: Step)
    ensures Run(header, s, [a, b, c, d]).0
            == Next(header, Next(header, Next(header, Next(header, s, a).0, b).0, c).0, d).0
  {
    hide Next;
    assert [d][1..] == [] && [c, d][1..] == [d] && [b, c, d][1..] == [c, d] && [a, b, c, d][1..] == [b, c, d];
    var s1 := Next(header, s, a).0;
    var s2 := Next(header, s1, b).0;
    var s3 := Next(header, s2, c).0;
    assert Run(header, s3, [d]).0 == Next(header, s3, d).0;
    assert Run(header, s2, [c, d]).0 == Run(header, s3, [d]).0;
    assert Run(header, s1, [b, c, d]).0 == Run(header, s2, [c, d]).0;
  }

  /** A pending device on its own is listed, checked and about to be registered. */
  lemma CheckedAlone(header: Header, s: State, g: Guid, at: int)
    requires Pending(s.tables) == {g} && header(s.tables.vouchers[g].cbor) == Some(g)
    requires s.batch == [] && s.open.None? && S.Due(s.next, at, g)
    ensures var s' := Next(header, Next(header, s, StartRound(at, [g])).0, Check(true)).0;
            s'.tables == s.tables && s'.open == Some(g) && s'.now == at
  {
    assert Lists(s.tables, [g]);
    assert g in Pending(s.tables);
  }

  /**
   * The race is real: from empty tables, a device whose replacement commits between the completion
   * check and the registration is registered although it has completed.
   */
  lemma CompletedDuringRegistration(header: Header, g: Guid, n: Guid, row: VoucherRow, row': VoucherRow, at: int)
    requires g != n && header(row.cbor) == Some(g) && header(row'.cbor) == Some(n)
    ensures var start := State(Tables(map[], map[]), [], 0, map[], None);
            var race := [Request(Call(Insert(g, row), None)), StartRound(at, [g]), Check(true),
                         Request(Call(Replace(g, n, row'), None))];
            && IsTO2Completed(Run(header, start, race).0.tables, g)
            && Run(header, Run(header, start, race).0, [Register(None)]).1 == [S.Attempted(g, at, None)]
  {
    var s0 := State(Tables(map[], map[]), [], 0, map[], None);
    var a, b, c, d := Request(Call(Insert(g, row), None)), StartRound(at, [g]), Check(true),
                      Request(Call(Replace(g, n, row'), None));
    var s1 := Next(header, s0, a).0;
    assert Pending(s1.tables) == {g};
    CheckedAlone(header, s1, g, at);
    RunFour(header, s0, a, b, c, d);
    var s4 := Run(header, s0, [a, b, c, d]).0;
    assert s4.open == Some(g) && s4.now == at;
    var last := [Register(None)];
    assert last[1..] == [] && Run(header, s4, last).1 == Next(header, s4, last[0]).1 + [];
  }
}
