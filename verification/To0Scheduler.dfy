/**
 * The background TO0 scheduler: one round lists the pending vouchers and visits each, keeping the
 * time before which a GUID is not tried again. Times are nanoseconds.
 */
module To0Scheduler {
  import opened Wrappers
  import Hex

  const SECOND: int := 1_000_000_000
  const DEFAULT_TTL: u32 := 300
  const FAILURE_BACKOFF: int := 10 * SECOND

  /** What the round finds for one listed voucher; the reply is that of RegisterRvBlob, if called. */
  datatype Visit =
    | Undecodable
    | CheckFailed(guid: Guid)
    | Completed(guid: Guid)
    | Open(guid: Guid, reply: Option<u32>)

  datatype Event = Attempted(guid: Guid, at: int, reply: Option<u32>) | SawCompleted(guid: Guid)

  /** Two's complement wrap-around of a 64-bit product. */
  function Int64(n: int): int { (n + 0x8000_0000_0000_0000) % 0x1_0000_0000_0000_0000 - 0x8000_0000_0000_0000 }

  /** time.Duration(refresh) * time.Second. */
  function Duration(refresh: u32): int { Int64(refresh * SECOND) }

  /** How long after the round started the GUID is left alone. */
  function Backoff(reply: Option<u32>): int {
    match reply
    case None => FAILURE_BACKOFF
    case Some(refresh) => Duration(if refresh == 0 then DEFAULT_TTL else refresh)
  }

  /** The product never overflows, so the wait is the refresh in seconds, and never zero. */
  lemma BackoffExact(reply: Option<u32>)
    ensures Backoff(reply) == match reply
                              case None => 10_000_000_000
                              case Some(refresh) =>
                                if refresh == 0 then 300_000_000_000 else refresh * 1_000_000_000
    ensures Backoff(reply) > 0
  {
  }

  // One round ----------------------------------------------------------------------------------

  type Schedule = map<string, int>

  function Key(g: Guid): string { Hex.Encode(g) }

  lemma KeyInjective(g: Guid, g': Guid)
    requires Key(g) == Key(g')
    ensures g == g'
  {
    Hex.DecodeEncode(g);
    Hex.DecodeEncode(g');
  }

  predicate Due(next: Schedule, now: int, g: Guid) { Key(g) in next ==> next[Key(g)] <= now }

  function VisitOne(next: Schedule, now: int, v: Visit): (Schedule, seq<Event>) {
    match v
    case Undecodable => (next, [])
    case CheckFailed(_) => (next, [])
    case Completed(g) => (next - {Key(g)}, [SawCompleted(g)])
    case Open(g, reply) =>
      if Due(next, now, g) then (next[Key(g) := now + Backoff(reply)], [Attempted(g, now, reply)])
      else (next, [])
  }

  function RoundOf(next: Schedule, now: int, visits: seq<Visit>): (Schedule, seq<Event>) {
    if visits == [] then (next, [])
    else
      var (next', events) := RoundOf(next, now, visits[..|visits| - 1]);
      var (next'', more) := VisitOne(next', now, visits[|visits| - 1]);
      (next'', events + more)
  }

  lemma RoundOne(next: Schedule, now: int, v: Visit)
    ensures RoundOf(next, now, [v]) == VisitOne(next, now, v)
  {
    assert [v][..0] == [] && RoundOf(next, now, []) == (next, []);
    assert [] + VisitOne(next, now, v).1 == VisitOne(next, now, v).1;
  }

  /** A round may be taken in two parts. */
  lemma {:induction false} RoundConcat(next: Schedule, now: int, a: seq<Visit>, b: seq<Visit>)
    ensures var (mid, first) := RoundOf(next, now, a);
            var (last, second) := RoundOf(mid, now, b);
            RoundOf(next, now, a + b) == (last, first + second)
    decreases |b|
  {
    hide VisitOne;
    if b == [] {
      assert a + b == a;
      assert RoundOf(next, now, a).1 + [] == RoundOf(next, now, a).1;
    } else {
      var n := |b| - 1;
      RoundConcat(next, now, a, b[..n]);
      assert (a + b)[..|a + b| - 1] == a + b[..n];
      var (mid, first) := RoundOf(next, now, a);
      var (late, second) := RoundOf(mid, now, b[..n]);
      var more := VisitOne(late, now, b[n]).1;
      assert first + second + more == first + (second + more);
    }
  }

  class Scheduler {
    var nextTry: Schedule

    constructor ()
      ensures nextTry == map[]
    {
      nextTry := map[];
    }

    /** The body of the scheduler loop, once the pending vouchers are listed. */
    method Round(now: int, visits: seq<Visit>) returns (events: seq<Event>)
      modifies this
      ensures (nextTry, events) == RoundOf(old(nextTry), now, visits)
    {
      events := [];
      for i := 0 to |visits|
        invariant (nextTry, events) == RoundOf(old(nextTry), now, visits[..i])
      {
        assert visits[..i + 1][..i] == visits[..i];
        match visits[i] {
          case Undecodable =>
            assert events + [] == events;
          case CheckFailed(_) =>
            assert events + [] == events;
          case Completed(g) =>
            nextTry := nextTry - {Key(g)};
            events := events + [SawCompleted(g)];
          case Open(g, reply) =>
            if Key(g) in nextTry && now < nextTry[Key(g)] {
              assert events + [] == events;
            } else {
              if reply.None? {
                nextTry := nextTry[Key(g) := now + 10 * SECOND];
              } else {
                var refresh := if reply.value == 0 then DEFAULT_TTL else reply.value;
                nextTry := nextTry[Key(g) := now + Duration(refresh)];
              }
              events := events + [Attempted(g, now, reply)];
            }
        }
      }
      assert visits[..|visits|] == visits;
    }
  }

  // Whole runs ---------------------------------------------------------------------------------

  datatype Round = Round(now: int, visits: seq<Visit>)

  function RunOf(rounds: seq<Round>): (Schedule, seq<Event>) {
    if rounds == [] then (map[], [])
    else
      var (next, events) := RunOf(rounds[..|rounds| - 1]);
      var last := rounds[|rounds| - 1];
      var (next', more) := RoundOf(next, last.now, last.visits);
      (next', events + more)
  }

  /** The earliest next attempt on g that the past events allow; None if nothing holds it back. */
  function Gate(events: seq<Event>, g: Guid): Option<int> {
    if events == [] then None
    else
      match events[|events| - 1]
      case Attempted(g', at, reply) =>
        if g' == g then Some(at + Backoff(reply)) else Gate(events[..|events| - 1], g)
      case SawCompleted(g') =>
        if g' == g then None else Gate(events[..|events| - 1], g)
  }

  function Lookup(next: Schedule, g: Guid): Option<int> {
    if Key(g) in next then Some(next[Key(g)]) else None
  }

  /** The schedule is a function of the past events. */
  ghost predicate Tracks(next: Schedule, events: seq<Event>) {
    forall g :: Lookup(next, g) == Gate(events, g)
  }

  /** After e1, nothing reports g completed before e2. */
  predicate NoCompletion(events: seq<Event>, g: Guid, i: nat, j: nat)
    requires i <= j <= |events|
  {
    forall k :: i <= k < j ==> events[k] != SawCompleted(g)
  }

  /** Attempts on one GUID keep the backoff of the earlier one, unless it was seen completed between. */
  ghost predicate Spaced(events: seq<Event>) {
    forall i, j :: 0 <= i < j < |events| && events[i].Attempted? && events[j].Attempted?
                   && events[i].guid == events[j].guid && NoCompletion(events, events[i].guid, i, j)
      ==> events[j].at >= events[i].at + Backoff(events[i].reply)
  }

  /** In a spaced history, the gate is no earlier than any attempt since the last completion allows. */
  lemma {:induction false} GateCovers(events: seq<Event>, i: nat)
    requires Spaced(events) && i < |events| && events[i].Attempted?
    requires NoCompletion(events, events[i].guid, i, |events|)
    ensures var gate := Gate(events, events[i].guid);
            gate.Some? && gate.value >= events[i].at + Backoff(events[i].reply)
    decreases |events|
  {
    var n := |events| - 1;
    var g := events[i].guid;
    var last := events[n];
    if last.Attempted? && last.guid == g {
      BackoffExact(last.reply);
      if i < n { assert NoCompletion(events, g, i, n); }
    } else {
      var before := events[..n];
      assert NoCompletion(before, g, i, n);
      SpacedPrefix(events, n);
      GateCovers(before, i);
    }
  }

  lemma SpacedPrefix(events: seq<Event>, n: nat)
    requires Spaced(events) && n <= |events|
    ensures Spaced(events[..n])
  {
    var before := events[..n];
    forall i, j | 0 <= i < j < |before| && before[i].Attempted? && before[j].Attempted?
                  && before[i].guid == before[j].guid && NoCompletion(before, before[i].guid, i, j)
      ensures before[j].at >= before[i].at + Backoff(before[i].reply)
    {
      assert forall k :: i <= k < j ==> events[k] == before[k];
      assert NoCompletion(events, events[i].guid, i, j);
    }
  }

  lemma SpacedSnoc(events: seq<Event>, e: Event)
    requires Spaced(events)
    requires e.Attempted? ==> Gate(events, e.guid).None? || Gate(events, e.guid).value <= e.at
    ensures Spaced(events + [e])
  {
    var after := events + [e];
    forall i, j | 0 <= i < j < |after| && after[i].Attempted? && after[j].Attempted?
                  && after[i].guid == after[j].guid && NoCompletion(after, after[i].guid, i, j)
      ensures after[j].at >= after[i].at + Backoff(after[i].reply)
    {
      assert forall k :: i <= k < j ==> events[k] == after[k];
      assert NoCompletion(events, events[i].guid, i, j);
      if j == |events| {
        GateCovers(events, i);
      }
    }
  }

  lemma VisitKeeps(next: Schedule, now: int, v: Visit, events: seq<Event>)
    requires Tracks(next, events) && Spaced(events)
    ensures var (next', more) := VisitOne(next, now, v);
            Tracks(next', events + more) && Spaced(events + more)
  {
    var (next', more) := VisitOne(next, now, v);
    if more == [] {
      assert events + more == events;
    } else {
      var e := more[0];
      assert more == [e];
      assert Lookup(next, e.guid) == Gate(events, e.guid);
      SpacedSnoc(events, e);
      assert (events + more)[..|events|] == events;
      forall g
        ensures Lookup(next', g) == Gate(events + more, g)
      {
        assert Lookup(next, g) == Gate(events, g);
        if Key(g) == Key(e.guid) { KeyInjective(g, e.guid); }
      }
    }
  }

  lemma {:induction false} RoundKeeps(next: Schedule, now: int, visits: seq<Visit>, events: seq<Event>)
    requires Tracks(next, events) && Spaced(events)
    ensures var (next', more) := RoundOf(next, now, visits);
            Tracks(next', events + more) && Spaced(events + more)
    decreases |visits|
  {
    if visits == [] {
      assert events + [] == events;
    } else {
      var n := |visits| - 1;
      RoundKeeps(next, now, visits[..n], events);
      var (next', more) := RoundOf(next, now, visits[..n]);
      VisitKeeps(next', now, visits[n], events + more);
      var (next'', last) := VisitOne(next', now, visits[n]);
      assert events + more + last == events + (more + last);
    }
  }

  /**
   * Spacing: in every run, a GUID is tried again no sooner than 10s after a failed attempt, or the
   * returned refresh (300s if zero) after a successful one, unless it was seen completed between.
   * The schedule map holds exactly what the history implies.
   */
  lemma {:induction false} AttemptsAreSpaced(rounds: seq<Round>)
    ensures Spaced(RunOf(rounds).1)
    ensures var events := RunOf(rounds).1;
            forall i, j :: 0 <= i < j < |events| && events[i].Attempted? && events[j].Attempted?
                           && events[i].guid == events[j].guid
                           && (forall k :: i < k < j ==> events[k] != SawCompleted(events[i].guid))
              ==> events[j].at >= events[i].at + Backoff(events[i].reply)
    ensures Tracks(RunOf(rounds).0, RunOf(rounds).1)
    decreases |rounds|
  {
    if rounds != [] {
      var n := |rounds| - 1;
      AttemptsAreSpaced(rounds[..n]);
      var (next, events) := RunOf(rounds[..n]);
      RoundKeeps(next, rounds[n].now, rounds[n].visits, events);
    }
  }

  // Progress -----------------------------------------------------------------------------------

  function Attempts(events: seq<Event>, g: Guid): nat {
    if events == [] then 0
    else
      var e := events[|events| - 1];
      Attempts(events[..|events| - 1], g) + if e.Attempted? && e.guid == g then 1 else 0
  }

  predicate Opens(visits: seq<Visit>, g: Guid) {
    exists i :: 0 <= i < |visits| && visits[i].Open? && visits[i].guid == g
  }

  predicate Completes(visits: seq<Visit>, g: Guid) { Completed(g) in visits }

  lemma {:induction false} AttemptsConcat(a: seq<Event>, b: seq<Event>, g: Guid)
    ensures Attempts(a + b, g) == Attempts(a, g) + Attempts(b, g)
    decreases |b|
  {
    if b == [] {
      assert a + b == a;
    } else {
      var n := |b| - 1;
      AttemptsConcat(a, b[..n], g);
      assert (a + b)[..|a| + n] == a + b[..n];
    }
  }

  lemma VisitAttempt(next: Schedule, now: int, v: Visit, g: Guid)
    requires v != Completed(g)
    ensures var (next', more) := VisitOne(next, now, v);
            && |more| <= 1
            && if v.Open? && v.guid == g && Due(next, now, g)
               then Attempts(more, g) == 1 && !Due(next', now, g)
               else Attempts(more, g) == 0 && Lookup(next', g) == Lookup(next, g)
  {
    var (next', more) := VisitOne(next, now, v);
    if more != [] {
      assert more[..|more| - 1] == [];
      if Key(more[0].guid) == Key(g) { KeyInjective(more[0].guid, g); }
    }
    if v.Open? { BackoffExact(v.reply); }
  }

  lemma OpensSnoc(visits: seq<Visit>, g: Guid)
    requires visits != []
    ensures var v := visits[|visits| - 1];
            Opens(visits, g) <==> Opens(visits[..|visits| - 1], g) || (v.Open? && v.guid == g)
  {
    var n := |visits| - 1;
    if Opens(visits[..n], g) {
      var i :| 0 <= i < n && visits[..n][i].Open? && visits[..n][i].guid == g;
      assert visits[i].Open?;
    }
  }

  /**
   * Progress: in a round that does not find g completed, g is attempted exactly once if it is due
   * and some visit finds it open, and not at all otherwise, whatever the other visits find.
   */
  lemma {:induction false} DueAttemptedOnce(next: Schedule, now: int, visits: seq<Visit>, g: Guid)
    requires !Completes(visits, g)
    ensures var (next', events) := RoundOf(next, now, visits);
            if Due(next, now, g) && Opens(visits, g)
            then Attempts(events, g) == 1 && !Due(next', now, g)
            else Attempts(events, g) == 0 && Lookup(next', g) == Lookup(next, g)
    decreases |visits|
  {
    if visits != [] {
      var n := |visits| - 1;
      var v := visits[n];
      assert forall x :: x in visits[..n] ==> x in visits;
      DueAttemptedOnce(next, now, visits[..n], g);
      var (next', events) := RoundOf(next, now, visits[..n]);
      assert v in visits;
      VisitAttempt(next', now, v, g);
      AttemptsConcat(events, VisitOne(next', now, v).1, g);
      OpensSnoc(visits, g);
    }
  }

  /** What a round reports: attempts at its own time with the reply the visit got, and completions seen. */
  lemma {:induction false} RoundReports(next: Schedule, now: int, visits: seq<Visit>, g: Guid)
    ensures var (next', events) := RoundOf(next, now, visits);
            && (forall e :: e in events && e.Attempted? ==> e.at == now && Open(e.guid, e.reply) in visits)
            && (SawCompleted(g) in events <==> Completed(g) in visits)
    decreases |visits|
  {
    if visits != [] {
      var n := |visits| - 1;
      RoundReports(next, now, visits[..n], g);
      var (next', events) := RoundOf(next, now, visits[..n]);
      assert visits == visits[..n] + [visits[n]];
    }
  }

  /** The last event about g is an attempt, the i-th: nothing later tries it or sees it completed. */
  predicate LastAttempt(events: seq<Event>, g: Guid, i: nat) {
    && i < |events| && events[i].Attempted? && events[i].guid == g
    && forall k :: i < k < |events| ==> events[k].guid != g
  }

  /** Nothing holds g back: never attempted, or seen completed since the last attempt. */
  predicate Free(events: seq<Event>, g: Guid) {
    forall i :: 0 <= i < |events| && events[i].guid == g && events[i].Attempted? ==>
      exists k :: i < k < |events| && events[k] == SawCompleted(g)
  }

  /** One of the two holds of every history. */
  lemma {:induction false} FreeOrTried(events: seq<Event>, g: Guid)
    ensures Free(events, g) <==> !exists i :: LastAttempt(events, g, i)
    decreases |events|
  {
    if events != [] {
      var n := |events| - 1;
      var before := events[..n];
      FreeOrTried(before, g);
      assert forall i :: 0 <= i < n ==> before[i] == events[i];
      if events[n].guid != g {
        if i :| LastAttempt(before, g, i) { assert LastAttempt(events, g, i); }
        if i :| LastAttempt(events, g, i) { assert LastAttempt(before, g, i); }
        SameFree(before, events[n], g);
        assert before + [events[n]] == events;
      } else if events[n].Attempted? {
        assert LastAttempt(events, g, n);
      } else {
        assert events[n] == SawCompleted(g);
      }
    }
  }

  lemma SameFree(before: seq<Event>, e: Event, g: Guid)
    requires e.guid != g
    ensures Free(before + [e], g) <==> Free(before, g)
  {
    var events := before + [e];
    assert forall i :: 0 <= i < |before| ==> events[i] == before[i];
    forall i | 0 <= i < |before| && before[i].guid == g && before[i].Attempted?
      ensures (exists k :: i < k < |before| && before[k] == SawCompleted(g))
              <==> exists k :: i < k < |events| && events[k] == SawCompleted(g)
    {
      if k :| i < k < |events| && events[k] == SawCompleted(g) { assert before[k] == SawCompleted(g); }
      if k :| i < k < |before| && before[k] == SawCompleted(g) { assert events[k] == SawCompleted(g); }
    }
  }

  lemma {:induction false} GateOf(events: seq<Event>, g: Guid, i: nat)
    ensures LastAttempt(events, g, i) ==> Gate(events, g) == Some(events[i].at + Backoff(events[i].reply))
    decreases |events|
  {
    if LastAttempt(events, g, i) && i < |events| - 1 {
      var n := |events| - 1;
      assert events[n].guid != g;
      assert forall k :: 0 <= k < n ==> events[..n][k] == events[k];
      GateOf(events[..n], g, i);
    }
  }

  lemma {:induction false} GateFree(events: seq<Event>, g: Guid)
    requires Free(events, g)
    ensures Gate(events, g) == None
    decreases |events|
  {
    if events != [] {
      var n := |events| - 1;
      var before := events[..n];
      if events[n].guid == g {
        assert events[n].SawCompleted?;
      } else {
        forall i | 0 <= i < n && before[i].guid == g && before[i].Attempted?
          ensures exists k :: i < k < n && before[k] == SawCompleted(g)
        {
          assert events[i] == before[i];
          var k :| i < k < |events| && events[k] == SawCompleted(g);
          assert before[k] == SawCompleted(g);
        }
        GateFree(before, g);
      }
    }
  }

  lemma RunNextRound(rounds: seq<Round>, r: Round)
    ensures RunOf([]) == (map[], [])
    ensures var (next, events) := RunOf(rounds);
            var (next', more) := RoundOf(next, r.now, r.visits);
            RunOf(rounds + [r]) == (next', events + more)
  {
    hide RoundOf;
    assert (rounds + [r])[..|rounds|] == rounds;
  }

  /**
   * When a device is tried, from the history alone. The next round tries a device that it finds open,
   * and does not see completed, exactly once if nothing holds it back or if the wait since its last
   * attempt is over, to the nanosecond: 10s after a failure, the refresh in seconds after a success,
   * 300s if that is zero. Otherwise it does not try it.
   */
  lemma AttemptedExactly(rounds: seq<Round>, r: Round, g: Guid, i: nat)
    requires Completed(g) !in r.visits
    ensures var past, all := RunOf(rounds).1, RunOf(rounds + [r]).1;
            && past <= all
            && var tries := Attempts(all[|past|..], g);
               && (!Opens(r.visits, g) ==> tries == 0)
               && (Opens(r.visits, g) && Free(past, g) ==> tries == 1)
               && (Opens(r.visits, g) && LastAttempt(past, g, i) ==>
                     tries == if r.now >= past[i].at + (match past[i].reply
                                                        case None => 10_000_000_000
                                                        case Some(refresh) =>
                                                          if refresh == 0 then 300_000_000_000
                                                          else refresh * 1_000_000_000)
                              then 1 else 0)
  {
    hide RoundOf, Gate, Spaced;
    var (next, past) := RunOf(rounds);
    var more := RoundOf(next, r.now, r.visits).1;
    RunNextRound(rounds, r);
    assert (past + more)[|past|..] == more;
    AttemptsAreSpaced(rounds);
    assert Lookup(next, g) == Gate(past, g);
    DueAttemptedOnce(next, r.now, r.visits, g);
    if LastAttempt(past, g, i) {
      GateOf(past, g, i);
      BackoffExact(past[i].reply);
    }
    if Free(past, g) { GateFree(past, g); }
  }
}
