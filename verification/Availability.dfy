/**
 * Owner scheduler and rendezvous server together: how long a pending device's blob can be missing.
 */
module Availability {
  import opened Wrappers
  import S = To0Scheduler
  import B = BlobStore
  import O = OwnerSystem
  import D = OwnerStore

  /** A scheduler round, and the instant at which the server accepts our GUID if the round tries it. */
  datatype Round = Round(start: int, visits: seq<S.Visit>, acceptAt: int)

  /** A round accepts within length of its start, and the starts are at most gap apart. */
  ghost predicate WellTimed(rounds: seq<Round>, gap: int, length: int) {
    && (forall k :: 0 <= k < |rounds| ==> rounds[k].start <= rounds[k].acceptAt <= rounds[k].start + length)
    && (forall k :: 0 <= k < |rounds| - 1 ==> rounds[k + 1].start <= rounds[k].start + gap)
  }

  /** The bounds are inclusive. */
  lemma TightRounds(start: int, gap: nat, length: nat, visits: seq<S.Visit>)
    ensures WellTimed([Round(start, visits, start), Round(start + gap, visits, start + gap + length)], gap, length)
  {
  }

  /** Every round finds g open, none finds it completed, and every attempt is answered with ttl. */
  ghost predicate PendingThroughout(rounds: seq<Round>, g: Guid, ttl: u32) {
    forall k :: 0 <= k < |rounds| ==> FindsOpen(rounds[k].visits, g, ttl)
  }

  ghost predicate FindsOpen(visits: seq<S.Visit>, g: Guid, ttl: u32) {
    S.Opens(visits, g) && OnlyAnswers(visits, g, ttl)
  }

  ghost predicate OnlyAnswers(visits: seq<S.Visit>, g: Guid, ttl: u32) {
    && !S.Completes(visits, g)
    && forall i :: 0 <= i < |visits| && visits[i].Open? && visits[i].guid == g ==> visits[i].reply == Some(ttl)
  }

  /** The schedule before round k, from any schedule the scheduler may have had. */
  function ScheduleAt(first: S.Schedule, rounds: seq<Round>, k: nat): S.Schedule
    requires k <= |rounds|
  {
    if k == 0 then first
    else S.RoundOf(ScheduleAt(first, rounds, k - 1), rounds[k - 1].start, rounds[k - 1].visits).0
  }

  predicate Registers(first: S.Schedule, rounds: seq<Round>, g: Guid, k: nat)
    requires k < |rounds|
  {
    S.Due(ScheduleAt(first, rounds, k), rounds[k].start, g)
  }

  /** After a round that finds g open, g waits ttl from the start of the last round that tried it. */
  lemma {:induction false} RoundSchedules(next: S.Schedule, now: int, visits: seq<S.Visit>, g: Guid, ttl: u32)
    requires OnlyAnswers(visits, g, ttl)
    ensures S.Lookup(S.RoundOf(next, now, visits).0, g)
            == if S.Due(next, now, g) && S.Opens(visits, g) then Some(now + S.Backoff(Some(ttl)))
               else S.Lookup(next, g)
    decreases |visits|
  {
    if visits != [] {
      var n := |visits| - 1;
      var v := visits[n];
      assert v in visits;
      assert forall x :: x in visits[..n] ==> x in visits;
      RoundSchedules(next, now, visits[..n], g, ttl);
      S.OpensSnoc(visits, g);
      S.BackoffExact(Some(ttl));
      if !v.Undecodable? && S.Key(v.guid) == S.Key(g) { S.KeyInjective(v.guid, g); }
    }
  }

  /** Every stored blob of g expires ttl after it was accepted. */
  ghost predicate ExpireAfter(rv: seq<B.Event>, g: Guid, wait: int) {
    forall i :: 0 <= i < |rv| && rv[i].Set? && rv[i].guid == g ==> rv[i].blob.exp == rv[i].at + wait
  }

  /** Each registration of the first n rounds stores a blob of g at its accept time. */
  ghost predicate Stores(rv: seq<B.Event>, first: S.Schedule, rounds: seq<Round>, g: Guid, n: nat)
    requires n <= |rounds|
  {
    n == 0
    || (&& (Registers(first, rounds, g, n - 1) ==> StoredAt(rv, g, rounds[n - 1].acceptAt))
        && Stores(rv, first, rounds, g, n - 1))
  }

  lemma {:induction false} StoresAt(rv: seq<B.Event>, first: S.Schedule, rounds: seq<Round>, g: Guid, n: nat, k: nat)
    requires k < n <= |rounds| && Stores(rv, first, rounds, g, n) && Registers(first, rounds, g, k)
    ensures StoredAt(rv, g, rounds[k].acceptAt)
  {
    if k < n - 1 { StoresAt(rv, first, rounds, g, n - 1, k); }
  }

  ghost predicate StoredAt(rv: seq<B.Event>, g: Guid, at: int) {
    exists i :: 0 <= i < |rv| && rv[i].Set? && rv[i].guid == g && rv[i].at == at
  }

  lemma StoredAtExactly(rv: seq<B.Event>, g: Guid, at: int)
    ensures StoredAt(rv, g, at) <==> exists e :: e in rv && e.Set? && e.guid == g && e.at == at
  {
  }

  /** How many events of the run have happened by time t. */
  function Happened(rv: seq<B.Event>, t: int): (n: nat)
    ensures n <= |rv|
    ensures forall i :: 0 <= i < n ==> rv[i].at <= t
    ensures n < |rv| ==> rv[n].at > t
  {
    if rv == [] || rv[0].at > t then 0 else 1 + Happened(rv[1..], t)
  }

  /** A device asking at time t gets a blob. */
  predicate Visible(rv: seq<B.Event>, g: Guid, t: int) {
    B.Find(B.RowsAfter(rv[..Happened(rv, t)]), g, t).Some?
  }

  lemma {:induction false} RowStays(rv: seq<B.Event>, g: Guid, wait: int, t: int, i: nat)
    requires B.Monotone(rv) && ExpireAfter(rv, g, wait)
    requires i < |rv| && rv[i].Set? && rv[i].guid == g && t <= rv[i].at + wait
    requires forall j :: 0 <= j < |rv| ==> rv[j].at <= t
    ensures B.Find(B.RowsAfter(rv), g, t).Some?
    decreases |rv|
  {
    var n := |rv| - 1;
    assert rv[i].at <= rv[n].at <= t;
    if i < n {
      var before := rv[..n];
      assert forall j :: 0 <= j < n ==> before[j] == rv[j];
      RowStays(before, g, wait, t, i);
    }
  }

  /** A blob stored at most wait before t is visible at t, whatever else is stored or cleaned up. */
  lemma VisibleAfterStore(rv: seq<B.Event>, g: Guid, wait: int, at: int, t: int)
    requires B.Monotone(rv) && ExpireAfter(rv, g, wait) && StoredAt(rv, g, at) && at <= t <= at + wait
    ensures Visible(rv, g, t)
  {
    var i :| 0 <= i < |rv| && rv[i].Set? && rv[i].guid == g && rv[i].at == at;
    var n := Happened(rv, t);
    assert n < |rv| ==> rv[n].at <= rv[i].at || i < n;
    var prefix := rv[..n];
    assert prefix[i] == rv[i];
    assert forall j :: 0 <= j < n ==> prefix[j] == rv[j];
    RowStays(prefix, g, wait, t, i);
  }

  /** Event i stored b for g by time t, and nothing was stored for g between it and t. */
  ghost predicate StoredLast(rv: seq<B.Event>, g: Guid, t: int, i: nat, b: B.Blob) {
    && i < |rv| && rv[i].Set? && rv[i].guid == g && rv[i].blob == b && rv[i].at <= t
    && forall j :: i < j < |rv| && rv[j].Set? && rv[j].guid == g ==> rv[j].at > t
  }

  /** Some blob was stored last as soon as any was stored. */
  lemma {:induction false} SomeStoredLast(rv: seq<B.Event>, g: Guid, t: int)
    ensures (exists i, b :: StoredLast(rv, g, t, i, b))
            <==> exists e :: e in rv && e.Set? && e.guid == g && e.at <= t
    decreases |rv|
  {
    if rv != [] {
      var n := |rv| - 1;
      var before := rv[..n];
      SomeStoredLast(before, g, t);
      assert rv == before + [rv[n]];
      if rv[n].Set? && rv[n].guid == g && rv[n].at <= t {
        assert StoredLast(rv, g, t, n, rv[n].blob);
      } else {
        if i: nat, b :| StoredLast(before, g, t, i, b) { assert StoredLast(rv, g, t, i, b); }
        if i: nat, b :| StoredLast(rv, g, t, i, b) { assert rv[i] in before; }
      }
    }
  }

  /** A device is visible exactly until the blob stored last for it expires. */
  lemma VisibleExactly(rv: seq<B.Event>, g: Guid, t: int, i: nat, b: B.Blob)
    requires B.Monotone(rv) && StoredLast(rv, g, t, i, b)
    ensures Visible(rv, g, t) <==> t <= b.exp
  {
    var n := Happened(rv, t);
    var prefix := rv[..n];
    assert n < |rv| ==> rv[n].at <= rv[i].at || i < n;
    assert forall j :: 0 <= j < n ==> prefix[j] == rv[j];
    assert B.LastStored(prefix, n, g, i, b);
    B.FindExactly(prefix, g, t);
  }

  /** The last round before k that registers g, given that round i does. */
  lemma {:induction false} ScheduleAfter(first: S.Schedule, rounds: seq<Round>, g: Guid, ttl: u32, i: nat, k: nat)
    requires PendingThroughout(rounds, g, ttl) && i < k <= |rounds| && Registers(first, rounds, g, i)
    requires forall m :: i < m < k ==> !Registers(first, rounds, g, m)
    ensures S.Lookup(ScheduleAt(first, rounds, k), g) == Some(rounds[i].start + S.Backoff(Some(ttl)))
    decreases k
  {
    var prev := rounds[k - 1];
    assert FindsOpen(prev.visits, g, ttl);
    RoundSchedules(ScheduleAt(first, rounds, k - 1), prev.start, prev.visits, g, ttl);
    if i < k - 1 {
      assert !Registers(first, rounds, g, k - 1);
      ScheduleAfter(first, rounds, g, ttl, i, k - 1);
    }
  }

  /** The first round after i that registers g again starts at most wait + gap after round i. */
  lemma {:induction false} NextRegistration(first: S.Schedule, rounds: seq<Round>, g: Guid, ttl: u32,
                                            gap: int, length: int, i: nat, k: nat) returns (j: nat)
    requires WellTimed(rounds, gap, length) && PendingThroughout(rounds, g, ttl) && gap >= 0
    requires i < k < |rounds| && Registers(first, rounds, g, i)
    requires forall m :: i < m < k ==> !Registers(first, rounds, g, m)
    requires rounds[k - 1].start < rounds[i].start + S.Backoff(Some(ttl)) <= rounds[|rounds| - 1].start
    ensures k <= j < |rounds| && Registers(first, rounds, g, j)
    ensures rounds[j].start <= rounds[i].start + S.Backoff(Some(ttl)) + gap
    decreases |rounds| - k
  {
    ScheduleAfter(first, rounds, g, ttl, i, k);
    if rounds[k].start >= rounds[i].start + S.Backoff(Some(ttl)) {
      assert rounds[k - 1 + 1].start <= rounds[k - 1].start + gap;
      j := k;
    } else {
      j := NextRegistration(first, rounds, g, ttl, gap, length, i, k + 1);
    }
  }

  /** The last registration accepted by time t, given one. */
  lemma {:induction false} LastAccepted(first: S.Schedule, rounds: seq<Round>, g: Guid, t: int, p: nat, k: nat)
    returns (i: nat)
    requires p < k <= |rounds| && Registers(first, rounds, g, p) && rounds[p].acceptAt <= t
    ensures i < k && Registers(first, rounds, g, i) && rounds[i].acceptAt <= t
    ensures forall m :: i < m < k && Registers(first, rounds, g, m) ==> rounds[m].acceptAt > t
    decreases k
  {
    if Registers(first, rounds, g, k - 1) && rounds[k - 1].acceptAt <= t {
      i := k - 1;
    } else {
      i := LastAccepted(first, rounds, g, t, p, k - 1);
    }
  }

  /** Timing alone: some registration is accepted less than wait before `from`, or between from and to. */
  lemma AcceptNearby(first: S.Schedule, rounds: seq<Round>, g: Guid, ttl: u32,
                     gap: int, length: int, p: nat, from: int, to: int) returns (j: nat)
    requires ttl > 0 && PendingThroughout(rounds, g, ttl) && WellTimed(rounds, gap, length) && gap >= 0
    requires p < |rounds| && Registers(first, rounds, g, p) && rounds[p].acceptAt <= from
    requires from + gap + length < to <= rounds[|rounds| - 1].start
    ensures j < |rounds| && Registers(first, rounds, g, j)
    ensures rounds[j].acceptAt <= from <= rounds[j].acceptAt + ttl * S.SECOND || from <= rounds[j].acceptAt <= to
  {
    hide Registers, PendingThroughout, ScheduleAt;
    var i := LastAccepted(first, rounds, g, from, p, |rounds|);
    if from <= rounds[i].acceptAt + ttl * S.SECOND {
      j := i;
    } else {
      j := NextRegistration(first, rounds, g, ttl, gap, length, i, i + 1);
      assert rounds[j].acceptAt > from;
    }
  }

  lemma VisibleNearby(rv: seq<B.Event>, g: Guid, wait: int, at: int, from: int, to: int)
    requires B.Monotone(rv) && ExpireAfter(rv, g, wait) && StoredAt(rv, g, at) && wait >= 0 && from <= to
    requires at <= from <= at + wait || from <= at <= to
    ensures exists t :: from <= t <= to && Visible(rv, g, t)
  {
    var t := if at <= from then from else at;
    VisibleAfterStore(rv, g, wait, at, t);
    assert Visible(rv, g, t);
  }

  /**
   * The two settings the bound needs: the server grants the scheduler's request with a TTL that the
   * owner then waits for, exactly when the maximum is positive and the minimum is at most 300. A
   * maximum of zero grants a TTL of zero, which the owner reads as 300 seconds.
   */
  lemma RefreshMatchesExpiry(minWait: u32, maxWait: u32)
    ensures var ttl := B.AcceptVoucher(true, minWait, maxWait, S.DEFAULT_TTL);
            && (ttl.Some? && S.Backoff(ttl) == ttl.value * S.SECOND <==> 0 < maxWait && minWait <= S.DEFAULT_TTL)
            && (minWait <= S.DEFAULT_TTL && maxWait == 0 ==> ttl == Some(0) && S.Backoff(ttl) == 300 * S.SECOND)
  {
    S.BackoffExact(B.AcceptVoucher(true, minWait, maxWait, S.DEFAULT_TTL));
  }

  /**
   * End to end. The server grants the TTL that acceptVoucher gives to the scheduler's request of
   * 300s, stores the blob until accept time plus TTL, and returns that TTL as the refresh. If the
   * maximum is positive and the minimum at most 300, then from any registration on, while rounds
   * keep finding the device pending, no stretch longer than gap + length passes without the blob
   * being visible, whatever cleanups and other registrations the server handles.
   */
  lemma BlobGapBounded(first: S.Schedule, rounds: seq<Round>, rv: seq<B.Event>, g: Guid,
                       minWait: u32, maxWait: u32, gap: int, length: int, p: nat, from: int, to: int)
    requires 0 < maxWait && minWait <= S.DEFAULT_TTL
    requires var ttl := B.AcceptVoucher(true, minWait, maxWait, S.DEFAULT_TTL).value;
             PendingThroughout(rounds, g, ttl) && ExpireAfter(rv, g, ttl * S.SECOND)
    requires WellTimed(rounds, gap, length) && gap >= 0
    requires B.Monotone(rv) && Stores(rv, first, rounds, g, |rounds|)
    requires p < |rounds| && Registers(first, rounds, g, p) && rounds[p].acceptAt <= from
    requires length >= 0 && from + gap + length < to <= rounds[|rounds| - 1].start
    ensures exists t :: from <= t <= to && Visible(rv, g, t)
  {
    var ttl := B.AcceptVoucher(true, minWait, maxWait, S.DEFAULT_TTL).value;
    var j := AcceptNearby(first, rounds, g, ttl, gap, length, p, from, to);
    StoresAt(rv, first, rounds, g, |rounds|, j);
    VisibleNearby(rv, g, ttl * S.SECOND, rounds[j].acceptAt, from, to);
  }

  // Runs of the owner system -------------------------------------------------------------------

  /** A round of the owner system: its listing, all steps up to the next one, and when g is accepted. */
  datatype OwnerRound = OwnerRound(at: int, order: seq<Guid>, steps: seq<O.Step>, acceptAt: int)

  function Begun(header: O.Header, s: O.State, r: OwnerRound): O.State {
    O.Next(header, s, O.StartRound(r.at, r.order)).0
  }

  function Played(header: O.Header, s: O.State, r: OwnerRound): (O.State, seq<S.Event>) {
    O.Run(header, s, [O.StartRound(r.at, r.order)] + r.steps)
  }

  /** The owner before round k. */
  function StateAt(header: O.Header, s: O.State, rs: seq<OwnerRound>, k: nat): O.State
    requires k <= |rs|
  {
    if k == 0 then s else Played(header, StateAt(header, s, rs, k - 1), rs[k - 1]).0
  }

  predicate Attempts(header: O.Header, s: O.State, rs: seq<OwnerRound>, g: Guid, k: nat)
    requires k < |rs|
  {
    S.Attempts(Played(header, StateAt(header, s, rs, k), rs[k]).1, g) > 0
  }

  /** Every registration of g is answered with ttl. */
  predicate Answered(header: O.Header, s: O.State, steps: seq<O.Step>, g: Guid, ttl: u32)
    decreases |steps|
  {
    steps == []
    || (&& (steps[0].Register? && s.open == Some(g) ==> steps[0].reply == Some(ttl))
        && Answered(header, O.Next(header, s, steps[0]).0, steps[1..], g, ttl))
  }

  /**
   * A whole round on tables where g is pending and its voucher decodes, each of whose completion
   * checks of g works and finds it open, and each of whose registrations of g is granted ttl.
   */
  predicate OpenRound(header: O.Header, s: O.State, r: OwnerRound, g: Guid, ttl: u32) {
    && s.batch == [] && s.open.None? && O.Lists(s.tables, r.order)
    && g in D.Pending(s.tables) && header(s.tables.vouchers[g].cbor) == Some(g)
    && O.StaysOpen(header, Begun(header, s, r), r.steps, g)
    && Answered(header, Begun(header, s, r), r.steps, g, ttl)
    && Played(header, s, r).0.batch == [] && Played(header, s, r).0.open.None?
  }

  predicate OpenRounds(header: O.Header, s: O.State, rs: seq<OwnerRound>, g: Guid, ttl: u32) {
    forall k :: 0 <= k < |rs| ==> OpenRound(header, StateAt(header, s, rs, k), rs[k], g, ttl)
  }

  /** The same round as the sequential scheduler sees it. */
  function RoundOf(header: O.Header, s: O.State, r: OwnerRound, ttl: u32): Round {
    Round(r.at, O.VisitsOf(header, Begun(header, s, r), r.steps, Some(ttl)), r.acceptAt)
  }

  function RoundsOf(header: O.Header, s: O.State, rs: seq<OwnerRound>, ttl: u32): (rounds: seq<Round>)
    ensures |rounds| == |rs|
    ensures forall k :: 0 <= k < |rs| ==> rounds[k] == RoundOf(header, StateAt(header, s, rs, k), rs[k], ttl)
  {
    seq(|rs|, k requires 0 <= k < |rs| => RoundOf(header, StateAt(header, s, rs, k), rs[k], ttl))
  }

  lemma OnlyAnswersConcat(a: seq<S.Visit>, b: seq<S.Visit>, g: Guid, ttl: u32)
    requires OnlyAnswers(a, g, ttl) && OnlyAnswers(b, g, ttl)
    ensures OnlyAnswers(a + b, g, ttl)
    ensures S.Opens(a + b, g) <==> S.Opens(a, g) || S.Opens(b, g)
  {
    var c := a + b;
    if i :| 0 <= i < |a| && a[i].Open? && a[i].guid == g { assert c[i] == a[i]; }
    if i :| 0 <= i < |b| && b[i].Open? && b[i].guid == g { assert c[|a| + i] == b[i]; }
  }

  /** What one step of such a round finishes, and what it leaves to do. */
  lemma StepFinds(header: O.Header, s: O.State, step: O.Step, g: Guid, ttl: u32)
    requires !step.StartRound?
    requires step.Check? && s.batch != [] && s.open.None? && header(s.batch[0].cbor) == Some(g)
             ==> step.works && !D.IsTO2Completed(s.tables, g)
    requires step.Register? && s.open == Some(g) ==> step.reply == Some(ttl)
    ensures var visits := O.Emits(header, s, step, Some(ttl));
            var s' := O.Next(header, s, step).0;
            && OnlyAnswers(visits, g, ttl)
            && (s.open == Some(g) || O.Waiting(header, s.batch, g)
                <==> S.Opens(visits, g) || s'.open == Some(g) || O.Waiting(header, s'.batch, g))
  {
    var visits := O.Emits(header, s, step, Some(ttl));
    var s' := O.Next(header, s, step).0;
    if visits != [] { assert visits == [visits[0]]; }
    if step.Check? && s.batch != [] && s.open.None? {
      assert O.Waiting(header, s.batch, g)
             <==> header(s.batch[0].cbor) == Some(g) || O.Waiting(header, s'.batch, g) by {
        if i :| 0 <= i < |s'.batch| && header(s'.batch[i].cbor) == Some(g) { assert s.batch[i + 1] == s'.batch[i]; }
        if i :| 0 < i < |s.batch| && header(s.batch[i].cbor) == Some(g) { assert s'.batch[i - 1] == s.batch[i]; }
      }
    }
  }

  lemma {:induction false} VisitsFind(header: O.Header, s: O.State, steps: seq<O.Step>, g: Guid, ttl: u32)
    requires O.StaysOpen(header, s, steps, g) && Answered(header, s, steps, g, ttl)
    requires var s' := O.Run(header, s, steps).0; s'.batch == [] && s'.open.None?
    ensures var visits := O.VisitsOf(header, s, steps, Some(ttl));
            && OnlyAnswers(visits, g, ttl)
            && (S.Opens(visits, g) <==> s.open == Some(g) || O.Waiting(header, s.batch, g))
    decreases |steps|
  {
    hide O.Next, O.Emits, OnlyAnswers, S.Opens;
    if steps == [] {
      NothingVisited(g, ttl);
    } else {
      var s' := O.Next(header, s, steps[0]).0;
      StepFinds(header, s, steps[0], g, ttl);
      VisitsFind(header, s', steps[1..], g, ttl);
      OnlyAnswersConcat(O.Emits(header, s, steps[0], Some(ttl)), O.VisitsOf(header, s', steps[1..], Some(ttl)), g, ttl);
    }
  }

  lemma NothingVisited(g: Guid, ttl: u32)
    ensures OnlyAnswers([], g, ttl) && !S.Opens([], g)
  {
  }

  lemma {:induction false} NoStart(header: O.Header, s: O.State, steps: seq<O.Step>, g: Guid)
    requires O.StaysOpen(header, s, steps, g)
    ensures forall i :: 0 <= i < |steps| ==> !steps[i].StartRound?
    decreases |steps|
  {
    if steps != [] {
      NoStart(header, O.Next(header, s, steps[0]).0, steps[1..], g);
      assert forall i :: 1 <= i < |steps| ==> steps[i] == steps[1..][i - 1];
    }
  }

  /** The listing of a round in which g is pending has a row of g. */
  lemma ListedWaits(header: O.Header, s: O.State, r: OwnerRound, g: Guid)
    requires s.batch == [] && s.open.None? && O.Lists(s.tables, r.order)
    requires g in D.Pending(s.tables) && header(s.tables.vouchers[g].cbor) == Some(g)
    ensures var b := Begun(header, s, r); b.next == s.next && b.now == r.at && b.open.None? && O.Waiting(header, b.batch, g)
    ensures Played(header, s, r) == O.Run(header, Begun(header, s, r), r.steps)
  {
    var b, row := Begun(header, s, r), s.tables.vouchers[g];
    assert row in b.batch;
    var i :| 0 <= i < |b.batch| && b.batch[i] == row;
    var all := [O.StartRound(r.at, r.order)] + r.steps;
    assert all[1..] == r.steps;
    assert [] + O.Run(header, b, r.steps).1 == O.Run(header, b, r.steps).1;
  }

  /** Such a round of the owner system, requests and all, is a round that finds g open. */
  lemma OpenRoundFinds(header: O.Header, s: O.State, r: OwnerRound, g: Guid, ttl: u32)
    requires OpenRound(header, s, r, g, ttl)
    ensures var round := RoundOf(header, s, r, ttl);
            && FindsOpen(round.visits, g, ttl)
            && Played(header, s, r) == (Played(header, s, r).0, S.RoundOf(s.next, r.at, round.visits).1)
            && Played(header, s, r).0.next == S.RoundOf(s.next, r.at, round.visits).0
            && S.Attempts(Played(header, s, r).1, g) == if S.Due(s.next, r.at, g) then 1 else 0
  {
    hide O.Next, O.StaysOpen, Answered, O.Lists, O.VisitsOf;
    var b := Begun(header, s, r);
    ListedWaits(header, s, r, g);
    NoStart(header, b, r.steps, g);
    O.RunIsRound(header, b, r.steps, Some(ttl));
    VisitsFind(header, b, r.steps, g, ttl);
    O.PendingAttemptedOnce(header, s, r.at, r.order, r.steps, g);
  }

  lemma ScheduleStep(first: S.Schedule, rounds: seq<Round>, k: nat)
    requires k <= |rounds|
    ensures ScheduleAt(first, rounds, k)
            == if k == 0 then first
               else S.RoundOf(ScheduleAt(first, rounds, k - 1), rounds[k - 1].start, rounds[k - 1].visits).0
  {
    hide S.RoundOf;
  }

  lemma StateStep(header: O.Header, s: O.State, rs: seq<OwnerRound>, k: nat)
    requires k <= |rs|
    ensures StateAt(header, s, rs, k)
            == if k == 0 then s else Played(header, StateAt(header, s, rs, k - 1), rs[k - 1]).0
  {
    hide Played;
  }

  lemma {:induction false} SchedulesAgree(header: O.Header, s: O.State, rs: seq<OwnerRound>, g: Guid, ttl: u32, k: nat)
    requires k <= |rs| && OpenRounds(header, s, rs, g, ttl)
    ensures ScheduleAt(s.next, RoundsOf(header, s, rs, ttl), k) == StateAt(header, s, rs, k).next
  {
    hide *;
    ScheduleStep(s.next, RoundsOf(header, s, rs, ttl), k);
    StateStep(header, s, rs, k);
    if k > 0 {
      SchedulesAgree(header, s, rs, g, ttl, k - 1);
      var before := StateAt(header, s, rs, k - 1);
      OpenRoundAt(header, s, rs, g, ttl, k - 1);
      OpenRoundFinds(header, before, rs[k - 1], g, ttl);
      RoundStart(header, before, rs[k - 1], ttl);
    }
  }

  lemma OpenRoundAt(header: O.Header, s: O.State, rs: seq<OwnerRound>, g: Guid, ttl: u32, k: nat)
    requires k < |rs| && OpenRounds(header, s, rs, g, ttl)
    ensures OpenRound(header, StateAt(header, s, rs, k), rs[k], g, ttl)
  {
    hide OpenRound, StateAt;
  }

  lemma RoundStart(header: O.Header, s: O.State, r: OwnerRound, ttl: u32)
    ensures RoundOf(header, s, r, ttl).start == r.at && RoundOf(header, s, r, ttl).acceptAt == r.acceptAt
  {
  }

  /** A run of the owner system whose rounds find g open is a run of the sequential scheduler that does. */
  lemma OwnerRunIsScheduler(header: O.Header, s: O.State, rs: seq<OwnerRound>, g: Guid, ttl: u32)
    requires OpenRounds(header, s, rs, g, ttl)
    ensures var rounds := RoundsOf(header, s, rs, ttl);
            && PendingThroughout(rounds, g, ttl)
            && forall k :: 0 <= k < |rs| ==>
                 && rounds[k].start == rs[k].at && rounds[k].acceptAt == rs[k].acceptAt
                 && (Registers(s.next, rounds, g, k) <==> Attempts(header, s, rs, g, k))
  {
    hide Played, RoundOf, OpenRound, OpenRounds, ScheduleAt, StateAt, FindsOpen;
    var rounds := RoundsOf(header, s, rs, ttl);
    forall k | 0 <= k < |rs|
      ensures FindsOpen(rounds[k].visits, g, ttl)
      ensures rounds[k].start == rs[k].at && rounds[k].acceptAt == rs[k].acceptAt
      ensures Registers(s.next, rounds, g, k) <==> Attempts(header, s, rs, g, k)
    {
      var before := StateAt(header, s, rs, k);
      OpenRoundAt(header, s, rs, g, ttl, k);
      OpenRoundFinds(header, before, rs[k], g, ttl);
      SchedulesAgree(header, s, rs, g, ttl, k);
      RoundStart(header, before, rs[k], ttl);
    }
  }

  lemma {:induction false} StoresFrom(rv: seq<B.Event>, first: S.Schedule, rounds: seq<Round>, g: Guid, n: nat)
    requires n <= |rounds|
    requires forall k :: 0 <= k < |rounds| && Registers(first, rounds, g, k) ==> StoredAt(rv, g, rounds[k].acceptAt)
    ensures Stores(rv, first, rounds, g, n)
  {
    hide Registers, StoredAt;
    if n > 0 { StoresFrom(rv, first, rounds, g, n - 1); }
  }

  lemma AttemptsStored(header: O.Header, s: O.State, rs: seq<OwnerRound>, g: Guid, ttl: u32, rv: seq<B.Event>)
    requires OpenRounds(header, s, rs, g, ttl)
    requires forall k :: 0 <= k < |rs| && Attempts(header, s, rs, g, k) ==> StoredAt(rv, g, rs[k].acceptAt)
    ensures Stores(rv, s.next, RoundsOf(header, s, rs, ttl), g, |rs|)
  {
    hide *;
    var rounds := RoundsOf(header, s, rs, ttl);
    OwnerRunIsScheduler(header, s, rs, g, ttl);
    StoresFrom(rv, s.next, rounds, g, |rs|);
  }

  /**
   * The bound for runs of the owner system itself, with requests between any two of its steps: the
   * device is pending when each round starts and every completion check of it finds it open. If each
   * attempt is accepted and stored for the TTL granted, then from the first attempt on the blob is
   * never invisible for longer than gap + length.
   */
  lemma OwnerBlobGapBounded(header: O.Header, s: O.State, rs: seq<OwnerRound>, rv: seq<B.Event>, g: Guid,
                            minWait: u32, maxWait: u32, gap: int, length: int, p: nat, from: int, to: int)
    requires 0 < maxWait && minWait <= S.DEFAULT_TTL
    requires var ttl := B.AcceptVoucher(true, minWait, maxWait, S.DEFAULT_TTL).value;
             && OpenRounds(header, s, rs, g, ttl) && ExpireAfter(rv, g, ttl * S.SECOND)
             && WellTimed(RoundsOf(header, s, rs, ttl), gap, length)
    requires B.Monotone(rv) && gap >= 0 && length >= 0
    requires forall k :: 0 <= k < |rs| && Attempts(header, s, rs, g, k) ==> StoredAt(rv, g, rs[k].acceptAt)
    requires p < |rs| && Attempts(header, s, rs, g, p) && rs[p].acceptAt <= from
    requires from + gap + length < to <= rs[|rs| - 1].at
    ensures exists t :: from <= t <= to && Visible(rv, g, t)
  {
    hide *;
    var ttl := B.AcceptVoucher(true, minWait, maxWait, S.DEFAULT_TTL).value;
    var rounds := RoundsOf(header, s, rs, ttl);
    OwnerRunIsScheduler(header, s, rs, g, ttl);
    AttemptsStored(header, s, rs, g, ttl, rv);
    BlobGapBounded(s.next, rounds, rv, g, minWait, maxWait, gap, length, p, from, to);
  }
}
