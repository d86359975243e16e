/** The rendezvous server's blob table with expiry and cleanup, and the TTL it grants. Times are nanoseconds. */
module BlobStore {
  import opened Wrappers

  datatype Blob = Blob(rv: Bytes, voucher: Bytes, exp: int)

  datatype Error = NotFound | Undecodable

  type Rows = map<Guid, Blob>

  predicate Expired(b: Blob, now: int) { b.exp < now }

  /** RVBlob: an expired row is not found. */
  function Find(rows: Rows, g: Guid, now: int): Option<Blob> {
    if g in rows && !Expired(rows[g], now) then Some(rows[g]) else None
  }

  function Clean(rows: Rows, now: int): Rows { map g | g in rows && !Expired(rows[g], now) :: rows[g] }

  class BlobTable {
    var rows: Rows

    constructor ()
      ensures rows == map[]
    {
      rows := map[];
    }

    /** SetRVBlob; `fault` says whether marshalling or the save fails. */
    method SetRVBlob(g: Guid, b: Blob, fault: bool) returns (ok: bool)
      modifies this
      ensures ok == !fault
      ensures rows == if ok then old(rows)[g := b] else old(rows)
    {
      if fault {
        return false;
      }
      rows := rows[g := b];
      return true;
    }

    /** RVBlob; `to1d` and `voucher` say which stored bytes unmarshal. */
    method RVBlob(g: Guid, now: int, to1d: Bytes -> bool, voucher: Bytes -> bool) returns (r: Result<Blob, Error>)
      ensures r == Err(NotFound) <==> g !in rows || now > rows[g].exp
      ensures r.Ok? ==> r.value == rows[g] && now <= rows[g].exp
      ensures match Find(rows, g, now)
              case None => r == Err(NotFound)
              case Some(b) => r == if to1d(b.rv) && voucher(b.voucher) then Ok(b) else Err(Undecodable)
    {
      if g !in rows {
        return Err(NotFound);
      }
      if now > rows[g].exp {
        return Err(NotFound);
      }
      if !to1d(rows[g].rv) {
        return Err(Undecodable);
      }
      if !voucher(rows[g].voucher) {
        return Err(Undecodable);
      }
      return Ok(rows[g]);
    }

    /** Delete every expired row and report how many went. */
    method CleanupExpiredBlobs(now: int) returns (deleted: nat)
      modifies this
      ensures rows == Clean(old(rows), now)
      ensures forall g :: g in rows <==> g in old(rows) && old(rows)[g].exp >= now
      ensures forall g :: g in rows ==> rows[g] == old(rows)[g]
      ensures deleted == |old(rows)| - |rows|
    {
      var gone := set g | g in rows && rows[g].exp < now;
      ghost var before := rows;
      rows := rows - gone;
      deleted := |gone|;
      assert before.Keys == gone + rows.Keys;
      assert rows == Clean(before, now);
    }
  }

  // Runs ---------------------------------------------------------------------------------------

  datatype Event = Set(at: int, guid: Guid, blob: Blob) | Get(at: int, guid: Guid) | Cleanup(at: int)

  function Step(rows: Rows, e: Event): Rows {
    match e
    case Set(_, g, b) => rows[g := b]
    case Get(_, _) => rows
    case Cleanup(now) => Clean(rows, now)
  }

  function RowsAfter(events: seq<Event>): Rows {
    if events == [] then map[] else Step(RowsAfter(events[..|events| - 1]), events[|events| - 1])
  }

  /** What the lookups of the run return, in order. */
  function Answers(events: seq<Event>): seq<Option<Blob>> {
    if events == [] then []
    else
      var e := events[|events| - 1];
      Answers(events[..|events| - 1])
      + if e.Get? then [Find(RowsAfter(events[..|events| - 1]), e.guid, e.at)] else []
  }

  function WithoutCleanup(events: seq<Event>): seq<Event> {
    if events == [] then []
    else
      var e := events[|events| - 1];
      WithoutCleanup(events[..|events| - 1]) + if e.Cleanup? then [] else [e]
  }

  /** The clock never goes back. */
  predicate Monotone(events: seq<Event>) {
    forall i, j :: 0 <= i <= j < |events| ==> events[i].at <= events[j].at
  }

  /** The cleaned table lacks only rows that had expired by then. */
  ghost predicate Simulates(full: Rows, cleaned: Rows, now: int) {
    && (forall g :: g in cleaned ==> g in full && full[g] == cleaned[g])
    && (forall g :: g in full && g !in cleaned ==> Expired(full[g], now))
  }

  lemma SimulatesStep(full: Rows, cleaned: Rows, e: Event, now: int)
    requires Simulates(full, cleaned, e.at) && e.at <= now
    ensures Simulates(if e.Cleanup? then full else Step(full, e), Step(cleaned, e), now)
    ensures e.Get? ==> Find(full, e.guid, e.at) == Find(cleaned, e.guid, e.at)
  {
  }

  lemma {:induction false} CleanupSimulation(events: seq<Event>, now: int)
    requires Monotone(events) && forall i :: 0 <= i < |events| ==> events[i].at <= now
    ensures Simulates(RowsAfter(WithoutCleanup(events)), RowsAfter(events), now)
    ensures Answers(WithoutCleanup(events)) == Answers(events)
    decreases |events|
  {
    if events != [] {
      var n := |events| - 1;
      var before, e := events[..n], events[n];
      assert events[n].at <= now;
      CleanupSimulation(before, e.at);
      var w := WithoutCleanup(before);
      SimulatesStep(RowsAfter(w), RowsAfter(before), e, now);
      if !e.Cleanup? {
        assert (w + [e])[..|w|] == w;
      } else {
        assert w + [] == w;
      }
    }
  }

  /**
   * Cleanup is unobservable: under a clock that never goes back, running CleanupExpiredBlobs at any
   * points of any run changes no answer of RVBlob.
   */
  lemma CleanupUnobservable(events: seq<Event>)
    requires forall i, j :: 0 <= i < j < |events| ==> events[i].at <= events[j].at
    ensures Answers(WithoutCleanup(events)) == Answers(events)
  {
    if events != [] {
      CleanupSimulation(events, events[|events| - 1].at);
    }
  }

  lemma RunSnoc(events: seq<Event>, e: Event)
    ensures RowsAfter(events + [e]) == Step(RowsAfter(events), e)
    ensures Answers(events + [e])
            == Answers(events) + if e.Get? then [Find(RowsAfter(events), e.guid, e.at)] else []
    ensures WithoutCleanup(events + [e]) == WithoutCleanup(events) + if e.Cleanup? then [] else [e]
  {
    assert (events + [e])[..|events|] == events;
  }

  lemma NoEvents()
    ensures RowsAfter([]) == map[] && Answers([]) == [] && WithoutCleanup([]) == []
  {
  }

  /** The clock matters: one cleanup read from a later clock removes a blob that is still valid. */
  lemma ClockMustNotGoBack(g: Guid)
    ensures exists events :: !Monotone(events) && Answers(WithoutCleanup(events)) != Answers(events)
  {
    hide RowsAfter, Answers, WithoutCleanup;
    var set1, clean, get := Set(0, g, Blob([], [], 10)), Cleanup(11), Get(5, g);
    var e1 := [] + [set1];
    var e2 := e1 + [clean];
    var e3 := e2 + [get];
    NoEvents();
    RunSnoc([], set1);
    RunSnoc(e1, clean);
    RunSnoc(e2, get);
    RunSnoc(e1, get);
    assert RowsAfter(e2) == map[];
    assert WithoutCleanup(e3) == e1 + [get];
    assert Answers(e3) == [None] && Answers(e1 + [get]) == [Some(set1.blob)];
    assert e3[1].at > e3[2].at;
  }

  // What a lookup answers ----------------------------------------------------------------------

  /** Event i stored b for g, and no event before the n-th stored a blob for g after it. */
  predicate LastStored(events: seq<Event>, n: nat, g: Guid, i: nat, b: Blob)
    requires n <= |events|
  {
    && i < n && events[i].Set? && events[i].guid == g && events[i].blob == b
    && forall j :: i < j < n ==> !(events[j].Set? && events[j].guid == g)
  }

  predicate NeverStored(events: seq<Event>, n: nat, g: Guid)
    requires n <= |events|
  {
    forall j :: 0 <= j < n ==> !(events[j].Set? && events[j].guid == g)
  }

  /** The row of a GUID is the blob stored last for it, gone at most when it had expired. */
  lemma {:induction false} RowIsLastStored(events: seq<Event>, g: Guid, i: nat, b: Blob, now: int)
    requires Monotone(events) && LastStored(events, |events|, g, i, b)
    requires forall j :: 0 <= j < |events| ==> events[j].at <= now
    ensures var rows := RowsAfter(events);
            (g in rows ==> rows[g] == b) && (g !in rows ==> b.exp < now)
    decreases |events|
  {
    var n := |events| - 1;
    if i < n {
      var before := events[..n];
      assert LastStored(before, n, g, i, b) by {
        assert forall j :: 0 <= j < n ==> before[j] == events[j];
      }
      RowIsLastStored(before, g, i, b, now);
      assert events[n].at <= now;
    }
  }

  lemma {:induction false} NoRowWithoutStore(events: seq<Event>, g: Guid)
    requires NeverStored(events, |events|, g)
    ensures g !in RowsAfter(events)
    decreases |events|
  {
    if events != [] {
      var n := |events| - 1;
      assert forall j :: 0 <= j < n ==> events[..n][j] == events[j];
      NoRowWithoutStore(events[..n], g);
    }
  }

  /** A lookup answers with the blob stored last for the GUID until its expiry, and with nothing after. */
  lemma FindExactly(events: seq<Event>, g: Guid, now: int)
    requires Monotone(events) && forall j :: 0 <= j < |events| ==> events[j].at <= now
    ensures NeverStored(events, |events|, g) ==> Find(RowsAfter(events), g, now) == None
    ensures forall i, b :: LastStored(events, |events|, g, i, b) ==>
              Find(RowsAfter(events), g, now) == if b.exp < now then None else Some(b)
  {
    if NeverStored(events, |events|, g) { NoRowWithoutStore(events, g); }
    forall i, b | LastStored(events, |events|, g, i, b)
      ensures Find(RowsAfter(events), g, now) == if b.exp < now then None else Some(b)
    {
      RowIsLastStored(events, g, i, b, now);
    }
  }

  lemma {:induction false} AnswersLength(events: seq<Event>)
    ensures |Answers(events)| == |set k | 0 <= k < |events| && events[k].Get?|
    decreases |events|
  {
    if events != [] {
      var n := |events| - 1;
      AnswersLength(events[..n]);
      var gets, before := set k | 0 <= k < |events| && events[k].Get?, set k | 0 <= k < n && events[..n][k].Get?;
      assert gets == before + if events[n].Get? then {n} else {};
    }
  }

  /**
   * Every answer of a run, cleanups included: a lookup at time t returns the blob stored last before
   * it if that expires at t or later, and nothing if it expired earlier or none was stored.
   */
  lemma {:induction false} AnswersExactly(events: seq<Event>, k: nat)
    requires Monotone(events) && k < |events| && events[k].Get?
    ensures var g, t := events[k].guid, events[k].at;
            var place := |Answers(events[..k])|;
            && place < |Answers(events)|
            && (NeverStored(events, k, g) ==> Answers(events)[place] == None)
            && forall i, b :: LastStored(events, k, g, i, b) ==>
                 Answers(events)[place] == if b.exp < t then None else Some(b)
    decreases |events|
  {
    var n := |events| - 1;
    var before, g, t := events[..k], events[k].guid, events[k].at;
    if k < n {
      assert events[..n][..k] == before;
      AnswersExactly(events[..n], k);
      assert forall j :: 0 <= j < k ==> events[..n][j] == events[j];
      assert forall i, b :: LastStored(events, k, g, i, b) ==> LastStored(events[..n], k, g, i, b);
    } else {
      FindExactly(before, g, t);
      assert forall i, b :: LastStored(events, k, g, i, b) ==> LastStored(before, k, g, i, b);
    }
  }

  // Admission ----------------------------------------------------------------------------------

  /** acceptVoucher: the TTL granted for a request, or a refusal. */
  function AcceptVoucher(chainVerifies: bool, minWait: u32, maxWait: u32, requested: u32): (ttl: Option<u32>)
    ensures ttl.Some? ==> minWait <= requested && ttl.value == if requested < maxWait then requested else maxWait
    ensures ttl.None? <==> !chainVerifies || requested < minWait
  {
    if !chainVerifies then None
    else if minWait > 0 && requested < minWait then None
    else if requested > maxWait then Some(maxWait)
    else Some(requested)
  }
}
