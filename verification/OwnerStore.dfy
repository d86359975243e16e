/**
 * The owner's `vouchers` and `device_onboarding` tables, and the transactions that change them.
 * A transaction works on the tables in place and restores its snapshot when a statement fails.
 */
module OwnerStore {
  import opened Wrappers

  datatype VoucherRow = VoucherRow(cbor: Bytes, deviceInfo: string)

  datatype Onboarding = Onboarding(newGuid: Option<Guid>, completed: bool)

  datatype Tables = Tables(vouchers: map<Guid, VoucherRow>, onboarding: map<Guid, Onboarding>)

  /** Whether stored bytes unmarshal as a voucher. */
  type Decoder = Bytes -> bool

  /** The statement of a transaction at which the database reports an error, if any. */
  type Fault = Option<nat>

  datatype Op =
    | Insert(guid: Guid, row: VoucherRow)
    | Add(guid: Guid, row: VoucherRow)
    | Replace(guid: Guid, newGuid: Guid, row: VoucherRow)
    | Remove(guid: Guid)
    | Resell(guid: Guid, extendable: bool)

  // Statements ---------------------------------------------------------------------------------

  function PutVoucher(t: Tables, g: Guid, row: VoucherRow): Tables { t.(vouchers := t.vouchers[g := row]) }

  function DropVoucher(t: Tables, g: Guid): Tables { t.(vouchers := t.vouchers - {g}) }

  function PutOnboarding(t: Tables, g: Guid, r: Onboarding): Tables { t.(onboarding := t.onboarding[g := r]) }

  function DropOnboarding(t: Tables, g: Guid): Tables { t.(onboarding := t.onboarding - {g}) }

  /** FirstOrCreate without attributes: an existing row is left alone. */
  function EnsureOnboarding(t: Tables, g: Guid): Tables {
    if g in t.onboarding then t else PutOnboarding(t, g, Onboarding(None, false))
  }

  // What each transaction leaves behind --------------------------------------------------------

  function Succeeds(decodes: Decoder, t: Tables, op: Op, fault: Fault): bool {
    match op
    case Insert(g, _) => g !in t.vouchers && fault.None?
    case Add(g, _) => g !in t.vouchers && fault.None?
    case Replace(g, n, _) => (n !in t.vouchers || n == g) && fault.None?
    case Remove(g) => g in t.vouchers && decodes(t.vouchers[g].cbor) && fault.None?
    case Resell(g, extendable) => g in t.vouchers && decodes(t.vouchers[g].cbor) && fault.None? && extendable
  }

  function Committed(t: Tables, op: Op): Tables {
    match op
    case Insert(g, row) => EnsureOnboarding(PutVoucher(t, g, row), g)
    case Add(g, row) => PutVoucher(t, g, row)
    case Replace(g, n, row) =>
      PutOnboarding(PutVoucher(DropVoucher(t, g), n, row), g, Onboarding(Some(n), true))
    case Remove(g) => DropOnboarding(DropVoucher(t, g), g)
    case Resell(g, _) => DropOnboarding(DropVoucher(t, g), g)
  }

  /** All or nothing. */
  function Exec(decodes: Decoder, t: Tables, op: Op, fault: Fault): Tables {
    if Succeeds(decodes, t, op, fault) then Committed(t, op) else t
  }

  class OwnerDb {
    var tables: Tables

    constructor ()
      ensures tables == Tables(map[], map[])
    {
      tables := Tables(map[], map[]);
    }

    /** Insert a voucher and make sure its onboarding row exists, in one transaction. */
    method InsertVoucher(decodes: Decoder, g: Guid, row: VoucherRow, fault: Fault) returns (ok: bool)
      requires fault.Some? ==> fault.value < 2
      modifies this
      ensures ok == Succeeds(decodes, old(tables), Insert(g, row), fault)
      ensures tables == Exec(decodes, old(tables), Insert(g, row), fault)
    {
      var snapshot := tables;
      if fault == Some(0) || g in tables.vouchers {
        return false;
      }
      tables := PutVoucher(tables, g, row);
      if fault == Some(1) {
        tables := snapshot;
        return false;
      }
      tables := EnsureOnboarding(tables, g);
      return true;
    }

    /** AddVoucher: the voucher row alone. */
    method AddVoucher(decodes: Decoder, g: Guid, row: VoucherRow, fault: Fault) returns (ok: bool)
      modifies this
      ensures ok == Succeeds(decodes, old(tables), Add(g, row), fault)
      ensures tables == Exec(decodes, old(tables), Add(g, row), fault)
    {
      if fault.Some? || g in tables.vouchers {
        return false;
      }
      tables := PutVoucher(tables, g, row);
      return true;
    }

    /** ReplaceVoucher: drop the old voucher, create the new one, record completion and the new GUID. */
    method ReplaceVoucher(decodes: Decoder, g: Guid, n: Guid, row: VoucherRow, fault: Fault) returns (ok: bool)
      requires fault.Some? ==> fault.value < 3
      modifies this
      ensures ok == Succeeds(decodes, old(tables), Replace(g, n, row), fault)
      ensures tables == Exec(decodes, old(tables), Replace(g, n, row), fault)
    {
      var snapshot := tables;
      if fault == Some(0) {
        return false;
      }
      tables := DropVoucher(tables, g);
      if fault == Some(1) || n in tables.vouchers {
        tables := snapshot;
        return false;
      }
      tables := PutVoucher(tables, n, row);
      if fault == Some(2) {
        tables := snapshot;
        return false;
      }
      tables := PutOnboarding(tables, g, Onboarding(Some(n), true));
      return true;
    }

    /** RemoveVoucher: read, decode, then delete the voucher and its onboarding row. */
    method RemoveVoucher(decodes: Decoder, g: Guid, fault: Fault) returns (ok: bool)
      requires fault.Some? ==> fault.value < 3
      modifies this
      ensures ok == Succeeds(decodes, old(tables), Remove(g), fault)
      ensures tables == Exec(decodes, old(tables), Remove(g), fault)
    {
      var snapshot := tables;
      if fault == Some(0) || g !in tables.vouchers || !decodes(tables.vouchers[g].cbor) {
        return false;
      }
      if fault == Some(1) {
        return false;
      }
      tables := DropVoucher(tables, g);
      if fault == Some(2) {
        tables := snapshot;
        return false;
      }
      tables := DropOnboarding(tables, g);
      return true;
    }

    /** The resell handler: RemoveVoucher nested in a transaction that also covers the extension. */
    method ResellVoucher(decodes: Decoder, g: Guid, extendable: bool, fault: Fault) returns (ok: bool)
      requires fault.Some? ==> fault.value < 3
      modifies this
      ensures ok == Succeeds(decodes, old(tables), Resell(g, extendable), fault)
      ensures tables == Exec(decodes, old(tables), Resell(g, extendable), fault)
      ensures !ok ==> tables == old(tables)
    {
      var snapshot := tables;
      var removed := RemoveVoucher(decodes, g, fault);
      if !removed || !extendable {
        tables := snapshot;
        return false;
      }
      return true;
    }
  }

  // Runs ---------------------------------------------------------------------------------------

  datatype Call = Call(op: Op, fault: Fault)

  function Run(decodes: Decoder, t: Tables, calls: seq<Call>): Tables
    decreases |calls|
  {
    if calls == [] then t
    else Run(decodes, Exec(decodes, t, calls[0].op, calls[0].fault), calls[1..])
  }

  /** Some call of the run removes or resells the voucher of x, and succeeds. */
  predicate Removes(decodes: Decoder, t: Tables, calls: seq<Call>, x: Guid)
    decreases |calls|
  {
    calls != []
    && (var c := calls[0];
        || ((c.op.Remove? || c.op.Resell?) && c.op.guid == x && Succeeds(decodes, t, c.op, c.fault))
        || Removes(decodes, Exec(decodes, t, c.op, c.fault), calls[1..], x))
  }

  /** ListPendingTO0Vouchers: a voucher without an onboarding row joins to NULL and is not listed. */
  function Pending(t: Tables): set<Guid> {
    set g | g in t.vouchers && g in t.onboarding && !t.onboarding[g].completed
  }

  function IsTO2Completed(t: Tables, g: Guid): bool { g in t.onboarding && t.onboarding[g].completed }

  /** Completed, or present without an onboarding row. */
  predicate Settled(t: Tables, x: Guid) {
    || (x in t.onboarding && t.onboarding[x].completed)
    || (x in t.vouchers && x !in t.onboarding)
  }

  lemma SettledStep(decodes: Decoder, t: Tables, c: Call, x: Guid)
    requires Settled(t, x) && !Removes(decodes, t, [c], x)
    ensures Settled(Exec(decodes, t, c.op, c.fault), x)
  {
    assert !((c.op.Remove? || c.op.Resell?) && c.op.guid == x && Succeeds(decodes, t, c.op, c.fault));
  }

  lemma {:induction false} SettledRun(decodes: Decoder, t: Tables, calls: seq<Call>, x: Guid)
    requires Settled(t, x) && !Removes(decodes, t, calls, x)
    ensures Settled(Run(decodes, t, calls), x)
    decreases |calls|
  {
    if calls != [] {
      SettledStep(decodes, t, calls[0], x);
      SettledRun(decodes, Exec(decodes, t, calls[0].op, calls[0].fault), calls[1..], x);
    }
  }

  /** x is listed pending in no state that can follow, unless its voucher is removed first. */
  ghost predicate NeverPendingAgain(decodes: Decoder, t: Tables, x: Guid) {
    forall calls :: !Removes(decodes, t, calls, x) ==> x !in Pending(Run(decodes, t, calls))
  }

  /** Being settled is exactly what keeps a GUID off the pending list, whatever is imported later. */
  lemma SettledIsSticky(decodes: Decoder, t: Tables, x: Guid)
    ensures NeverPendingAgain(decodes, t, x) <==> Settled(t, x)
  {
    if Settled(t, x) {
      forall calls | !Removes(decodes, t, calls, x)
        ensures x !in Pending(Run(decodes, t, calls))
      {
        SettledRun(decodes, t, calls, x);
      }
    } else {
      var calls := if x in t.vouchers then [] else [Call(Insert(x, VoucherRow([], "")), None)];
      if calls != [] {
        assert calls[1..] == [];
        assert !Removes(decodes, Committed(t, calls[0].op), [], x);
      }
      assert !Removes(decodes, t, calls, x);
      assert x in Pending(Run(decodes, t, calls));
    }
  }

  /**
   * Completion is sticky: after a successful ReplaceVoucher(g, n) the old GUID is never pending
   * again, and neither is the new one if and only if it had no uncompleted onboarding row, as a
   * fresh GUID has none.
   */
  lemma CompletionIsSticky(decodes: Decoder, t: Tables, g: Guid, n: Guid, row: VoucherRow)
    requires Succeeds(decodes, t, Replace(g, n, row), None)
    ensures var t' := Exec(decodes, t, Replace(g, n, row), None);
            && NeverPendingAgain(decodes, t', g)
            && (n != g ==> (NeverPendingAgain(decodes, t', n)
                            <==> !(n in t.onboarding && !t.onboarding[n].completed)))
  {
    var t' := Exec(decodes, t, Replace(g, n, row), None);
    SettledIsSticky(decodes, t', g);
    SettledIsSticky(decodes, t', n);
  }

  // The rows each transaction leaves -----------------------------------------------------------

  /** No GUID but those given has a different row, or a row more or less, in either table. */
  ghost predicate OthersKept(t: Tables, t': Tables, touched: set<Guid>) {
    && (forall x :: x !in touched ==> (x in t'.vouchers <==> x in t.vouchers)
                                      && (x in t.vouchers ==> t'.vouchers[x] == t.vouchers[x]))
    && (forall x :: x !in touched ==> (x in t'.onboarding <==> x in t.onboarding)
                                      && (x in t.onboarding ==> t'.onboarding[x] == t.onboarding[x]))
  }

  /** An import of a new GUID adds its voucher, and an onboarding row only where there was none. */
  lemma InsertedRows(decodes: Decoder, t: Tables, g: Guid, row: VoucherRow, fault: Fault)
    ensures var t' := Exec(decodes, t, Insert(g, row), fault);
            if g in t.vouchers || fault.Some? then t' == t
            else OthersKept(t, t', {g})
                 && g in t'.vouchers && t'.vouchers[g] == row
                 && g in t'.onboarding
                 && t'.onboarding[g] == if g in t.onboarding then t.onboarding[g] else Onboarding(None, false)
    ensures var t' := Exec(decodes, t, Add(g, row), fault);
            if g in t.vouchers || fault.Some? then t' == t
            else OthersKept(t, t', {g})
                 && g in t'.vouchers && t'.vouchers[g] == row
                 && (g in t'.onboarding <==> g in t.onboarding)
                 && (g in t.onboarding ==> t'.onboarding[g] == t.onboarding[g])
  {
  }

  /**
   * A replacement takes the old voucher away, stores the new one under its own GUID, and records
   * completion with the new GUID in the old device's onboarding row; the new GUID's own onboarding
   * row is not touched.
   */
  lemma ReplacedRows(decodes: Decoder, t: Tables, g: Guid, n: Guid, row: VoucherRow, fault: Fault)
    ensures var t' := Exec(decodes, t, Replace(g, n, row), fault);
            if (n in t.vouchers && n != g) || fault.Some? then t' == t
            else OthersKept(t, t', {g, n})
                 && n in t'.vouchers && t'.vouchers[n] == row && (n != g ==> g !in t'.vouchers)
                 && g in t'.onboarding && t'.onboarding[g] == Onboarding(Some(n), true)
                 && (n != g ==> (n in t'.onboarding <==> n in t.onboarding)
                                && (n in t.onboarding ==> t'.onboarding[n] == t.onboarding[n]))
  {
  }

  /** A removal or resell that succeeds leaves nothing of the GUID and everything else as it was. */
  lemma RemovedRows(decodes: Decoder, t: Tables, g: Guid, extendable: bool, fault: Fault)
    ensures var t' := Exec(decodes, t, Remove(g), fault);
            if g in t.vouchers && decodes(t.vouchers[g].cbor) && fault.None?
            then OthersKept(t, t', {g}) && g !in t'.vouchers && g !in t'.onboarding
            else t' == t
    ensures var t' := Exec(decodes, t, Resell(g, extendable), fault);
            if g in t.vouchers && decodes(t.vouchers[g].cbor) && fault.None? && extendable
            then OthersKept(t, t', {g}) && g !in t'.vouchers && g !in t'.onboarding
            else t' == t
  {
  }

  /**
   * Where stickiness ends: whatever the state of a device before, completed or not, once its voucher
   * is removed or resold the next import of its GUID makes it pending.
   */
  lemma RemovedThenPending(decodes: Decoder, t: Tables, g: Guid, resold: bool, row: VoucherRow)
    requires g in t.vouchers && decodes(t.vouchers[g].cbor)
    ensures var removal := if resold then Resell(g, true) else Remove(g);
            var t' := Run(decodes, t, [Call(removal, None), Call(Insert(g, row), None)]);
            && g in Pending(t')
            && t'.vouchers[g] == row && t'.onboarding[g] == Onboarding(None, false)
  {
    var removal := if resold then Resell(g, true) else Remove(g);
    var a, b := Call(removal, None), Call(Insert(g, row), None);
    assert [a, b][1..] == [b] && [b][1..] == [];
    assert Run(decodes, Exec(decodes, t, removal, None), [b])
           == Exec(decodes, Exec(decodes, t, removal, None), b.op, None);
  }

  // Listing devices ----------------------------------------------------------------------------

  /** The rows that the LEFT JOIN on new_guid yields for one voucher: its old GUIDs, or a single NULL. */
  function JoinRows(t: Tables, v: Guid): set<Option<Guid>> {
    var olds := set x | x in t.onboarding && t.onboarding[x].newGuid == Some(v) :: Some(x);
    if olds == {} then {None} else olds
  }

  /** At most one onboarding row names v as its new GUID. */
  predicate NamedAtMostOnce(t: Tables, v: Guid) {
    forall x, y | x in t.onboarding && y in t.onboarding ::
      t.onboarding[x].newGuid == Some(v) && t.onboarding[y].newGuid == Some(v) ==> x == y
  }

  /** No two onboarding rows name the same new GUID. */
  ghost predicate NewGuidsInjective(t: Tables) {
    forall v :: NamedAtMostOnce(t, v)
  }

  /** Each replacement names a GUID that no other onboarding row names: what a fresh GUID guarantees. */
  predicate FreshReplacements(decodes: Decoder, t: Tables, calls: seq<Call>)
    decreases |calls|
  {
    calls == []
    || (var c := calls[0];
        && (c.op.Replace? ==> forall x :: x in t.onboarding && x != c.op.guid
                                          ==> t.onboarding[x].newGuid != Some(c.op.newGuid))
        && FreshReplacements(decodes, Exec(decodes, t, c.op, c.fault), calls[1..]))
  }

  /** Freshness of a GUID is exactly what keeps new_guid injective in a replacement that commits. */
  lemma FreshExactly(decodes: Decoder, t: Tables, g: Guid, n: Guid, row: VoucherRow)
    requires NewGuidsInjective(t) && (n == g || n !in t.vouchers)
    ensures FreshReplacements(decodes, t, [Call(Replace(g, n, row), None)])
            <==> NewGuidsInjective(Exec(decodes, t, Replace(g, n, row), None))
  {
    var t' := Exec(decodes, t, Replace(g, n, row), None);
    var calls := [Call(Replace(g, n, row), None)];
    assert calls[1..] == [];
    assert FreshReplacements(decodes, t, calls)
           <==> forall x :: x in t.onboarding && x != g ==> t.onboarding[x].newGuid != Some(n);
    if NewGuidsInjective(t') {
      assert NamedAtMostOnce(t', n);
      assert t'.onboarding[g].newGuid == Some(n);
      assert forall x :: x in t.onboarding && x != g ==> x in t'.onboarding && t'.onboarding[x] == t.onboarding[x];
    } else {
      var v :| !NamedAtMostOnce(t', v);
      assert NamedAtMostOnce(t, v);
    }
  }

  lemma {:induction false} InjectiveRun(decodes: Decoder, t: Tables, calls: seq<Call>)
    requires NewGuidsInjective(t) && FreshReplacements(decodes, t, calls)
    ensures NewGuidsInjective(Run(decodes, t, calls))
    decreases |calls|
  {
    if calls != [] {
      var t' := Exec(decodes, t, calls[0].op, calls[0].fault);
      forall v
        ensures NamedAtMostOnce(t', v)
      {
        assert NamedAtMostOnce(t, v);
      }
      InjectiveRun(decodes, t', calls[1..]);
    }
  }

  /** A voucher is listed once exactly when at most one onboarding row names it. */
  lemma ListedOnce(t: Tables, v: Guid)
    ensures |JoinRows(t, v)| == 1 <==> NamedAtMostOnce(t, v)
    ensures forall x :: Some(x) in JoinRows(t, v) <==> x in t.onboarding && t.onboarding[x].newGuid == Some(v)
    ensures None in JoinRows(t, v) <==> forall x :: x in t.onboarding ==> t.onboarding[x].newGuid != Some(v)
  {
    var rows := JoinRows(t, v);
    assert rows != {};
    var r :| r in rows;
    if NamedAtMostOnce(t, v) {
      assert rows == {r};
    } else {
      var x, y :| x in t.onboarding && y in t.onboarding && x != y
                  && t.onboarding[x].newGuid == Some(v) && t.onboarding[y].newGuid == Some(v);
      assert {Some(x), Some(y)} <= rows;
      Subset({Some(x), Some(y)}, rows);
    }
  }

  lemma Subset<T>(a: set<T>, b: set<T>)
    requires a <= b
    ensures |a| <= |b|
  {
    assert b == a + (b - a);
    assert |a + (b - a)| == |a| + |b - a|;
  }

  /** In every state reached from empty tables with fresh replacement GUIDs, each voucher is listed once. */
  lemma DevicesListedOnce(decodes: Decoder, calls: seq<Call>, v: Guid)
    requires FreshReplacements(decodes, Tables(map[], map[]), calls)
    ensures var t := Run(decodes, Tables(map[], map[]), calls);
            NewGuidsInjective(t) && |JoinRows(t, v)| == 1
  {
    InjectiveRun(decodes, Tables(map[], map[]), calls);
    ListedOnce(Run(decodes, Tables(map[], map[]), calls), v);
  }

  /**
   * Freshness is needed: if a replacement GUID is used again after its voucher is removed, the
   * device is listed twice.
   */
  lemma ReusedGuidListedTwice(decodes: Decoder, g: Guid, h: Guid, n: Guid, row: VoucherRow)
    requires g != h && n != g && n != h && decodes(row.cbor)
    ensures exists calls ::
              var t := Run(decodes, Tables(map[], map[]), calls);
              n in t.vouchers && |JoinRows(t, n)| == 2
  {
    var t0 := Tables(map[], map[]);
    var c1, c2, c3 := Call(Replace(g, n, row), None), Call(Remove(n), None), Call(Replace(h, n, row), None);
    var calls := [c1, c2, c3];
    var t1 := Exec(decodes, t0, c1.op, None);
    var t2 := Exec(decodes, t1, c2.op, None);
    var t3 := Exec(decodes, t2, c3.op, None);
    assert calls[1..] == [c2, c3] && calls[1..][1..] == [c3] && calls[1..][1..][1..] == [];
    assert Run(decodes, t2, [c3]) == t3;
    assert Run(decodes, t1, [c2, c3]) == t3;
    assert Run(decodes, t0, calls) == t3;
    assert t3.onboarding.Keys == {g, h};
    assert Some(g) in JoinRows(t3, n) && Some(h) in JoinRows(t3, n);
    assert JoinRows(t3, n) == {Some(g), Some(h)};
  }
}
