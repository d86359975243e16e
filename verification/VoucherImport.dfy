/** The voucher import handler: a loop over the PEM blocks of a request body. */
module VoucherImport {
  import opened Wrappers
  import opened OwnerStore

  datatype Ov = Ov(guid: Guid, deviceInfo: string)

  /** cbor.Unmarshal of a voucher, and VerifyVoucher. */
  datatype Checks = Checks(decode: Bytes -> Option<Ov>, verified: Bytes -> bool)

  datatype Status = Accepted | BadRequest | InternalError

  const LABEL := "OWNERSHIP VOUCHER"

  predicate Rejected(c: Checks, b: PemBlock) {
    b.kind == LABEL && (c.decode(b.bytes).None? || !c.verified(b.bytes))
  }

  /** A verified voucher for g. */
  predicate Offers(c: Checks, b: PemBlock, g: Guid) {
    b.kind == LABEL && c.verified(b.bytes) && c.decode(b.bytes).Some? && c.decode(b.bytes).value.guid == g
  }

  function RowOf(c: Checks, b: PemBlock): VoucherRow
    requires c.decode(b.bytes).Some?
  {
    VoucherRow(b.bytes, c.decode(b.bytes).value.deviceInfo)
  }

  /** The index of the first rejected block, or the number of blocks. */
  function Stop(c: Checks, blocks: seq<PemBlock>): (n: nat)
    ensures n <= |blocks|
    ensures forall i :: 0 <= i < n && blocks[i].kind == "OWNERSHIP VOUCHER" ==>
              c.decode(blocks[i].bytes).Some? && c.verified(blocks[i].bytes)
    ensures n < |blocks| ==> blocks[n].kind == "OWNERSHIP VOUCHER"
                             && (c.decode(blocks[n].bytes).None? || !c.verified(blocks[n].bytes))
  {
    if blocks == [] || Rejected(c, blocks[0]) then 0 else 1 + Stop(c, blocks[1..])
  }

  function Offer(c: Checks, t: Tables, b: PemBlock): Tables
    requires !Rejected(c, b)
  {
    if b.kind != LABEL then t
    else
      var g := c.decode(b.bytes).value.guid;
      if g in t.vouchers then t else Committed(t, Insert(g, RowOf(c, b)))
  }

  /** The tables after the first n blocks. */
  function After(c: Checks, t: Tables, blocks: seq<PemBlock>, n: nat): Tables
    requires n <= Stop(c, blocks)
  {
    if n == 0 then t else Offer(c, After(c, t, blocks, n - 1), blocks[n - 1])
  }

  /** The blocks at which the lookup of the GUID, or the insert, reports a storage error. */
  datatype Faults = Faults(lookup: nat -> bool, insert: nat -> bool)

  /**
   * Block i ends the request: the insert of a new GUID fails, or a failing lookup of a known one
   * falls through to an insert that the primary key refuses.
   */
  predicate ErrorAt(c: Checks, t: Tables, blocks: seq<PemBlock>, f: Faults, i: nat)
    requires i < Stop(c, blocks)
  {
    && blocks[i].kind == LABEL
    && if c.decode(blocks[i].bytes).value.guid in After(c, t, blocks, i).vouchers then f.lookup(i) else f.insert(i)
  }

  /** The first block from n on that ends the request in an error, or the first rejected one. */
  function Halt(c: Checks, t: Tables, blocks: seq<PemBlock>, f: Faults, n: nat): (k: nat)
    requires n <= Stop(c, blocks)
    ensures n <= k <= Stop(c, blocks)
    ensures forall i :: n <= i < k ==> !ErrorAt(c, t, blocks, f, i)
    ensures k < Stop(c, blocks) ==> ErrorAt(c, t, blocks, f, k)
    decreases Stop(c, blocks) - n
  {
    if n == Stop(c, blocks) || ErrorAt(c, t, blocks, f, n) then n else Halt(c, t, blocks, f, n + 1)
  }

  method ImportVouchers(c: Checks, decodes: Decoder, db: OwnerDb, blocks: seq<PemBlock>, leftover: bool,
                        f: Faults) returns (status: Status)
    modifies db
    ensures var halt := Halt(c, old(db.tables), blocks, f, 0);
            && status == (if halt < Stop(c, blocks) then InternalError
                          else if halt == |blocks| && !leftover then Accepted
                          else BadRequest)
            && db.tables == After(c, old(db.tables), blocks, halt)
  {
    ghost var halt := Halt(c, db.tables, blocks, f, 0);
    for i := 0 to |blocks|
      invariant i <= halt
      invariant db.tables == After(c, old(db.tables), blocks, i)
    {
      var b := blocks[i];
      if b.kind != LABEL {
        StopAfter(c, blocks, i);
        continue;
      }
      if c.decode(b.bytes).None? || !c.verified(b.bytes) {
        return BadRequest;
      }
      StopAfter(c, blocks, i);
      var ov := c.decode(b.bytes).value;
      if !f.lookup(i) && ov.guid in db.tables.vouchers {
        continue;
      }
      var ok := db.InsertVoucher(decodes, ov.guid, RowOf(c, b), if f.insert(i) then Some(0) else None);
      if !ok {
        assert ErrorAt(c, old(db.tables), blocks, f, i);
        return InternalError;
      }
    }
    return if leftover then BadRequest else Accepted;
  }

  lemma StopAfter(c: Checks, blocks: seq<PemBlock>, i: nat)
    requires i < |blocks| && i <= Stop(c, blocks) && !Rejected(c, blocks[i])
    ensures i < Stop(c, blocks)
  {
  }

  /** The first of the first n blocks that offers a voucher for g. */
  function FirstOffer(c: Checks, blocks: seq<PemBlock>, n: nat, g: Guid): (r: Option<nat>)
    requires n <= |blocks|
    ensures r.None? ==> forall i :: 0 <= i < n ==> !Offers(c, blocks[i], g)
    ensures r.Some? ==> r.value < n && Offers(c, blocks[r.value], g)
                        && forall i :: 0 <= i < r.value ==> !Offers(c, blocks[i], g)
  {
    if n == 0 then None
    else
      match FirstOffer(c, blocks, n - 1, g)
      case Some(i) => Some(i)
      case None => if Offers(c, blocks[n - 1], g) then Some(n - 1) else None
  }

  /** The voucher and onboarding rows of one GUID. */
  function RowsOf(t: Tables, g: Guid): (Option<VoucherRow>, Option<Onboarding>) {
    (if g in t.vouchers then Some(t.vouchers[g]) else None, if g in t.onboarding then Some(t.onboarding[g]) else None)
  }

  lemma OfferExact(c: Checks, t: Tables, b: PemBlock, g: Guid)
    requires !Rejected(c, b)
    ensures RowsOf(Offer(c, t, b), g) ==
            if g in t.vouchers || !Offers(c, b, g) then RowsOf(t, g)
            else (Some(RowOf(c, b)), Some(if g in t.onboarding then t.onboarding[g] else Onboarding(None, false)))
  {
  }

  /**
   * The import never overwrites a voucher, and for a GUID without one it stores the first verified
   * voucher offered, with an onboarding row that keeps any earlier completion.
   */
  lemma {:induction false} ImportExact(c: Checks, t: Tables, blocks: seq<PemBlock>, n: nat, g: Guid)
    requires n <= Stop(c, blocks)
    ensures var first := FirstOffer(c, blocks, n, g);
            RowsOf(After(c, t, blocks, n), g) ==
            if g in t.vouchers || first.None? then RowsOf(t, g)
            else (Some(RowOf(c, blocks[first.value])),
                  Some(if g in t.onboarding then t.onboarding[g] else Onboarding(None, false)))
  {
    hide Offer, Offers;
    if n > 0 {
      ImportExact(c, t, blocks, n - 1, g);
      OfferExact(c, After(c, t, blocks, n - 1), blocks[n - 1], g);
    }
  }

  /** The block has a voucher for g. */
  predicate HasVoucher(c: Checks, b: PemBlock, g: Guid) {
    b.kind == "OWNERSHIP VOUCHER" && c.decode(b.bytes).Some? && c.decode(b.bytes).value.guid == g
  }

  lemma OffersIs(c: Checks, b: PemBlock, g: Guid)
    requires !Rejected(c, b)
    ensures Offers(c, b, g) <==> HasVoucher(c, b, g)
  {
  }

  /**
   * The stored row: for a GUID that has no voucher, the first block with a voucher for it gives the
   * row its bytes as they came and the device info of the decoded voucher.
   */
  lemma StoredRow(c: Checks, t: Tables, blocks: seq<PemBlock>, n: nat, g: Guid, k: nat)
    requires k < n <= Stop(c, blocks) && g !in t.vouchers
    requires HasVoucher(c, blocks[k], g) && forall i :: 0 <= i < k ==> !HasVoucher(c, blocks[i], g)
    ensures var t' := After(c, t, blocks, n);
            && g in t'.vouchers && t'.vouchers[g].cbor == blocks[k].bytes
            && t'.vouchers[g].deviceInfo == c.decode(blocks[k].bytes).value.deviceInfo
            && g in t'.onboarding
            && t'.onboarding[g] == if g in t.onboarding then t.onboarding[g] else Onboarding(None, false)
  {
    ImportExact(c, t, blocks, n, g);
    forall i | 0 <= i < n
      ensures Offers(c, blocks[i], g) <==> HasVoucher(c, blocks[i], g)
    {
      OffersIs(c, blocks[i], g);
    }
    assert FirstOffer(c, blocks, n, g) == Some(k);
  }

  /** A GUID that has a voucher, or that no block before the end has one for, keeps both its rows. */
  lemma OthersUntouched(c: Checks, t: Tables, blocks: seq<PemBlock>, n: nat, g: Guid)
    requires n <= Stop(c, blocks)
    requires g in t.vouchers || forall i :: 0 <= i < n ==> !HasVoucher(c, blocks[i], g)
    ensures var t' := After(c, t, blocks, n);
            && (g in t'.vouchers <==> g in t.vouchers) && (g in t'.onboarding <==> g in t.onboarding)
            && (g in t.vouchers ==> t'.vouchers[g] == t.vouchers[g])
            && (g in t.onboarding ==> t'.onboarding[g] == t.onboarding[g])
  {
    ImportExact(c, t, blocks, n, g);
    if FirstOffer(c, blocks, n, g).Some? {
      var k := FirstOffer(c, blocks, n, g).value;
      OffersIs(c, blocks[k], g);
    }
  }

  /** Which request ends in an internal error: one whose lookup or insert fails at the block reached. */
  lemma HaltExactly(c: Checks, t: Tables, blocks: seq<PemBlock>, f: Faults, i: nat)
    requires i < Stop(c, blocks)
    ensures var k := Halt(c, t, blocks, f, 0);
            var voucher := blocks[i].kind == "OWNERSHIP VOUCHER";
            var known := voucher && c.decode(blocks[i].bytes).value.guid in After(c, t, blocks, i).vouchers;
            && (i < k ==> !voucher || if known then !f.lookup(i) else !f.insert(i))
            && (i == k ==> voucher && if known then f.lookup(i) else f.insert(i))
  {
    var k := Halt(c, t, blocks, f, 0);
    assert i < k ==> !ErrorAt(c, t, blocks, f, i);
    assert i == k ==> ErrorAt(c, t, blocks, f, i);
  }

  /** Posting the same body again changes nothing. */
  lemma {:induction false} RepostUnchanged(c: Checks, t: Tables, blocks: seq<PemBlock>, m: nat)
    requires m <= Stop(c, blocks)
    ensures var t' := After(c, t, blocks, Stop(c, blocks));
            After(c, t', blocks, m) == t'
  {
    if m > 0 {
      var n := Stop(c, blocks);
      RepostUnchanged(c, t, blocks, m - 1);
      var b := blocks[m - 1];
      if b.kind == LABEL {
        var g := c.decode(b.bytes).value.guid;
        assert Offers(c, b, g);
        ImportExact(c, t, blocks, n, g);
        assert FirstOffer(c, blocks, n, g).Some?;
      }
    }
  }
}
