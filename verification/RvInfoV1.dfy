/**
 * The V1 rendezvous-info API: one flat JSON record per directive, with ports as decimal strings.
 * A document is the list of records that json.Unmarshal fills in.
 */
module RvInfoV1 {
  import opened Wrappers
  import opened RvInstruction
  import Cbor
  import Decimal
  import Hex
  import Utf8
  import V2 = RvInfoV2

  datatype RvHuman = RvHuman(
    dns: string, ip: string, protocol: string, medium: string,
    devicePort: string, ownerPort: string, wifiSsid: string, wifiPw: string,
    devOnly: bool, ownerOnly: bool, rvBypass: bool,
    delaySeconds: Option<u32>, svCertHash: string, clCertHash: string,
    userInput: string, extRv: string)

  const EMPTY := RvHuman("", "", "", "", "", "", "", "", false, false, false, None, "", "", "", "")

  /** The instruction variables of the sixteen fields, in the order the parser visits them. */
  const VARIABLES: seq<nat> :=
    [RV_DNS, RV_IP_ADDRESS, RV_PROTOCOL, RV_MEDIUM, RV_DEV_PORT, RV_OWNER_PORT, RV_WIFI_SSID, RV_WIFI_PW,
     RV_DEV_ONLY, RV_OWNER_ONLY, RV_BYPASS, RV_DELAYSEC, RV_SV_CERT_HASH, RV_CL_CERT_HASH,
     RV_USER_INPUT, RV_EXT_RV]

  // Parsing ------------------------------------------------------------------------------------

  datatype Field = Absent | Bad | Flag | Value(v: RvValue)

  function TextField(s: string): Field { if s == "" then Absent else Value(VText(s)) }

  function FlagField(b: bool): Field { if b then Flag else Absent }

  function CodeField(s: string, code: Option<nat>): Field {
    if s == "" then Absent else match code case Some(c) => Value(VUint(c)) case None => Bad
  }

  function BytesField(s: string, b: Option<Bytes>): Field {
    if s == "" then Absent else match b case Some(b) => Value(VBytes(b)) case None => Bad
  }

  /** V1 ports are decimal strings from 1 to 65535. */
  function Port(s: string): (r: Option<nat>)
    ensures r.Some? ==> Decimal.Atoi(s) == Some(r.value) && 1 <= r.value <= 65535
  {
    match Decimal.Atoi(s)
    case Some(n) => if 1 <= n <= 65535 then Some(n) else None
    case None => None
  }

  function FieldOf(h: Host, x: RvHuman, k: nat): Field
    requires k < |VARIABLES|
  {
    match k
    case 0 => TextField(x.dns)
    case 1 => BytesField(x.ip, h.parseIp(x.ip))
    case 2 => CodeField(x.protocol, ProtocolCode(x.protocol))
    case 3 => CodeField(x.medium, MediumCode(x.medium))
    case 4 => CodeField(x.devicePort, Port(x.devicePort))
    case 5 => CodeField(x.ownerPort, Port(x.ownerPort))
    case 6 => TextField(x.wifiSsid)
    case 7 => TextField(x.wifiPw)
    case 8 => FlagField(x.devOnly)
    case 9 => FlagField(x.ownerOnly)
    case 10 => FlagField(x.rvBypass)
    case 11 => if x.delaySeconds.Some? then Value(VUint(x.delaySeconds.value)) else Absent
    case 12 => BytesField(x.svCertHash, Hex.Decode(x.svCertHash))
    case 13 => BytesField(x.clCertHash, Hex.Decode(x.clCertHash))
    case 14 => TextField(x.userInput)
    case _ => TextField(x.extRv)
  }

  /** The instructions that field k contributes: none, one, or a parse error. */
  function Part(k: nat, f: Field): (r: Option<Directive>)
    requires k < |VARIABLES|
    ensures r.Some? ==> |r.value| <= 1
    ensures r.Some? && r.value != [] ==> r.value[0].variable == VARIABLES[k]
  {
    match f
    case Absent => Some([])
    case Bad => None
    case Flag => Some([Instr(VARIABLES[k], [])])
    case Value(v) =>
      match Encode(v) case Some(b) => Some([Instr(VARIABLES[k], b)]) case None => None
  }

  function FieldInstrs(h: Host, x: RvHuman, k: nat): (r: Option<Directive>)
    requires k < |VARIABLES|
    ensures r.Some? ==> |r.value| <= 1
  {
    Part(k, FieldOf(h, x, k))
  }

  function Join(g: Option<Directive>, i: Option<Directive>): Option<Directive> {
    if g.Some? && i.Some? then Some(g.value + i.value) else None
  }

  /** The parts of a record's fields, appended in order. */
  function Gather(fs: seq<Field>): Option<Directive>
    requires |fs| <= |VARIABLES|
  {
    if fs == [] then Some([])
    else
      var n := |fs| - 1;
      Join(Gather(fs[..n]), Part(n, fs[n]))
  }

  function Fields(h: Host, x: RvHuman): (fs: seq<Field>)
    ensures |fs| == |VARIABLES| && forall k :: 0 <= k < |fs| ==> fs[k] == FieldOf(h, x, k)
  {
    seq(|VARIABLES|, k requires 0 <= k < |VARIABLES| => FieldOf(h, x, k))
  }

  /** The group after the first k fields. */
  function Collect(h: Host, x: RvHuman, k: nat): Option<Directive>
    requires k <= |VARIABLES|
  {
    Gather(Fields(h, x)[..k])
  }

  lemma CollectStep(h: Host, x: RvHuman, k: nat)
    requires k < |VARIABLES|
    ensures Collect(h, x, k + 1) == Join(Collect(h, x, k), FieldInstrs(h, x, k))
  {
    hide FieldOf, Part, Fields;
    var fs := Fields(h, x);
    assert fs[..k + 1][..k] == fs[..k] && fs[..k + 1][k] == fs[k];
  }

  lemma AllFields(h: Host, x: RvHuman)
    ensures Collect(h, x, |VARIABLES|) == Gather(Fields(h, x))
  {
    var fs := Fields(h, x);
    assert fs[..|VARIABLES|] == fs;
  }

  predicate Addressed(x: RvHuman) { x.dns != "" || x.ip != "" }

  function ParseItem(h: Host, x: RvHuman): Option<Directive> {
    if Addressed(x) then Gather(Fields(h, x)) else None
  }

  function ParseDoc(h: Host, doc: seq<RvHuman>): (r: Option<seq<Directive>>)
    ensures r.Some? ==> |r.value| == |doc|
    ensures r.Some? ==> forall d :: 0 <= d < |doc| ==> ParseItem(h, doc[d]) == Some(r.value[d])
    ensures r.None? ==> exists d :: 0 <= d < |doc| && ParseItem(h, doc[d]).None?
  {
    if doc == [] then Some([])
    else
      match (ParseDoc(h, doc[..|doc| - 1]), ParseItem(h, doc[|doc| - 1]))
      case (Some(ds), Some(g)) => Some(ds + [g])
      case _ => None
  }

  /** Why a document is refused: a record without dns and ip, or a field that is not well formed. */
  datatype Refusal = NoAddress(record: nat) | BadField(record: nat, field: nat)

  /** The refusal is the first fault met: no earlier record and no earlier field of it is at fault. */
  predicate FirstFault(h: Host, doc: seq<RvHuman>, e: Refusal) {
    && e.record < |doc|
    && (forall d :: 0 <= d < e.record ==> ParseItem(h, doc[d]).Some?)
    && match e
       case NoAddress(d) => !Addressed(doc[d])
       case BadField(d, k) =>
         && Addressed(doc[d]) && k < |VARIABLES| && FieldInstrs(h, doc[d], k).None?
         && forall j :: 0 <= j < k ==> FieldInstrs(h, doc[d], j).Some?
  }

  /** The last field of the shortest prefix that does not parse. */
  function FirstBad(fs: seq<Field>): nat
    requires 0 < |fs| <= |VARIABLES|
  {
    var n := |fs| - 1;
    if n == 0 || Gather(fs[..n]).Some? then n else FirstBad(fs[..n])
  }

  lemma {:induction false} FirstBadExact(fs: seq<Field>)
    requires 0 < |fs| <= |VARIABLES| && Gather(fs).None?
    ensures var k := FirstBad(fs);
            k < |fs| && Part(k, fs[k]).None? && forall j :: 0 <= j < k ==> Part(j, fs[j]).Some?
  {
    hide Part;
    var n := |fs| - 1;
    if n == 0 || Gather(fs[..n]).Some? {
      GatherExactly(fs[..n]);
      assert forall j :: 0 <= j < n ==> fs[..n][j] == fs[j];
    } else {
      FirstBadExact(fs[..n]);
      assert forall j :: 0 <= j < n ==> fs[..n][j] == fs[j];
    }
  }

  function RefusalOf(h: Host, x: RvHuman, d: nat): Refusal {
    if x.dns == "" && x.ip == "" then NoAddress(d) else BadField(d, FirstBad(Fields(h, x)))
  }

  lemma RefusalIsFirst(h: Host, doc: seq<RvHuman>, d: nat)
    requires d < |doc| && ParseItem(h, doc[d]).None?
    requires forall j :: 0 <= j < d ==> ParseItem(h, doc[j]).Some?
    ensures FirstFault(h, doc, RefusalOf(h, doc[d], d))
  {
    hide FieldOf, Part, Gather, FirstBad;
    if Addressed(doc[d]) { FirstBadExact(Fields(h, doc[d])); }
  }

  lemma FaultIsRefused(h: Host, doc: seq<RvHuman>, e: Refusal)
    requires FirstFault(h, doc, e)
    ensures ParseItem(h, doc[e.record]).None? && ParseDoc(h, doc).None?
  {
    hide FieldOf, Part, Gather;
    GatherExactly(Fields(h, doc[e.record]));
  }

  /** A document has at most one first fault, and is refused if it has one. */
  lemma OneFirstFault(h: Host, doc: seq<RvHuman>, e: Refusal, e': Refusal)
    requires FirstFault(h, doc, e) && FirstFault(h, doc, e')
    ensures e == e' && ParseDoc(h, doc).None?
  {
    hide FieldInstrs, ParseItem, ParseDoc;
    FaultIsRefused(h, doc, e);
    FaultIsRefused(h, doc, e');
    assert e.record == e'.record;
  }

  /** ParseHumanReadableRvJSON, after json.Unmarshal. */
  method Parse(h: Host, doc: seq<RvHuman>) returns (r: Result<seq<Directive>, Refusal>)
    ensures r.Ok? <==> ParseDoc(h, doc).Some?
    ensures r.Ok? ==> ParseDoc(h, doc) == Some(r.value)
    ensures r.Err? ==> FirstFault(h, doc, r.error)
  {
    hide ParseItem, FirstFault, RefusalOf;
    var out: seq<Directive> := [];
    for d := 0 to |doc|
      invariant ParseDoc(h, doc[..d]) == Some(out)
      invariant forall j :: 0 <= j < d ==> ParseItem(h, doc[j]).Some?
    {
      assert doc[..d + 1][..d] == doc[..d];
      var group := ParseItem(h, doc[d]);
      if group.None? {
        RefusalIsFirst(h, doc, d);
        return Err(RefusalOf(h, doc[d], d));
      }
      out := out + [group.value];
    }
    assert doc[..|doc|] == doc;
    return Ok(out);
  }

  // Acceptance ---------------------------------------------------------------------------------

  predicate GoodText(s: string) { s == "" || Encode(VText(s)).Some? }

  predicate GoodPort(s: string) {
    s == "" || (Decimal.Atoi(s).Some? && 1 <= Decimal.Atoi(s).value <= 65535)
  }

  predicate GoodHash(s: string) { s == "" || (Hex.IsHex(s) && Encode(VBytes(V2.HexBytes(s))).Some?) }

  predicate GoodIp(h: Host, s: string) {
    s == "" || (h.parseIp(s).Some? && Encode(VBytes(h.parseIp(s).value)).Some?)
  }

  /** The records V1 accepts: an address, and every field empty or well formed. */
  predicate GoodRecord(h: Host, x: RvHuman) {
    && (x.dns != "" || x.ip != "")
    && GoodText(x.dns) && GoodIp(h, x.ip)
    && (x.protocol == "" || x.protocol in {"rest", "http", "https", "tcp", "tls", "coap+tcp", "coap"})
    && (x.medium == "" || x.medium in {"eth_all", "wifi_all"})
    && GoodPort(x.devicePort) && GoodPort(x.ownerPort)
    && GoodText(x.wifiSsid) && GoodText(x.wifiPw)
    && GoodHash(x.svCertHash) && GoodHash(x.clCertHash)
    && GoodText(x.userInput) && GoodText(x.extRv)
  }

  lemma {:induction false} GatherExactly(fs: seq<Field>)
    requires |fs| <= |VARIABLES|
    ensures Gather(fs).Some? <==> forall k :: 0 <= k < |fs| ==> Part(k, fs[k]).Some?
  {
    hide Part;
    if fs != [] {
      var n := |fs| - 1;
      GatherExactly(fs[..n]);
      if Gather(fs).Some? {
        forall k | 0 <= k < |fs|
          ensures Part(k, fs[k]).Some?
        {
          assert k < n ==> fs[..n][k] == fs[k];
        }
      } else if Gather(fs[..n]).None? {
        var k :| 0 <= k < n && Part(k, fs[..n][k]).None?;
        assert fs[..n][k] == fs[k];
      }
    }
  }

  lemma CodesAccepted(s: string, k: nat)
    requires k < |VARIABLES|
    ensures Part(k, CodeField(s, ProtocolCode(s))).Some?
            <==> s == "" || s in {"rest", "http", "https", "tcp", "tls", "coap+tcp", "coap"}
    ensures Part(k, CodeField(s, MediumCode(s))).Some? <==> s == "" || s in {"eth_all", "wifi_all"}
    ensures Part(k, CodeField(s, Port(s))).Some? <==> GoodPort(s)
  {
    hide Lookup, Encode;
    V2.ProtocolNamed(s);
    V2.MediumNamed(s);
    CodeName(s);
    if ProtocolCode(s).Some? { V2.UintEncodes(ProtocolCode(s).value); }
    if MediumCode(s).Some? { V2.UintEncodes(MediumCode(s).value); }
    if Port(s).Some? { V2.UintEncodes(Port(s).value); }
  }

  lemma BytesAccepted(h: Host, s: string, k: nat)
    requires k < |VARIABLES|
    ensures Part(k, BytesField(s, Hex.Decode(s))).Some? <==> GoodHash(s)
    ensures Part(k, BytesField(s, h.parseIp(s))).Some? <==> GoodIp(h, s)
    ensures Part(k, TextField(s)).Some? <==> GoodText(s)
  {
    hide Encode;
    Hex.DecodesExactly(s);
  }

  lemma FieldsAccepted(h: Host, x: RvHuman)
    ensures var fs := Fields(h, x);
            (forall k :: 0 <= k < |fs| ==> Part(k, fs[k]).Some?)
            <==> (forall k :: 0 <= k < |VARIABLES| ==> FieldInstrs(h, x, k).Some?)
  {
    hide Part, FieldOf, Fields;
    var fs := Fields(h, x);
    assert forall k :: 0 <= k < |fs| ==> fs[k] == FieldOf(h, x, k);
    if forall k :: 0 <= k < |fs| ==> Part(k, fs[k]).Some? {
      forall k | 0 <= k < |VARIABLES|
        ensures FieldInstrs(h, x, k).Some?
      {
        assert Part(k, fs[k]).Some?;
      }
    } else {
      var k :| 0 <= k < |fs| && Part(k, fs[k]).None?;
      assert FieldInstrs(h, x, k).None?;
    }
  }

  lemma LowFieldsAccepted(h: Host, x: RvHuman)
    ensures FieldInstrs(h, x, 0).Some? <==> GoodText(x.dns)
    ensures FieldInstrs(h, x, 1).Some? <==> GoodIp(h, x.ip)
    ensures FieldInstrs(h, x, 2).Some?
            <==> x.protocol == "" || x.protocol in {"rest", "http", "https", "tcp", "tls", "coap+tcp", "coap"}
    ensures FieldInstrs(h, x, 3).Some? <==> x.medium == "" || x.medium in {"eth_all", "wifi_all"}
    ensures FieldInstrs(h, x, 4).Some? <==> GoodPort(x.devicePort)
    ensures FieldInstrs(h, x, 5).Some? <==> GoodPort(x.ownerPort)
    ensures FieldInstrs(h, x, 6).Some? <==> GoodText(x.wifiSsid)
    ensures FieldInstrs(h, x, 7).Some? <==> GoodText(x.wifiPw)
  {
    hide Part, Lookup, Port, Hex.Decode, TextField, CodeField, BytesField, GoodText, GoodPort, GoodHash, GoodIp;
    BytesAccepted(h, x.dns, 0);
    BytesAccepted(h, x.ip, 1);
    CodesAccepted(x.protocol, 2);
    CodesAccepted(x.medium, 3);
    CodesAccepted(x.devicePort, 4);
    CodesAccepted(x.ownerPort, 5);
    BytesAccepted(h, x.wifiSsid, 6);
    BytesAccepted(h, x.wifiPw, 7);
  }

  lemma HighFieldsAccepted(h: Host, x: RvHuman)
    ensures forall k :: 8 <= k < 12 ==> FieldInstrs(h, x, k).Some?
    ensures FieldInstrs(h, x, 12).Some? <==> GoodHash(x.svCertHash)
    ensures FieldInstrs(h, x, 13).Some? <==> GoodHash(x.clCertHash)
    ensures FieldInstrs(h, x, 14).Some? <==> GoodText(x.userInput)
    ensures FieldInstrs(h, x, 15).Some? <==> GoodText(x.extRv)
  {
    hide Part, Lookup, Port, Hex.Decode, TextField, CodeField, BytesField, GoodText, GoodPort, GoodHash, GoodIp;
    BytesAccepted(h, x.svCertHash, 12);
    BytesAccepted(h, x.clCertHash, 13);
    BytesAccepted(h, x.userInput, 14);
    BytesAccepted(h, x.extRv, 15);
    PlainAccepted(x);
  }

  /** A record is accepted exactly when it is good: nothing else is refused or let in. */
  lemma RecordAccepted(h: Host, x: RvHuman)
    ensures ParseItem(h, x).Some? <==> GoodRecord(h, x)
  {
    hide FieldInstrs, Part, Gather, Fields, GoodText, GoodPort, GoodHash, GoodIp;
    GatherExactly(Fields(h, x));
    FieldsAccepted(h, x);
    LowFieldsAccepted(h, x);
    HighFieldsAccepted(h, x);
    assert FieldInstrs(h, x, 0).Some? && FieldInstrs(h, x, 1).Some? && FieldInstrs(h, x, 2).Some?
           && FieldInstrs(h, x, 3).Some? && FieldInstrs(h, x, 4).Some? && FieldInstrs(h, x, 5).Some?
           && FieldInstrs(h, x, 6).Some? && FieldInstrs(h, x, 7).Some? && FieldInstrs(h, x, 12).Some?
           && FieldInstrs(h, x, 13).Some? && FieldInstrs(h, x, 14).Some? && FieldInstrs(h, x, 15).Some?
           <==> forall k :: 0 <= k < |VARIABLES| ==> FieldInstrs(h, x, k).Some?;
  }

  /** Flags and the delay are never refused. */
  lemma PlainAccepted(x: RvHuman)
    ensures Part(8, FlagField(x.devOnly)).Some? && Part(9, FlagField(x.ownerOnly)).Some?
    ensures Part(10, FlagField(x.rvBypass)).Some?
    ensures x.delaySeconds.Some? ==> Part(11, Value(VUint(x.delaySeconds.value))).Some?
    ensures Part(11, Absent).Some?
  {
  }

  // Printing -----------------------------------------------------------------------------------

  function SetFlag(item: RvHuman, variable: nat): RvHuman {
    if variable == RV_DEV_ONLY then item.(devOnly := true)
    else if variable == RV_OWNER_ONLY then item.(ownerOnly := true)
    else if variable == RV_BYPASS then item.(rvBypass := true)
    else item.(userInput := "true")
  }

  /** The text a value prints as; delays are numbers and are not printed this way. */
  function ValueText(h: Host, variable: nat, v: RvValue): string {
    match v
    case VText(s) => s
    case VUint(n) =>
      if variable == RV_PROTOCOL then ProtocolName(n)
      else if variable == RV_MEDIUM then MediumName(n)
      else Decimal.Format(n)
    case VBytes(b) => if variable == RV_IP_ADDRESS then h.printIp(b) else Hex.Encode(b)
    case VTexts(ss) => h.jsonStrings(ss)
  }

  function SetText(item: RvHuman, variable: nat, t: string): RvHuman {
    match variable
    case 2 => item.(ip := t)
    case 3 => item.(devicePort := t)
    case 4 => item.(ownerPort := t)
    case 5 => item.(dns := t)
    case 6 => item.(svCertHash := t)
    case 7 => item.(clCertHash := t)
    case 9 => item.(wifiSsid := t)
    case 10 => item.(wifiPw := t)
    case 11 => item.(medium := t)
    case 12 => item.(protocol := t)
    case 15 => item.(extRv := t)
    case _ => item
  }

  /** The switch over one instruction: decode its value, then assign the struct field. */
  function Apply(h: Host, item: RvHuman, i: Instr): Option<RvHuman> {
    if V2.IsFlag(i.variable) then Some(SetFlag(item, i.variable))
    else if i.variable > RV_EXT_RV then Some(item)
    else
      match Decode(V2.TargetOf(i.variable), i.value)
      case None => None
      case Some(v) =>
        if v.VUint? && v.n < TWO_32 && i.variable == RV_DELAYSEC then Some(item.(delaySeconds := Some(v.n)))
        else Some(SetText(item, i.variable, ValueText(h, i.variable, v)))
  }

  function PrintGroup(h: Host, g: Directive): Option<RvHuman> {
    if g == [] then Some(EMPTY)
    else
      match PrintGroup(h, g[..|g| - 1])
      case Some(item) => Apply(h, item, g[|g| - 1])
      case None => None
  }

  function PrintDoc(h: Host, ds: seq<Directive>): (r: Option<seq<RvHuman>>)
    ensures r.Some? <==> forall d :: 0 <= d < |ds| ==> PrintGroup(h, ds[d]).Some?
    ensures r.Some? ==> |r.value| == |ds|
                        && forall d :: 0 <= d < |ds| ==> PrintGroup(h, ds[d]) == Some(r.value[d])
  {
    if ds == [] then Some([])
    else
      match (PrintDoc(h, ds[..|ds| - 1]), PrintGroup(h, ds[|ds| - 1]))
      case (Some(xs), Some(x)) => Some(xs + [x])
      case _ => None
  }

  /** ConvertRvInstructionsToV1JSON, up to json.Marshal. */
  method Convert(h: Host, ds: seq<Directive>) returns (r: Option<seq<RvHuman>>)
    ensures r == PrintDoc(h, ds)
  {
    hide Apply;
    var out: seq<RvHuman> := [];
    for d := 0 to |ds|
      invariant PrintDoc(h, ds[..d]) == Some(out)
    {
      assert ds[..d + 1][..d] == ds[..d];
      var item := EMPTY;
      for i := 0 to |ds[d]|
        invariant PrintGroup(h, ds[d][..i]) == Some(item)
      {
        assert ds[d][..i + 1][..i] == ds[d][..i];
        var next := Apply(h, item, ds[d][i]);
        if next.None? {
          PrintStuck(h, ds[d], i + 1);
          return None;
        }
        item := next.value;
      }
      assert ds[d][..|ds[d]|] == ds[d];
      out := out + [item];
    }
    assert ds[..|ds|] == ds;
    return Some(out);
  }

  /** Once an instruction fails to decode, the whole record fails. */
  lemma {:induction false} PrintStuck(h: Host, g: Directive, n: nat)
    requires n <= |g| && PrintGroup(h, g[..n]).None?
    ensures PrintGroup(h, g).None?
    decreases |g|
  {
    if n < |g| {
      var g' := g[..|g| - 1];
      assert g'[..n] == g[..n];
      PrintStuck(h, g', n);
    } else {
      assert g[..n] == g;
    }
  }

  // Canonical form -----------------------------------------------------------------------------

  function CanonicalPort(s: string): string {
    match Port(s) case Some(n) => Decimal.Format(n) case None => s
  }

  /** Printed address, decimal ports, lower-case hashes, user_input "true"; all else unchanged. */
  function Canonical(h: Host, x: RvHuman): RvHuman {
    x.(ip := match h.parseIp(x.ip) case Some(b) => h.printIp(b) case None => x.ip,
       devicePort := CanonicalPort(x.devicePort),
       ownerPort := CanonicalPort(x.ownerPort),
       svCertHash := Hex.LowerAll(x.svCertHash),
       clCertHash := Hex.LowerAll(x.clCertHash),
       userInput := if x.userInput == "" then "" else "true")
  }

  /** The first k fields of c, the rest empty. */
  function Upto(c: RvHuman, k: nat): RvHuman {
    RvHuman(
      if k > 0 then c.dns else "", if k > 1 then c.ip else "",
      if k > 2 then c.protocol else "", if k > 3 then c.medium else "",
      if k > 4 then c.devicePort else "", if k > 5 then c.ownerPort else "",
      if k > 6 then c.wifiSsid else "", if k > 7 then c.wifiPw else "",
      k > 8 && c.devOnly, k > 9 && c.ownerOnly, k > 10 && c.rvBypass,
      if k > 11 then c.delaySeconds else None,
      if k > 12 then c.svCertHash else "", if k > 13 then c.clCertHash else "",
      if k > 14 then c.userInput else "", if k > 15 then c.extRv else "")
  }

  predicate IsTextField(k: nat) { k < 8 || 12 <= k < 14 || k == 15 }

  function TextOf(c: RvHuman, k: nat): string
    requires IsTextField(k)
  {
    match k
    case 0 => c.dns
    case 1 => c.ip
    case 2 => c.protocol
    case 3 => c.medium
    case 4 => c.devicePort
    case 5 => c.ownerPort
    case 6 => c.wifiSsid
    case 7 => c.wifiPw
    case 12 => c.svCertHash
    case 13 => c.clCertHash
    case _ => c.extRv
  }

  lemma UptoSucc(c: RvHuman, k: nat)
    requires IsTextField(k)
    ensures SetText(Upto(c, k), VARIABLES[k], TextOf(c, k)) == Upto(c, k + 1)
    ensures TextOf(c, k) == "" ==> Upto(c, k + 1) == Upto(c, k)
  {
  }

  /** A field prints as the canonical text, or is absent and its canonical text is empty. */
  predicate PrintsAs(h: Host, k: nat, f: Field, text: string)
    requires k < |VARIABLES|
  {
    match f
    case Value(v) => Fits(V2.TargetOf(VARIABLES[k]), v) && ValueText(h, VARIABLES[k], v) == text
    case Absent => text == ""
    case _ => false
  }

  lemma CodeText(h: Host, x: RvHuman, k: nat)
    requires 2 <= k < 6 && !FieldOf(h, x, k).Bad?
    ensures PrintsAs(h, k, FieldOf(h, x, k), TextOf(Canonical(h, x), k))
  {
    hide Lookup, ProtocolName, MediumName, Hex.LowerAll, Decimal.Format;
    if k == 2 { CodeName(x.protocol); }
    if k == 3 { CodeName(x.medium); }
  }

  lemma BytesText(h: Host, x: RvHuman, k: nat)
    requires Lawful(h) && (k == 1 || k == 12 || k == 13) && !FieldOf(h, x, k).Bad?
    ensures PrintsAs(h, k, FieldOf(h, x, k), TextOf(Canonical(h, x), k))
  {
    hide Lookup, Port, Hex.Decode, Hex.Encode;
    if k == 12 && Hex.Decode(x.svCertHash).Some? { Hex.EncodeDecode(x.svCertHash); }
    if k == 13 && Hex.Decode(x.clCertHash).Some? { Hex.EncodeDecode(x.clCertHash); }
  }

  /** The value of a text field prints as the canonical text. */
  lemma FieldText(h: Host, x: RvHuman, k: nat)
    requires Lawful(h) && IsTextField(k) && k < 15 && !FieldOf(h, x, k).Bad?
    ensures PrintsAs(h, k, FieldOf(h, x, k), TextOf(Canonical(h, x), k))
  {
    hide Lookup, Port, Hex.Decode, Hex.LowerAll;
    if 2 <= k < 6 {
      CodeText(h, x, k);
    } else if k == 1 || k == 12 || k == 13 {
      BytesText(h, x, k);
    }
  }

  lemma ApplyText(h: Host, item: RvHuman, k: nat, v: RvValue)
    requires IsTextField(k) && Encode(v).Some? && Fits(V2.TargetOf(VARIABLES[k]), v)
    ensures Apply(h, item, Instr(VARIABLES[k], Encode(v).value))
            == Some(SetText(item, VARIABLES[k], ValueText(h, VARIABLES[k], v)))
  {
    hide Encode, Decode, SetText, ValueText;
    DecodeEncode(V2.TargetOf(VARIABLES[k]), v);
  }

  lemma TextFieldPrints(h: Host, x: RvHuman, k: nat)
    requires Lawful(h) && IsTextField(k) && k < 15 && FieldInstrs(h, x, k).Some?
    ensures var c := Canonical(h, x);
            var i := FieldInstrs(h, x, k).value;
            if i == [] then Upto(c, k + 1) == Upto(c, k)
            else Apply(h, Upto(c, k), i[0]) == Some(Upto(c, k + 1))
  {
    hide SetText, ValueText, FieldOf, Apply, Encode, Canonical, Upto, TextOf, Fits;
    var c := Canonical(h, x);
    FieldText(h, x, k);
    UptoSucc(c, k);
    var f := FieldOf(h, x, k);
    if f.Value? { ApplyText(h, Upto(c, k), k, f.v); }
  }

  lemma DelayPrints(h: Host, item: RvHuman, n: u32)
    ensures Encode(VUint(n)).Some?
    ensures Apply(h, item, Instr(RV_DELAYSEC, Encode(VUint(n)).value)) == Some(item.(delaySeconds := Some(n)))
  {
    hide Encode, Decode, SetText, ValueText;
    V2.UintEncodes(n);
    DecodeEncode(IntoUint(0xFFFF_FFFF), VUint(n));
  }

  lemma FlagFieldPrints(h: Host, x: RvHuman, k: nat)
    requires (8 <= k < 11 || k == 14) && FieldInstrs(h, x, k).Some?
    ensures var c := Canonical(h, x);
            var i := FieldInstrs(h, x, k).value;
            if i == [] then Upto(c, k + 1) == Upto(c, k)
            else Apply(h, Upto(c, k), i[0]) == Some(Upto(c, k + 1))
  {
    hide SetText, ValueText, Lookup, Port, Hex.Decode, Encode, Decode, TextOf, CanonicalPort, Hex.LowerAll;
  }

  lemma DelayFieldPrints(h: Host, x: RvHuman)
    requires FieldInstrs(h, x, 11).Some?
    ensures var c := Canonical(h, x);
            var i := FieldInstrs(h, x, 11).value;
            if i == [] then Upto(c, 12) == Upto(c, 11)
            else Apply(h, Upto(c, 11), i[0]) == Some(Upto(c, 12))
  {
    hide Apply, Lookup, Port, Hex.Decode, Encode, CanonicalPort, Hex.LowerAll;
    if x.delaySeconds.Some? { DelayPrints(h, Upto(Canonical(h, x), 11), x.delaySeconds.value); }
  }

  /** Field k of an accepted record prints as the canonical field k. */
  lemma FieldPrints(h: Host, x: RvHuman, k: nat)
    requires Lawful(h) && k < 15 && FieldInstrs(h, x, k).Some?
    ensures var c := Canonical(h, x);
            var i := FieldInstrs(h, x, k).value;
            if i == [] then Upto(c, k + 1) == Upto(c, k)
            else Apply(h, Upto(c, k), i[0]) == Some(Upto(c, k + 1))
  {
    hide FieldInstrs, Canonical, Upto, Apply;
    if IsTextField(k) {
      TextFieldPrints(h, x, k);
    } else if k == 11 {
      DelayFieldPrints(h, x);
    } else {
      FlagFieldPrints(h, x, k);
    }
  }

  lemma {:induction false} CollectPrints(h: Host, x: RvHuman, k: nat)
    requires Lawful(h) && k <= 15 && Collect(h, x, k).Some?
    ensures PrintGroup(h, Collect(h, x, k).value) == Some(Upto(Canonical(h, x), k))
  {
    hide FieldInstrs, Apply, Canonical, Upto;
    if k == 0 {
      UptoNone(Canonical(h, x));
    } else {
      CollectStep(h, x, k - 1);
      CollectPrints(h, x, k - 1);
      FieldPrints(h, x, k - 1);
      var g, i := Collect(h, x, k - 1).value, FieldInstrs(h, x, k - 1).value;
      if i == [] {
        assert g + i == g;
      } else {
        assert (g + i)[..|g|] == g;
      }
    }
  }

  lemma ExtRvFails(h: Host, item: RvHuman, s: string)
    requires Cbor.Text(s).Some?
    ensures Apply(h, item, Instr(RV_EXT_RV, Cbor.Text(s).value)).None?
  {
    DecodeEncode(IntoTexts, VText(s));
  }

  lemma CanonicalNoExtRv(h: Host, x: RvHuman)
    ensures Canonical(h, x).extRv == x.extRv
  {
  }

  lemma UptoNone(c: RvHuman)
    ensures Upto(c, 0) == EMPTY
  {
  }

  lemma UptoAll(c: RvHuman)
    requires c.extRv == ""
    ensures Upto(c, 15) == c
  {
  }

  /**
   * Printing an accepted record gives its canonical form, unless it has ext_rv: that one is stored
   * as a text string, the printer asks for an array of strings, and printing fails.
   */
  lemma ItemPrints(h: Host, x: RvHuman)
    requires Lawful(h) && ParseItem(h, x).Some?
    ensures PrintGroup(h, ParseItem(h, x).value) == if x.extRv == "" then Some(Canonical(h, x)) else None
  {
    hide Apply, Canonical, Upto, Fields, Gather;
    var last := |VARIABLES| - 1;
    CollectStep(h, x, last);
    AllFields(h, x);
    CollectPrints(h, x, last);
    var g, i := Collect(h, x, last).value, FieldInstrs(h, x, last).value;
    assert FieldOf(h, x, last) == TextField(x.extRv);
    if x.extRv == "" {
      assert g + i == g;
      CanonicalNoExtRv(h, x);
      UptoAll(Canonical(h, x));
    } else {
      assert i == [Instr(RV_EXT_RV, Cbor.Text(x.extRv).value)];
      assert (g + i)[..|g|] == g;
      ExtRvFails(h, Upto(Canonical(h, x), last), x.extRv);
    }
  }

  /** POST then GET on V1: the canonical document if and only if no record has ext_rv, else an error. */
  lemma V1RoundTrip(h: Host, doc: seq<RvHuman>)
    requires Lawful(h) && ParseDoc(h, doc).Some? && Marshal(ParseDoc(h, doc).value).Some?
    ensures var ds := ParseDoc(h, doc).value;
            && Unmarshal(Marshal(ds).value) == Some(ds)
            && (PrintDoc(h, ds).Some? <==> forall d :: 0 <= d < |doc| ==> doc[d].extRv == "")
            && (PrintDoc(h, ds).Some? ==>
                  |PrintDoc(h, ds).value| == |doc|
                  && forall d :: 0 <= d < |doc| ==> PrintDoc(h, ds).value[d] == Canonical(h, doc[d]))
  {
    var ds := ParseDoc(h, doc).value;
    StoredRoundTrip(ds);
    forall d | 0 <= d < |doc|
      ensures PrintGroup(h, ds[d]) == if doc[d].extRv == "" then Some(Canonical(h, doc[d])) else None
    {
      ItemPrints(h, doc[d]);
    }
  }

  lemma PortField(s: string)
    requires !CodeField(s, Port(s)).Bad?
    ensures CodeField(CanonicalPort(s), Port(CanonicalPort(s))) == CodeField(s, Port(s))
  {
    if Port(s).Some? { Decimal.AtoiFormat(Port(s).value); }
  }

  lemma HashField(s: string)
    requires !BytesField(s, Hex.Decode(s)).Bad?
    ensures BytesField(Hex.LowerAll(s), Hex.Decode(Hex.LowerAll(s))) == BytesField(s, Hex.Decode(s))
  {
    assert |Hex.LowerAll(s)| == |s|;
    if Hex.Decode(s).Some? { Hex.DecodeLower(s); }
  }

  lemma CanonicalField(h: Host, x: RvHuman, k: nat)
    requires Lawful(h) && k < |VARIABLES| && !FieldOf(h, x, k).Bad?
    ensures FieldOf(h, Canonical(h, x), k)
            == if k == 14 && x.userInput != "" then Value(VText("true")) else FieldOf(h, x, k)
  {
    hide Lookup, Port, Hex.Decode, Hex.LowerAll;
    if k == 4 {
      PortField(x.devicePort);
    } else if k == 5 {
      PortField(x.ownerPort);
    } else if k == 12 {
      HashField(x.svCertHash);
    } else if k == 13 {
      HashField(x.clCertHash);
    }
  }

  lemma {:induction false} NoBadField(fs: seq<Field>, k: nat)
    requires k < |fs| <= |VARIABLES| && Gather(fs).Some?
    ensures !fs[k].Bad?
  {
    var n := |fs| - 1;
    if k < n { NoBadField(fs[..n], k); }
  }

  lemma TextEncodingInjective(s: string, t: string)
    requires Encode(VText(s)).Some? && Encode(VText(s)) == Encode(VText(t))
    ensures s == t
  {
    DecodeEncode(IntoText, VText(s));
    DecodeEncode(IntoText, VText(t));
  }

  lemma TrueEncodes()
    ensures Encode(VText("true")).Some?
  {
    assert "true"[1..] == "rue" && "rue"[1..] == "ue" && "ue"[1..] == "e" && "e"[1..] == "";
    assert |Utf8.Encode("true")| == 4;
  }

  lemma TextPart(k: nat, s: string)
    requires k < |VARIABLES|
    ensures Part(k, Value(VText(s))).Some? <==> Encode(VText(s)).Some?
    ensures Encode(VText(s)).Some? ==> Part(k, Value(VText(s))) == Some([Instr(VARIABLES[k], Encode(VText(s)).value)])
  {
    hide Encode;
  }

  lemma ConcatSame<T>(a: seq<T>, b: seq<T>, c: seq<T>, d: seq<T>)
    requires |a| == |b|
    ensures a + c == b + d <==> a == b && c == d
  {
    if a + c == b + d {
      assert a == (a + c)[..|a|] && b == (b + d)[..|a|];
      assert c == (a + c)[|a|..] && d == (b + d)[|a|..];
    }
  }

  /** Another text in one field is another directive. */
  lemma {:induction false} GatherText(fs: seq<Field>, k: nat, t: string)
    requires k < |fs| <= |VARIABLES| && Gather(fs).Some? && fs[k].Value? && fs[k].v.VText?
    requires Encode(VText(t)).Some?
    ensures var g, g' := Gather(fs), Gather(fs[k := Value(VText(t))]);
            g'.Some? && |g'.value| == |g.value| && (g' == g <==> fs[k].v.s == t)
  {
    hide Encode, Part;
    var n := |fs| - 1;
    var fs' := fs[k := Value(VText(t))];
    var g := Gather(fs[..n]).value;
    if k == n {
      assert fs'[..n] == fs[..n];
      var s := fs[k].v.s;
      assert fs[k] == Value(VText(s));
      TextPart(n, s);
      TextPart(n, t);
      ConcatSame(g, g, Part(n, fs[n]).value, Part(n, fs'[n]).value);
      if Encode(VText(s)) == Encode(VText(t)) { TextEncodingInjective(s, t); }
    } else {
      assert fs'[..n] == fs[..n][k := Value(VText(t))];
      GatherText(fs[..n], k, t);
      ConcatSame(g, Gather(fs'[..n]).value, Part(n, fs[n]).value, Part(n, fs[n]).value);
    }
  }

  lemma UserInputField(h: Host, x: RvHuman)
    ensures FieldOf(h, x, 14) == TextField(x.userInput)
  {
  }

  lemma CanonicalAddressed(h: Host, x: RvHuman)
    requires Lawful(h) && ParseItem(h, x).Some?
    ensures Addressed(Canonical(h, x))
  {
    NoBadField(Fields(h, x), 1);
    CanonicalField(h, x, 1);
  }

  /**
   * GET then PUT on V1: the canonical record is accepted, and stores the same directive as the
   * original if and only if user_input is absent or already spelled "true". Canonicalising twice
   * changes nothing.
   */
  lemma CanonicalReparses(h: Host, x: RvHuman)
    requires Lawful(h) && ParseItem(h, x).Some?
    ensures ParseItem(h, Canonical(h, x)).Some?
    ensures ParseItem(h, Canonical(h, x)) == ParseItem(h, x) <==> x.userInput == "" || x.userInput == "true"
    ensures Canonical(h, Canonical(h, x)) == Canonical(h, x)
  {
    hide FieldOf, Gather, Canonical, Encode, Addressed;
    var c := Canonical(h, x);
    var fs := Fields(h, x);
    forall k | 0 <= k < |VARIABLES|
      ensures Fields(h, c)[k] == if k == 14 && x.userInput != "" then Value(VText("true")) else fs[k]
    {
      NoBadField(fs, k);
      CanonicalField(h, x, k);
    }
    CanonicalAddressed(h, x);
    CanonicalTwice(h, x);
    TrueEncodes();
    if x.userInput == "" {
      assert Fields(h, c) == fs;
    } else {
      UserInputField(h, x);
      assert Fields(h, c) == fs[14 := Value(VText("true"))];
      GatherText(fs, 14, "true");
    }
  }

  lemma CanonicalTwice(h: Host, x: RvHuman)
    requires Lawful(h)
    ensures Canonical(h, Canonical(h, x)) == Canonical(h, x)
  {
    if Port(x.devicePort).Some? { Decimal.AtoiFormat(Port(x.devicePort).value); }
    if Port(x.ownerPort).Some? { Decimal.AtoiFormat(Port(x.ownerPort).value); }
    assert Hex.LowerAll(Hex.LowerAll(x.svCertHash)) == Hex.LowerAll(x.svCertHash);
    assert Hex.LowerAll(Hex.LowerAll(x.clCertHash)) == Hex.LowerAll(x.clCertHash);
  }

  /**
   * The whole document through V1 GET and PUT: the GET succeeds if and only if no record has ext_rv,
   * and then the PUT is accepted and leaves the stored directives unchanged if and only if every
   * user_input is absent or "true".
   */
  lemma V1GetPut(h: Host, doc: seq<RvHuman>)
    requires Lawful(h) && ParseDoc(h, doc).Some?
    ensures var printed := PrintDoc(h, ParseDoc(h, doc).value);
            && (printed.Some? <==> forall d :: 0 <= d < |doc| ==> doc[d].extRv == "")
            && (printed.Some? ==>
                  && ParseDoc(h, printed.value).Some?
                  && (ParseDoc(h, printed.value) == ParseDoc(h, doc)
                      <==> forall d :: 0 <= d < |doc| ==> doc[d].userInput == "" || doc[d].userInput == "true"))
  {
    hide ParseItem, PrintGroup, Canonical;
    var ds := ParseDoc(h, doc).value;
    forall d | 0 <= d < |doc|
      ensures PrintGroup(h, ds[d]) == if doc[d].extRv == "" then Some(Canonical(h, doc[d])) else None
      ensures ParseItem(h, Canonical(h, doc[d])).Some?
      ensures ParseItem(h, Canonical(h, doc[d])) == Some(ds[d])
              <==> doc[d].userInput == "" || doc[d].userInput == "true"
    {
      ItemPrints(h, doc[d]);
      CanonicalReparses(h, doc[d]);
    }
    if PrintDoc(h, ds).Some? {
      var printed := PrintDoc(h, ds).value;
      assert forall d :: 0 <= d < |doc| ==> printed[d] == Canonical(h, doc[d]);
      assert ParseDoc(h, printed).Some?;
      var again := ParseDoc(h, printed).value;
      assert again == ds <==> forall d :: 0 <= d < |ds| ==> again[d] == ds[d];
    }
  }

  // Reading through the other API --------------------------------------------------------------

  /** GET then PUT of one instruction through V2. */
  function ViaV2(h: Host, i: Instr): Option<Instr> {
    match V2.PrintInstr(h, i)
    case None => None
    case Some(m) => match V2.ParseObject(h, m) case Ok(j) => Some(j) case Err(_) => None
  }

  lemma ViaV2Value(h: Host, i: Instr)
    requires i.variable <= RV_EXT_RV
    ensures V2.PrintValue(h, i).None? ==> ViaV2(h, i).None?
    ensures V2.PrintValue(h, i).Some? ==>
              var r := V2.ParseValue(h, i.variable, V2.PrintValue(h, i).value);
              ViaV2(h, i) == if r.Ok? then Some(r.value) else None
  {
    var key := V2.Key(i.variable).value;
    if V2.PrintValue(h, i).Some? {
      var m := map[key := V2.PrintValue(h, i).value];
      V2.SingleKey(m);
      assert key in m;
      V2.KeyInjective(i.variable);
    }
  }

  /** The values V2 can print and read back: addresses that reparse, named codes, ports, delays. */
  predicate V2Prints(h: Host, variable: nat, v: RvValue) {
    && Fits(V2.TargetOf(variable), v)
    && (variable == RV_IP_ADDRESS ==> h.parseIp(h.printIp(v.b)) == Some(v.b))
    && (variable == RV_PROTOCOL ==> v.n < 7)
    && (variable == RV_MEDIUM ==> v.n == MED_ETH_ALL || v.n == MED_WIFI_ALL)
    && (V2.IsPort(variable) ==> v.n >= 1)
  }

  lemma ValueViaV2(h: Host, variable: nat, v: RvValue)
    requires Lawful(h) && variable <= RV_EXT_RV && !V2.IsFlag(variable)
    requires Encode(v).Some? && V2Prints(h, variable, v)
    ensures ViaV2(h, Instr(variable, Encode(v).value)) == Some(Instr(variable, Encode(v).value))
  {
    hide ViaV2, Encode, Decode, Lookup;
    var i := Instr(variable, Encode(v).value);
    ViaV2Value(h, i);
    DecodeEncode(V2.TargetOf(variable), v);
    assert V2.PrintValue(h, i) == Some(V2.PrintRvValue(h, variable, v));
    ValueReparses(h, variable, v);
  }

  lemma ValueReparses(h: Host, variable: nat, v: RvValue)
    requires Lawful(h) && variable <= RV_EXT_RV && !V2.IsFlag(variable)
    requires Encode(v).Some? && V2Prints(h, variable, v)
    ensures V2.ParseValue(h, variable, V2.PrintRvValue(h, variable, v)) == Ok(Instr(variable, Encode(v).value))
  {
    hide Encode, Lookup, ProtocolName, MediumName, Hex.Decode, Hex.Encode, V2.Strings, V2.Quoted;
    match v
    case VText(s) =>
    case VUint(n) =>
      NameCode(n);
      assert (n as real).Floor == n;
    case VBytes(b) => Hex.DecodeEncode(b);
    case VTexts(ss) => V2.StringsQuoted(ss);
  }

  lemma FieldKind(h: Host, x: RvHuman, k: nat)
    requires k < |VARIABLES|
    ensures FieldOf(h, x, k).Flag? ==> V2.IsFlag(VARIABLES[k]) && k != 14
    ensures FieldOf(h, x, k).Value? && k != 14 ==> !V2.IsFlag(VARIABLES[k])
    ensures FieldOf(h, x, k).Value? && Encode(FieldOf(h, x, k).v).Some? ==> Encode(FieldOf(h, x, k).v).value != []
  {
    hide Lookup, Hex.Decode, Port;
  }

  lemma FieldV2Prints(h: Host, x: RvHuman, k: nat)
    requires Lawful(h) && k < 14 && FieldOf(h, x, k).Value?
    ensures V2Prints(h, VARIABLES[k], FieldOf(h, x, k).v)
  {
    hide Lookup, ProtocolName, MediumName, Hex.Decode;
    if k == 2 { CodeName(x.protocol); }
    if k == 3 { CodeName(x.medium); }
  }

  /** V2 returns each V1 field as it is stored, except user_input, whose text it drops. */
  lemma FieldViaV2(h: Host, x: RvHuman, k: nat)
    requires Lawful(h) && k < 15 && FieldInstrs(h, x, k).Some? && FieldInstrs(h, x, k).value != []
    ensures var i := FieldInstrs(h, x, k).value[0];
            ViaV2(h, i) == Some(if k == 14 then Instr(RV_USER_INPUT, []) else i)
            && (k == 14 ==> i.value != [])
  {
    hide ViaV2, V2Prints, Encode, FieldOf;
    var i := FieldInstrs(h, x, k).value[0];
    var f := FieldOf(h, x, k);
    FieldKind(h, x, k);
    if f.Value? && k != 14 {
      FieldV2Prints(h, x, k);
      ValueViaV2(h, VARIABLES[k], f.v);
    } else {
      ViaV2Value(h, i);
    }
  }

  /** The JSON names of the fields, which both APIs share. */
  const NAMES: seq<string> :=
    ["dns", "ip", "protocol", "medium", "device_port", "owner_port", "wifi_ssid", "wifi_pw",
     "dev_only", "owner_only", "rv_bypass", "delay_seconds", "sv_cert_hash", "cl_cert_hash",
     "user_input", "ext_rv"]

  /** What V2 shows for field k: the canonical text, with ports and delays as numbers and flags as true. */
  function AsV2(h: Host, x: RvHuman, k: nat): V2.Json
    requires k < 15
  {
    match k
    case 4 => if Port(x.devicePort).Some? then V2.JNum(Port(x.devicePort).value as real) else V2.JNull
    case 5 => if Port(x.ownerPort).Some? then V2.JNum(Port(x.ownerPort).value as real) else V2.JNull
    case 11 => if x.delaySeconds.Some? then V2.JNum(x.delaySeconds.value as real) else V2.JNull
    case _ => if IsTextField(k) then V2.JStr(TextOf(Canonical(h, x), k)) else V2.JBool(true)
  }

  /** V2 GET shows every field of a V1 record under its own name with its own value. */
  lemma FieldShownByV2(h: Host, x: RvHuman, k: nat)
    requires Lawful(h) && k < 15 && FieldInstrs(h, x, k).Some? && FieldInstrs(h, x, k).value != []
    ensures V2.PrintInstr(h, FieldInstrs(h, x, k).value[0]) == Some(map[NAMES[k] := AsV2(h, x, k)])
  {
    hide ValueText, V2.PrintRvValue, Decode, Lookup, Hex.Decode, Hex.LowerAll;
    var i := FieldInstrs(h, x, k).value[0];
    var f := FieldOf(h, x, k);
    KeyIsName(k);
    if IsTextField(k) {
      FieldText(h, x, k);
      ValueShown(h, VARIABLES[k], f.v);
    } else if k == 11 {
      ValueShown(h, RV_DELAYSEC, f.v);
    }
  }

  lemma KeyIsName(k: nat)
    requires k < |VARIABLES|
    ensures V2.Key(VARIABLES[k]) == Some(NAMES[k])
  {
  }

  lemma ValueShown(h: Host, variable: nat, v: RvValue)
    requires Encode(v).Some? && Fits(V2.TargetOf(variable), v) && !v.VTexts? && !V2.IsFlag(variable)
    ensures V2.PrintValue(h, Instr(variable, Encode(v).value))
            == Some(if V2.IsPort(variable) || variable == RV_DELAYSEC then V2.JNum(v.n as real)
                    else V2.JStr(ValueText(h, variable, v)))
  {
    DecodeEncode(V2.TargetOf(variable), v);
  }

  /** What V2 makes of a V1 instruction: user_input loses its text, the others stay. */
  function Bare(i: Instr): Instr { if i.variable == RV_USER_INPUT then Instr(RV_USER_INPUT, []) else i }

  function BareGroup(g: Directive): Directive { V2.MapSeq(Bare, g) }

  function BareDoc(ds: seq<Directive>): seq<Directive> { V2.MapSeq(BareGroup, ds) }

  /** Every instruction survives GET and PUT through V2 up to Bare. */
  ghost predicate Survives(h: Host, g: Directive) {
    forall j :: 0 <= j < |g| ==> ViaV2(h, g[j]) == Some(Bare(g[j]))
  }

  predicate HasUserInput(g: Directive) {
    exists j :: 0 <= j < |g| && g[j].variable == RV_USER_INPUT && g[j].value != []
  }

  lemma {:induction false} GroupViaV2(h: Host, g: Directive, d: nat, i: nat)
    requires Survives(h, g)
    ensures V2.PrintGroup(h, g).Some?
    ensures V2.ParseGroup(h, V2.PrintGroup(h, g).value, d, i) == Ok(BareGroup(g))
  {
    hide V2.PrintInstr, V2.ParseObject;
    if g != [] {
      assert ViaV2(h, g[0]) == Some(Bare(g[0]));
      assert Survives(h, g[1..]);
      GroupViaV2(h, g[1..], d, i + 1);
      var objects := V2.PrintGroup(h, g).value;
      assert objects[1..] == V2.PrintGroup(h, g[1..]).value;
      assert BareGroup(g) == [Bare(g[0])] + BareGroup(g[1..]);
    }
  }

  lemma BareAddress(g: Directive)
    requires HasAddress(g)
    ensures HasAddress(BareGroup(g))
  {
    var k :| 0 <= k < |g| && IsAddress(g[k]);
    assert IsAddress(BareGroup(g)[k]);
  }

  lemma {:induction false} DocViaV2(h: Host, ds: seq<Directive>, d: nat)
    requires forall j :: 0 <= j < |ds| ==> Survives(h, ds[j]) && HasAddress(ds[j])
    ensures V2.PrintDoc(h, ds).Some?
    ensures V2.ParseDoc(h, V2.PrintDoc(h, ds).value, d) == Ok(BareDoc(ds))
  {
    hide ViaV2, Survives, HasAddress, V2.ParseGroup, V2.PrintGroup, BareGroup;
    if ds != [] {
      assert Survives(h, ds[0]) && HasAddress(ds[0]);
      GroupViaV2(h, ds[0], d, 0);
      BareAddress(ds[0]);
      DocViaV2(h, ds[1..], d + 1);
      var doc := V2.PrintDoc(h, ds).value;
      assert doc[1..] == V2.PrintDoc(h, ds[1..]).value;
      assert BareDoc(ds) == [BareGroup(ds[0])] + BareDoc(ds[1..]);
    }
  }

  lemma HasAddressConcat(g: Directive, i: Directive)
    ensures HasAddress(g + i) <==> HasAddress(g) || HasAddress(i)
  {
    var r := g + i;
    if HasAddress(g) {
      var k :| 0 <= k < |g| && IsAddress(g[k]);
      assert IsAddress(r[k]);
    }
    if HasAddress(i) {
      var k :| 0 <= k < |i| && IsAddress(i[k]);
      assert IsAddress(r[|g| + k]);
    }
  }

  lemma SurvivesConcat(h: Host, g: Directive, i: Directive)
    requires Survives(h, g) && Survives(h, i)
    ensures Survives(h, g + i)
    ensures HasUserInput(g + i) <==> HasUserInput(g) || HasUserInput(i)
  {
    var r := g + i;
    forall j | 0 <= j < |r|
      ensures ViaV2(h, r[j]) == Some(Bare(r[j]))
    {
      assert r[j] == if j < |g| then g[j] else i[j - |g|];
    }
    if HasUserInput(g) {
      var j :| 0 <= j < |g| && g[j].variable == RV_USER_INPUT && g[j].value != [];
      assert r[j] == g[j];
    }
    if HasUserInput(i) {
      var j :| 0 <= j < |i| && i[j].variable == RV_USER_INPUT && i[j].value != [];
      assert r[|g| + j] == i[j];
    }
  }

  lemma EmptySurvives(h: Host)
    ensures Survives(h, []) && !HasUserInput([]) && !HasAddress([])
  {
  }

  lemma SurvivesStep(h: Host, x: RvHuman, k: nat)
    requires Lawful(h) && k < 15 && FieldInstrs(h, x, k).Some?
    ensures var i := FieldInstrs(h, x, k).value;
            Survives(h, i) && (HasUserInput(i) <==> k == 14 && x.userInput != "")
            && (HasAddress(i) <==> (k == 0 && x.dns != "") || (k == 1 && x.ip != ""))
  {
    hide ViaV2, Lookup;
    var i := FieldInstrs(h, x, k).value;
    if i != [] {
      FieldViaV2(h, x, k);
      assert i == [i[0]];
    }
  }

  lemma {:induction false} CollectSurvives(h: Host, x: RvHuman, k: nat)
    requires Lawful(h) && k <= 15 && Collect(h, x, k).Some?
    ensures var g := Collect(h, x, k).value;
            Survives(h, g) && (HasUserInput(g) <==> k == 15 && x.userInput != "")
            && (HasAddress(g) <==> (k > 0 && x.dns != "") || (k > 1 && x.ip != ""))
  {
    hide FieldInstrs, Survives, HasUserInput, HasAddress;
    EmptySurvives(h);
    if k > 0 {
      CollectStep(h, x, k - 1);
      CollectSurvives(h, x, k - 1);
      SurvivesStep(h, x, k - 1);
      var g, i := Collect(h, x, k - 1).value, FieldInstrs(h, x, k - 1).value;
      HasAddressConcat(g, i);
      SurvivesConcat(h, g, i);
    }
  }

  lemma BareUnchanged(g: Directive)
    ensures BareGroup(g) == g ==> !HasUserInput(g)
    ensures !HasUserInput(g) ==> BareGroup(g) == g
  {
    if HasUserInput(g) {
      var j :| 0 <= j < |g| && g[j].variable == RV_USER_INPUT && g[j].value != [];
      assert BareGroup(g)[j] != g[j];
    } else {
      assert forall j :: 0 <= j < |g| ==> BareGroup(g)[j] == g[j];
    }
  }

  lemma ItemViaV2(h: Host, x: RvHuman)
    requires Lawful(h) && ParseItem(h, x).Some? && x.extRv == ""
    ensures var g := ParseItem(h, x).value;
            Survives(h, g) && HasAddress(g) && (BareGroup(g) == g <==> x.userInput == "")
  {
    hide ViaV2;
    var last := |VARIABLES| - 1;
    CollectStep(h, x, last);
    var g := Collect(h, x, last).value;
    CollectSurvives(h, x, last);
    assert FieldOf(h, x, last) == Absent;
    assert g + [] == g;
    BareUnchanged(g);
  }

  lemma {:induction false} GroupPrintFails(h: Host, g: Directive, j: nat)
    requires j < |g| && V2.PrintInstr(h, g[j]).None?
    ensures V2.PrintGroup(h, g).None?
  {
    if j > 0 { GroupPrintFails(h, g[1..], j - 1); }
  }

  lemma {:induction false} DocPrintFails(h: Host, ds: seq<Directive>, d: nat)
    requires d < |ds| && V2.PrintGroup(h, ds[d]).None?
    ensures V2.PrintDoc(h, ds).None?
  {
    if d > 0 { DocPrintFails(h, ds[1..], d - 1); }
  }

  lemma ExtRvField(h: Host, x: RvHuman)
    requires x.extRv != "" && FieldInstrs(h, x, 15).Some?
    ensures Encode(VText(x.extRv)).Some?
    ensures FieldInstrs(h, x, 15).value == [Instr(RV_EXT_RV, Encode(VText(x.extRv)).value)]
  {
    hide Encode;
  }

  lemma ExtRvUnprintable(h: Host, s: string)
    requires Encode(VText(s)).Some?
    ensures V2.PrintInstr(h, Instr(RV_EXT_RV, Encode(VText(s)).value)).None?
  {
    hide Encode, Decode;
    DecodeEncode(IntoTexts, VText(s));
  }

  lemma ExtRvFailsV2(h: Host, x: RvHuman)
    requires ParseItem(h, x).Some? && x.extRv != ""
    ensures V2.PrintGroup(h, ParseItem(h, x).value).None?
  {
    hide FieldInstrs, Gather, Fields, Encode, V2.PrintInstr, V2.PrintGroup;
    var last := |VARIABLES| - 1;
    CollectStep(h, x, last);
    AllFields(h, x);
    var g, i := Collect(h, x, last).value, FieldInstrs(h, x, last).value;
    ExtRvField(h, x);
    ExtRvUnprintable(h, x.extRv);
    assert (g + i)[|g|] == i[0];
    GroupPrintFails(h, g + i, |g|);
  }

  /**
   * A stored V1 document read with V2 GET and written back with V2 PUT: the GET succeeds if and
   * only if no record has ext_rv, and then the PUT is accepted and leaves the stored directives
   * unchanged if and only if no record has user_input.
   */
  lemma V2GetPutOnV1(h: Host, doc: seq<RvHuman>)
    requires Lawful(h) && ParseDoc(h, doc).Some?
    ensures var printed := V2.PrintDoc(h, ParseDoc(h, doc).value);
            && (printed.Some? <==> forall d :: 0 <= d < |doc| ==> doc[d].extRv == "")
            && (printed.Some? ==>
                  && V2.ParseDoc(h, printed.value, 0).Ok?
                  && (V2.ParseDoc(h, printed.value, 0).value == ParseDoc(h, doc).value
                      <==> forall d :: 0 <= d < |doc| ==> doc[d].userInput == ""))
  {
    hide ViaV2, ParseItem, V2.ParseDoc, V2.PrintDoc, V2.PrintGroup;
    var ds := ParseDoc(h, doc).value;
    if d :| 0 <= d < |doc| && doc[d].extRv != "" {
      ExtRvFailsV2(h, doc[d]);
      DocPrintFails(h, ds, d);
    } else {
      forall d | 0 <= d < |doc|
        ensures Survives(h, ds[d]) && HasAddress(ds[d])
        ensures BareGroup(ds[d]) == ds[d] <==> doc[d].userInput == ""
      {
        ItemViaV2(h, doc[d]);
      }
      DocViaV2(h, ds, 0);
      assert BareDoc(ds) == ds <==> forall d :: 0 <= d < |ds| ==> BareDoc(ds)[d] == ds[d];
    }
  }

  // A V2 document through V1 -------------------------------------------------------------------

  /** Where the V1 parser visits a variable. */
  const POSITIONS: seq<nat> := [8, 9, 1, 4, 5, 0, 12, 13, 14, 6, 7, 3, 2, 11, 10, 15]

  function Pos(variable: nat): nat { if variable <= RV_EXT_RV then POSITIONS[variable] else |VARIABLES| }

  lemma PosInverse(variable: nat, k: nat)
    ensures variable <= RV_EXT_RV ==> Pos(variable) < |VARIABLES| && VARIABLES[Pos(variable)] == variable
    ensures k < |VARIABLES| ==> VARIABLES[k] <= RV_EXT_RV && Pos(VARIABLES[k]) == k
  {
  }

  /** The instruction holds the value v, which V2 could have stored. */
  predicate Carries(h: Host, i: Instr, v: RvValue) {
    i.variable <= RV_EXT_RV && !V2.IsFlag(i.variable) && Encode(v) == Some(i.value) && V2Prints(h, i.variable, v)
  }

  /** What V2 stores: a bare flag, or a value of the variable's kind. */
  ghost predicate FromV2(h: Host, i: Instr) {
    i.variable <= RV_EXT_RV && if V2.IsFlag(i.variable) then i.value == [] else exists v :: Carries(h, i, v)
  }

  ghost predicate AllFromV2(h: Host, g: Directive) { forall j :: 0 <= j < |g| ==> FromV2(h, g[j]) }

  lemma StoredByV2(h: Host, variable: nat, v: V2.Json)
    requires Lawful(h) && variable <= RV_EXT_RV && V2.ParseValue(h, variable, v).Ok?
    ensures V2.ParseValue(h, variable, v).value.variable == variable
    ensures FromV2(h, V2.ParseValue(h, variable, v).value)
  {
    hide Encode, Lookup, Hex.Decode, V2.Strings, ProtocolName, MediumName;
    var i := V2.ParseValue(h, variable, v).value;
    if !V2.IsFlag(variable) {
      var w :=
        if V2.IsHash(variable) then VBytes(Hex.Decode(v.s).value)
        else if V2.IsPort(variable) then VUint(V2.PortValue(v).value)
        else if variable == RV_IP_ADDRESS then VBytes(h.parseIp(v.s).value)
        else if variable == RV_PROTOCOL then VUint(ProtocolCode(v.s).value)
        else if variable == RV_MEDIUM then VUint(MediumCode(v.s).value)
        else if variable == RV_DELAYSEC then VUint(h.toUint32(v.n.Floor))
        else if variable == RV_EXT_RV then VTexts(V2.Strings(v.items).value)
        else VText(v.s);
      if v.JStr? { CodeName(v.s); }
      assert Carries(h, i, w);
    }
  }

  lemma ObjectFromV2(h: Host, m: V2.Object)
    requires Lawful(h) && V2.ParseObject(h, m).Ok?
    ensures FromV2(h, V2.ParseObject(h, m).value)
  {
    hide FromV2, V2.ParseValue, Lookup;
    V2.SingleKey(m);
    var key :| key in m;
    assert m == map[key := m[key]];
    V2.KeyOfVariable(key);
    StoredByV2(h, V2.Variable(key).value, m[key]);
  }

  lemma {:induction false} GroupFromV2(h: Host, group: seq<V2.Object>, d: nat, i: nat)
    requires Lawful(h) && V2.ParseGroup(h, group, d, i).Ok?
    ensures AllFromV2(h, V2.ParseGroup(h, group, d, i).value)
  {
    hide FromV2, V2.ParseObject;
    if group != [] {
      ObjectFromV2(h, group[0]);
      GroupFromV2(h, group[1..], d, i + 1);
    }
  }

  lemma {:induction false} DocFromV2(h: Host, doc: V2.Document, d: nat)
    requires Lawful(h) && V2.ParseDoc(h, doc, d).Ok?
    ensures var ds := V2.ParseDoc(h, doc, d).value;
            forall j :: 0 <= j < |ds| ==> AllFromV2(h, ds[j]) && HasAddress(ds[j])
  {
    hide AllFromV2, HasAddress, V2.ParseGroup;
    if doc != [] {
      GroupFromV2(h, doc[0], d, 0);
      DocFromV2(h, doc[1..], d + 1);
    }
  }

  /** An empty text or hash, which V1 reads as an absent field. */
  predicate Blank(i: Instr) {
    || (i.variable in {RV_DNS, RV_WIFI_SSID, RV_WIFI_PW} && Decode(IntoText, i.value) == Some(VText("")))
    || (V2.IsHash(i.variable) && Decode(IntoBytes, i.value) == Some(VBytes([])))
  }

  predicate Keeps(i: Instr) { i.variable != RV_USER_INPUT && i.variable != RV_EXT_RV && !Blank(i) }

  predicate InOrder(g: Directive) {
    forall i, j :: 0 <= i < j < |g| ==> Pos(g[i].variable) < Pos(g[j].variable)
  }

  /** In V1 field order without repetition, and nothing that V1 drops or respells. */
  predicate V1Shaped(g: Directive) { InOrder(g) && forall j :: 0 <= j < |g| ==> Keeps(g[j]) }

  lemma ValueApplied(h: Host, item: RvHuman, i: Instr, v: RvValue)
    requires Carries(h, i, v)
    ensures Apply(h, item, i) == Some(if i.variable == RV_DELAYSEC then item.(delaySeconds := Some(v.n))
                                      else SetText(item, i.variable, ValueText(h, i.variable, v)))
    ensures Decode(V2.TargetOf(i.variable), i.value) == Some(v)
  {
    hide Encode, Decode, SetText, ValueText;
    DecodeEncode(V2.TargetOf(i.variable), v);
  }

  lemma {:induction false} PrintsFromV2(h: Host, g: Directive)
    requires AllFromV2(h, g)
    ensures PrintGroup(h, g).Some?
  {
    hide Apply, Carries;
    if g != [] {
      var n := |g| - 1;
      assert FromV2(h, g[n]);
      PrintsFromV2(h, g[..n]);
      ApplySucceeds(h, PrintGroup(h, g[..n]).value, g[n]);
    }
  }

  lemma ApplySucceeds(h: Host, item: RvHuman, i: Instr)
    requires FromV2(h, i)
    ensures Apply(h, item, i).Some?
  {
    hide Carries, SetText, ValueText, Decode;
    if !V2.IsFlag(i.variable) {
      var v :| Carries(h, i, v);
      ValueApplied(h, item, i, v);
    }
  }

  /** The fields that are not printed as text. */
  predicate SameOthers(x: RvHuman, y: RvHuman) {
    && x.devOnly == y.devOnly && x.ownerOnly == y.ownerOnly && x.rvBypass == y.rvBypass
    && x.delaySeconds == y.delaySeconds && x.userInput == y.userInput
  }

  /** SetText by position. */
  function PutText(item: RvHuman, k: nat, t: string): RvHuman
    requires IsTextField(k) && k < 14
  {
    match k
    case 0 => item.(dns := t)
    case 1 => item.(ip := t)
    case 2 => item.(protocol := t)
    case 3 => item.(medium := t)
    case 4 => item.(devicePort := t)
    case 5 => item.(ownerPort := t)
    case 6 => item.(wifiSsid := t)
    case 7 => item.(wifiPw := t)
    case 12 => item.(svCertHash := t)
    case _ => item.(clCertHash := t)
  }

  lemma SetTextPuts(item: RvHuman, k: nat, t: string)
    requires IsTextField(k) && k < 14
    ensures SetText(item, VARIABLES[k], t) == PutText(item, k, t)
  {
  }

  lemma SetTextTexts(item: RvHuman, k: nat, t: string, j: nat)
    requires IsTextField(k) && k < 14 && IsTextField(j)
    ensures TextOf(PutText(item, k, t), j) == if j == k then t else TextOf(item, j)
  {
  }

  lemma SetTextOthers(item: RvHuman, k: nat, t: string)
    requires IsTextField(k) && k < 14
    ensures SameOthers(PutText(item, k, t), item)
  {
  }

  lemma SameField(h: Host, x: RvHuman, y: RvHuman, j: nat)
    requires j < |VARIABLES|
    requires if IsTextField(j) then TextOf(x, j) == TextOf(y, j) else SameOthers(x, y)
    ensures FieldOf(h, x, j) == FieldOf(h, y, j)
  {
    hide Lookup, Port, Hex.Decode, CodeField, BytesField, TextField, FlagField;
  }

  /** A text set in one field is read from that field, and the other fields are as before. */
  lemma SetTextField(h: Host, item: RvHuman, k: nat, t: string, j: nat)
    requires IsTextField(k) && k < 14 && j < |VARIABLES| && j != k
    ensures FieldOf(h, SetText(item, VARIABLES[k], t), j) == FieldOf(h, item, j)
    ensures TextOf(SetText(item, VARIABLES[k], t), k) == t
  {
    hide FieldOf, SetText, PutText, TextOf, SameOthers;
    SetTextPuts(item, k, t);
    SetTextTexts(item, k, t, k);
    if IsTextField(j) { SetTextTexts(item, k, t, j); } else { SetTextOthers(item, k, t); }
    SameField(h, PutText(item, k, t), item, j);
  }

  /** The printed text of a value that is not blank parses to that value. */
  lemma TextParsesBack(h: Host, x: RvHuman, k: nat, v: RvValue)
    requires Lawful(h) && IsTextField(k) && k < 14 && V2Prints(h, VARIABLES[k], v)
    requires TextOf(x, k) == ValueText(h, VARIABLES[k], v)
    requires v != VText("") && (v == VBytes([]) ==> k == 1)
    ensures FieldOf(h, x, k) == Value(v)
  {
    hide Lookup, ProtocolName, MediumName, Hex.Decode, Hex.Encode, Decimal.Atoi, Decimal.Format;
    if v.VUint? {
      NameCode(v.n);
      NamesNotEmpty(v.n);
      Decimal.AtoiFormat(v.n);
    } else if v.VBytes? {
      Hex.DecodeEncode(v.b);
      HexNotEmpty(v.b);
    }
  }

  lemma NamesNotEmpty(n: nat)
    ensures ProtocolName(n) != "" && MediumName(n) != "" && Decimal.Format(n) != ""
  {
  }

  lemma HexNotEmpty(b: Bytes)
    ensures b != [] ==> Hex.Encode(b) != ""
  {
  }

  /** Applying an instruction that V1 keeps makes its field stand for it, and changes no other. */
  lemma ApplyField(h: Host, item: RvHuman, i: Instr, j: nat)
    requires Lawful(h) && FromV2(h, i) && Keeps(i) && j < |VARIABLES|
    ensures Apply(h, item, i).Some?
    ensures j != Pos(i.variable) ==> FieldOf(h, Apply(h, item, i).value, j) == FieldOf(h, item, j)
    ensures Pos(i.variable) < |VARIABLES|
            && Part(Pos(i.variable), FieldOf(h, Apply(h, item, i).value, Pos(i.variable))) == Some([i])
  {
    PosInverse(i.variable, 0);
    if V2.IsFlag(i.variable) {
      FlagApplied(h, item, i, j);
    } else {
      hide Carries, FieldOf, Part, Decode, Blank;
      var v :| Carries(h, i, v);
      ValueApplied(h, item, i, v);
      ValueField(h, item, i, v, j);
    }
  }

  lemma FlagApplied(h: Host, item: RvHuman, i: Instr, j: nat)
    requires V2.IsFlag(i.variable) && i.variable != RV_USER_INPUT && i.value == [] && j < |VARIABLES|
    ensures Apply(h, item, i).Some?
    ensures j != Pos(i.variable) ==> FieldOf(h, Apply(h, item, i).value, j) == FieldOf(h, item, j)
    ensures Part(Pos(i.variable), FieldOf(h, Apply(h, item, i).value, Pos(i.variable))) == Some([i])
  {
    hide Lookup, Port, Hex.Decode;
  }

  lemma ValueField(h: Host, item: RvHuman, i: Instr, v: RvValue, j: nat)
    requires Lawful(h) && Carries(h, i, v) && Keeps(i) && j < |VARIABLES|
    requires Decode(V2.TargetOf(i.variable), i.value) == Some(v)
    ensures var x := if i.variable == RV_DELAYSEC then item.(delaySeconds := Some(v.n))
                     else SetText(item, i.variable, ValueText(h, i.variable, v));
            var k := Pos(i.variable);
            && (j != k ==> FieldOf(h, x, j) == FieldOf(h, item, j))
            && k < |VARIABLES| && Part(k, FieldOf(h, x, k)) == Some([i])
  {
    hide Encode, Decode, Lookup, Port, Hex.Decode, SetText, ValueText;
    var k := Pos(i.variable);
    PosInverse(i.variable, k);
    if i.variable == RV_DELAYSEC {
      DelayField(h, item, v.n, j);
    } else {
      var t := ValueText(h, i.variable, v);
      if j != k { SetTextField(h, item, k, t, j); }
      SetTextField(h, item, k, t, if k == 0 then 1 else 0);
      TextParsesBack(h, SetText(item, i.variable, t), k, v);
    }
  }

  lemma DelayField(h: Host, item: RvHuman, n: u32, j: nat)
    requires j < |VARIABLES|
    ensures var x := item.(delaySeconds := Some(n));
            (j != 11 ==> FieldOf(h, x, j) == FieldOf(h, item, j)) && FieldOf(h, x, 11) == Value(VUint(n))
  {
    hide Lookup, Port, Hex.Decode;
  }

  /** No instruction of the directive belongs to field k. */
  predicate Unused(g: Directive, k: nat) { forall j :: 0 <= j < |g| ==> Pos(g[j].variable) != k }

  /** The fields of a record stand for exactly the instructions of the directive. */
  predicate Spells(fs: seq<Field>, g: Directive)
    requires |fs| <= |VARIABLES|
  {
    && (forall j :: 0 <= j < |g| ==>
          Pos(g[j].variable) < |fs| && Part(Pos(g[j].variable), fs[Pos(g[j].variable)]) == Some([g[j]]))
    && (forall k :: 0 <= k < |fs| && Unused(g, k) ==> fs[k] == Absent)
  }

  lemma EmptySpells(h: Host)
    ensures Spells(Fields(h, EMPTY), [])
  {
    hide Lookup, Port, Hex.Decode;
    forall k | 0 <= k < |VARIABLES|
      ensures FieldOf(h, EMPTY, k) == Absent
    {
    }
  }

  lemma {:induction false} ShapedPrints(h: Host, g: Directive)
    requires Lawful(h) && AllFromV2(h, g) && V1Shaped(g)
    ensures PrintGroup(h, g).Some? && Spells(Fields(h, PrintGroup(h, g).value), g)
  {
    hide FromV2, Keeps, FieldOf, Part, Apply, Spells, Pos;
    if g == [] {
      EmptySpells(h);
    } else {
      var n := |g| - 1;
      var before, i := g[..n], g[n];
      assert FromV2(h, i) && Keeps(i);
      ShapedPrints(h, before);
      var item := PrintGroup(h, before).value;
      forall j | 0 <= j < |VARIABLES|
        ensures Apply(h, item, i).Some?
        ensures j != Pos(i.variable) ==> FieldOf(h, Apply(h, item, i).value, j) == FieldOf(h, item, j)
      {
        ApplyField(h, item, i, j);
      }
      ApplyField(h, item, i, 0);
      SpellsSnoc(Fields(h, item), Fields(h, Apply(h, item, i).value), before, i);
      assert before + [i] == g;
    }
  }

  lemma SpellsSnoc(fs: seq<Field>, fs': seq<Field>, g: Directive, i: Instr)
    requires |fs| == |fs'| == |VARIABLES| && Spells(fs, g)
    requires forall j :: 0 <= j < |g| ==> Pos(g[j].variable) < Pos(i.variable)
    requires forall j :: 0 <= j < |fs| && j != Pos(i.variable) ==> fs'[j] == fs[j]
    requires Pos(i.variable) < |VARIABLES| && Part(Pos(i.variable), fs'[Pos(i.variable)]) == Some([i])
    ensures Spells(fs', g + [i])
  {
    hide Part, Pos;
    var g' := g + [i];
    forall k | 0 <= k < |fs'| && Unused(g', k)
      ensures fs'[k] == Absent
    {
      assert g'[|g|] == i;
      forall j | 0 <= j < |g|
        ensures Pos(g[j].variable) != k
      {
        assert g'[j] == g[j];
      }
    }
  }

  lemma LastPosition(fs: seq<Field>, g: Directive, j: nat)
    requires |fs| <= |VARIABLES| && Spells(fs, g) && InOrder(g)
    ensures g != [] ==> Pos(g[|g| - 1].variable) < |fs|
    ensures j < |g| - 1 ==> Pos(g[j].variable) < Pos(g[|g| - 1].variable)
  {
    hide Part, Pos;
  }

  lemma AbsentPart(k: nat)
    requires k < |VARIABLES|
    ensures Part(k, Absent) == Some([])
  {
  }

  lemma ShorterSpells(fs: seq<Field>, g: Directive)
    requires 0 < |fs| <= |VARIABLES| && Spells(fs, g) && Unused(g, |fs| - 1)
    ensures Spells(fs[..|fs| - 1], g) && fs[|fs| - 1] == Absent
  {
    hide Part, Pos;
  }

  lemma LastSpelled(fs: seq<Field>, g: Directive)
    requires 0 < |fs| <= |VARIABLES| && Spells(fs, g) && InOrder(g)
    requires g != [] && Pos(g[|g| - 1].variable) == |fs| - 1
    ensures Spells(fs[..|fs| - 1], g[..|g| - 1]) && InOrder(g[..|g| - 1])
    ensures Part(|fs| - 1, fs[|fs| - 1]) == Some([g[|g| - 1]])
  {
    hide Part, Pos;
    var n, m := |fs| - 1, |g| - 1;
    forall k | 0 <= k < n && Unused(g[..m], k)
      ensures fs[..n][k] == Absent
    {
      forall j | 0 <= j < |g|
        ensures Pos(g[j].variable) != k
      {
        assert j < m ==> g[..m][j] == g[j];
      }
      assert Unused(g, k);
    }
  }

  /** The last field is absent, or stands for the last instruction. */
  lemma SplitSpelled(fs: seq<Field>, g: Directive)
    requires 0 < |fs| <= |VARIABLES| && Spells(fs, g) && InOrder(g)
    ensures var n := |fs| - 1;
            || (Spells(fs[..n], g) && fs[n] == Absent)
            || (&& g != [] && Part(n, fs[n]) == Some([g[|g| - 1]])
                && Spells(fs[..n], g[..|g| - 1]) && InOrder(g[..|g| - 1]))
  {
    hide Part, Pos, Spells, InOrder;
    var n := |fs| - 1;
    if Unused(g, n) {
      ShorterSpells(fs, g);
    } else {
      var j :| 0 <= j < |g| && Pos(g[j].variable) == n;
      LastPosition(fs, g, j);
      LastSpelled(fs, g);
    }
  }

  /** A record that spells a directive in field order parses to it. */
  lemma {:induction false} GatherSpelled(fs: seq<Field>, g: Directive)
    requires |fs| <= |VARIABLES| && Spells(fs, g) && InOrder(g)
    ensures Gather(fs) == Some(g)
  {
    hide Part, Pos, Spells, InOrder, Unused;
    if fs == [] {
      LastPosition(fs, g, 0);
    } else {
      var n := |fs| - 1;
      SplitSpelled(fs, g);
      if Spells(fs[..n], g) && fs[n] == Absent {
        GatherSpelled(fs[..n], g);
        AbsentPart(n);
        assert g + [] == g;
      } else {
        var m := |g| - 1;
        GatherSpelled(fs[..n], g[..m]);
        assert g[..m] + [g[m]] == g;
      }
    }
  }

  /** Whatever V1 parses is in field order, and each instruction is its own field's. */
  lemma {:induction false} GatheredInOrder(fs: seq<Field>)
    requires |fs| <= |VARIABLES| && Gather(fs).Some?
    ensures var g := Gather(fs).value;
            && InOrder(g)
            && forall j :: 0 <= j < |g| ==>
                 Pos(g[j].variable) < |fs| && Part(Pos(g[j].variable), fs[Pos(g[j].variable)]) == Some([g[j]])
  {
    hide Pos;
    if fs != [] {
      var n := |fs| - 1;
      GatheredInOrder(fs[..n]);
      PosInverse(0, n);
      var before, last := Gather(fs[..n]).value, Part(n, fs[n]).value;
      var g := before + last;
      assert last != [] ==> last == [last[0]] && g[|before|] == last[0];
    }
  }

  /** A V2 instruction that V1 gives back is one that it keeps. */
  lemma GivenBackKept(h: Host, x: RvHuman, k: nat, i: Instr)
    requires FromV2(h, i) && k < |VARIABLES| && Part(k, FieldOf(h, x, k)) == Some([i])
    ensures Keeps(i)
  {
    hide Lookup, Port, Hex.Decode, Encode, Decode, Carries, Blank;
    PosInverse(0, k);
    FieldKind(h, x, k);
    if k == 15 {
      var v :| Carries(h, i, v);
      ValueApplied(h, x, i, v);
      DecodeEncode(IntoTexts, VText(x.extRv));
    } else if k < 14 && !V2.IsFlag(i.variable) {
      NotBlank(h, x, k, i);
    } else {
      FlagNotBlank(i);
    }
  }

  lemma FlagNotBlank(i: Instr)
    requires V2.IsFlag(i.variable)
    ensures !Blank(i)
  {
  }

  lemma NotBlank(h: Host, x: RvHuman, k: nat, i: Instr)
    requires k < 14 && Part(k, FieldOf(h, x, k)) == Some([i]) && !V2.IsFlag(VARIABLES[k])
    ensures !Blank(i)
  {
    hide Lookup, Port, Hex.Decode, Encode, Decode;
    var v := FieldOf(h, x, k).v;
    DecodeEncode(IntoText, v);
    DecodeEncode(IntoBytes, v);
    HashLength(x.svCertHash);
    HashLength(x.clCertHash);
  }

  lemma HashLength(s: string)
    ensures Hex.Decode(s) == Some([]) ==> s == ""
  {
  }

  lemma SpelledAddress(h: Host, x: RvHuman, g: Directive)
    requires Spells(Fields(h, x), g) && HasAddress(g)
    ensures Addressed(x)
  {
    hide Part, FieldOf;
    var j :| 0 <= j < |g| && IsAddress(g[j]);
    var k := Pos(g[j].variable);
    assert Part(k, Fields(h, x)[k]) == Some([g[j]]);
    AbsentPart(k);
    AddressField(h, x);
  }

  lemma ShapedParses(h: Host, g: Directive)
    requires Lawful(h) && AllFromV2(h, g) && HasAddress(g) && V1Shaped(g)
    ensures PrintGroup(h, g).Some? && ParseItem(h, PrintGroup(h, g).value) == Some(g)
  {
    hide AllFromV2, Keeps, InOrder, Spells, Gather, Fields, HasAddress, PrintGroup;
    ShapedPrints(h, g);
    var x := PrintGroup(h, g).value;
    GatherSpelled(Fields(h, x), g);
    SpelledAddress(h, x, g);
  }

  lemma AddressField(h: Host, x: RvHuman)
    ensures FieldOf(h, x, 0) != Absent ==> x.dns != ""
    ensures FieldOf(h, x, 1) != Absent ==> x.ip != ""
  {
  }

  /** One directive stored by V2, printed and parsed by V1: unchanged exactly if it is shaped like a V1 record. */
  lemma DirectiveViaV1(h: Host, g: Directive)
    requires Lawful(h) && AllFromV2(h, g) && HasAddress(g)
    ensures PrintGroup(h, g).Some?
    ensures ParseItem(h, PrintGroup(h, g).value) == Some(g) <==> V1Shaped(g)
  {
    hide FromV2, Keeps, Part, Gather, FieldOf;
    PrintsFromV2(h, g);
    var x := PrintGroup(h, g).value;
    if V1Shaped(g) {
      ShapedParses(h, g);
    } else if ParseItem(h, x) == Some(g) {
      GatheredInOrder(Fields(h, x));
      forall j | 0 <= j < |g|
        ensures Keeps(g[j])
      {
        assert FromV2(h, g[j]);
        GivenBackKept(h, x, Pos(g[j].variable), g[j]);
      }
      assert false;
    }
  }

  /**
   * The mirror of V2GetPutOnV1: a document stored through V2, read with V1 GET and written back with
   * V1 PUT. The GET always succeeds. The PUT leaves the stored directives unchanged if and only if
   * each is in V1 field order without repetition and has no ext_rv, no user_input and no empty text.
   */
  lemma V1GetPutOnV2(h: Host, doc: V2.Document)
    requires Lawful(h) && V2.ParseDoc(h, doc, 0).Ok?
    ensures var ds := V2.ParseDoc(h, doc, 0).value;
            && PrintDoc(h, ds).Some?
            && (ParseDoc(h, PrintDoc(h, ds).value) == Some(ds) <==> forall d :: 0 <= d < |ds| ==> V1Shaped(ds[d]))
  {
    hide AllFromV2, V1Shaped, ParseItem, PrintGroup, HasAddress;
    var ds := V2.ParseDoc(h, doc, 0).value;
    DocFromV2(h, doc, 0);
    forall d | 0 <= d < |ds|
      ensures PrintGroup(h, ds[d]).Some?
      ensures ParseItem(h, PrintGroup(h, ds[d]).value) == Some(ds[d]) <==> V1Shaped(ds[d])
    {
      DirectiveViaV1(h, ds[d]);
    }
    SameDocument(h, PrintDoc(h, ds).value, ds);
  }

  lemma SameDocument(h: Host, xs: seq<RvHuman>, ds: seq<Directive>)
    requires |xs| == |ds|
    ensures ParseDoc(h, xs) == Some(ds) <==> forall d :: 0 <= d < |ds| ==> ParseItem(h, xs[d]) == Some(ds[d])
  {
    hide ParseItem;
    if forall d :: 0 <= d < |ds| ==> ParseItem(h, xs[d]) == Some(ds[d]) {
      assert ParseDoc(h, xs).Some?;
      assert ParseDoc(h, xs).value == ds;
    }
  }

  // The stored instructions themselves ---------------------------------------------------------

  /** What V2 stores for a key and value, as the part of a V1 record; nothing for an empty field. */
  function Same(h: Host, given: bool, key: string, v: V2.Json): Option<Directive> {
    if !given then Some([])
    else match V2.ParseInstr(h, key, v) case Ok(i) => Some([i]) case Err(_) => None
  }

  function PortJson(s: string): V2.Json {
    match Decimal.Atoi(s) case Some(n) => V2.JNum(n as real) case None => V2.JNull
  }

  /** Both APIs store the same instruction for the same name and text, and refuse the same texts. */
  lemma TextsStoredAlike(h: Host, x: RvHuman)
    ensures FieldInstrs(h, x, 0) == Same(h, x.dns != "", "dns", V2.JStr(x.dns))
    ensures FieldInstrs(h, x, 1) == Same(h, x.ip != "", "ip", V2.JStr(x.ip))
    ensures FieldInstrs(h, x, 6) == Same(h, x.wifiSsid != "", "wifi_ssid", V2.JStr(x.wifiSsid))
    ensures FieldInstrs(h, x, 7) == Same(h, x.wifiPw != "", "wifi_pw", V2.JStr(x.wifiPw))
  {
    hide V2.Variable, Encode;
    V2.KeyCode("dns", 5);
    V2.KeyCode("ip", 2);
    V2.KeyCode("wifi_ssid", 9);
    V2.KeyCode("wifi_pw", 10);
  }

  lemma CodesStoredAlike(h: Host, x: RvHuman)
    ensures FieldInstrs(h, x, 2) == Same(h, x.protocol != "", "protocol", V2.JStr(x.protocol))
    ensures FieldInstrs(h, x, 3) == Same(h, x.medium != "", "medium", V2.JStr(x.medium))
    ensures FieldInstrs(h, x, 12) == Same(h, x.svCertHash != "", "sv_cert_hash", V2.JStr(x.svCertHash))
    ensures FieldInstrs(h, x, 13) == Same(h, x.clCertHash != "", "cl_cert_hash", V2.JStr(x.clCertHash))
  {
    hide V2.Variable, Encode, Lookup, Hex.Decode;
    V2.KeyCode("protocol", 12);
    V2.KeyCode("medium", 11);
    V2.KeyCode("sv_cert_hash", 6);
    V2.KeyCode("cl_cert_hash", 7);
  }

  /** Ports are read from decimal text and stored, with delays and flags, as V2 stores them. */
  lemma NumbersStoredAlike(h: Host, x: RvHuman)
    requires Lawful(h)
    ensures FieldInstrs(h, x, 4) == Same(h, x.devicePort != "", "device_port", PortJson(x.devicePort))
    ensures FieldInstrs(h, x, 5) == Same(h, x.ownerPort != "", "owner_port", PortJson(x.ownerPort))
    ensures FieldInstrs(h, x, 11) == match x.delaySeconds
                                     case Some(n) => Same(h, true, "delay_seconds", V2.JNum(n as real))
                                     case None => Some([])
  {
    hide V2.Variable, Encode, Decimal.Atoi;
    V2.KeyCode("device_port", 3);
    V2.KeyCode("owner_port", 4);
    V2.KeyCode("delay_seconds", 13);
    PortAlike(x.devicePort);
    PortAlike(x.ownerPort);
    if x.delaySeconds.Some? { assert (x.delaySeconds.value as real).Floor == x.delaySeconds.value; }
  }

  lemma PortAlike(s: string)
    ensures match V2.PortValue(PortJson(s)) case Ok(n) => Port(s) == Some(n) case Err(_) => Port(s) == None
  {
    hide Decimal.Atoi;
    var n := Decimal.Atoi(s);
    if n.Some? { assert (n.value as real).Floor == n.value; }
  }

  lemma FlagsStoredAlike(h: Host, x: RvHuman)
    ensures FieldInstrs(h, x, 8) == Same(h, x.devOnly, "dev_only", V2.JBool(true))
    ensures FieldInstrs(h, x, 9) == Same(h, x.ownerOnly, "owner_only", V2.JBool(true))
    ensures FieldInstrs(h, x, 10) == Same(h, x.rvBypass, "rv_bypass", V2.JBool(true))
  {
    V2.FlagsStored(h);
  }

  /** The two fields that V1 stores as text, where V2 stores a bare flag and an array. */
  lemma TextsOfV1(h: Host, x: RvHuman)
    ensures FieldInstrs(h, x, 14) == if x.userInput == "" then Some([])
                                     else match Cbor.Text(x.userInput) case Some(b) => Some([Instr(8, b)]) case None => None
    ensures FieldInstrs(h, x, 15) == if x.extRv == "" then Some([])
                                     else match Cbor.Text(x.extRv) case Some(b) => Some([Instr(15, b)]) case None => None
  {
  }

  /** The parts of an accepted record stand one after another, in field order. */
  lemma RecordStored(h: Host, x: RvHuman)
    requires ParseItem(h, x).Some?
    ensures forall k :: 0 <= k < 16 ==> FieldInstrs(h, x, k).Some?
    ensures ParseItem(h, x).value
            == FieldInstrs(h, x, 0).value + FieldInstrs(h, x, 1).value + FieldInstrs(h, x, 2).value
               + FieldInstrs(h, x, 3).value + FieldInstrs(h, x, 4).value + FieldInstrs(h, x, 5).value
               + FieldInstrs(h, x, 6).value + FieldInstrs(h, x, 7).value + FieldInstrs(h, x, 8).value
               + FieldInstrs(h, x, 9).value + FieldInstrs(h, x, 10).value + FieldInstrs(h, x, 11).value
               + FieldInstrs(h, x, 12).value + FieldInstrs(h, x, 13).value + FieldInstrs(h, x, 14).value
               + FieldInstrs(h, x, 15).value
  {
    hide FieldInstrs, Collect, Fields, Gather;
    AllFields(h, x);
    assert Collect(h, x, 0) == Some([]) by { NothingCollected(h, x); }
    CollectStep(h, x, 0);
    CollectStep(h, x, 1);
    CollectStep(h, x, 2);
    CollectStep(h, x, 3);
    CollectStep(h, x, 4);
    CollectStep(h, x, 5);
    CollectStep(h, x, 6);
    CollectStep(h, x, 7);
    CollectStep(h, x, 8);
    CollectStep(h, x, 9);
    CollectStep(h, x, 10);
    CollectStep(h, x, 11);
    CollectStep(h, x, 12);
    CollectStep(h, x, 13);
    CollectStep(h, x, 14);
    CollectStep(h, x, 15);
    assert [] + FieldInstrs(h, x, 0).value == FieldInstrs(h, x, 0).value;
  }

  lemma NothingCollected(h: Host, x: RvHuman)
    ensures Collect(h, x, 0) == Some([])
  {
  }

  /** What V1 shows for the two variables whose V2 form differs: "true", and the strings as JSON text. */
  lemma ShownFromV2(h: Host, item: RvHuman, value: Bytes, ss: seq<string>)
    requires Cbor.Array(Cbor.Text, ss).Some?
    ensures Apply(h, item, Instr(8, value)) == Some(item.(userInput := "true"))
    ensures Apply(h, item, Instr(15, Cbor.Array(Cbor.Text, ss).value)) == Some(item.(extRv := h.jsonStrings(ss)))
  {
    hide Cbor.Array, Decode, Lookup, ProtocolName, MediumName;
    DecodeEncode(IntoTexts, VTexts(ss));
  }
}
