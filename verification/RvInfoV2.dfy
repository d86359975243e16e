/**
 * The V2 rendezvous-info API: directives as arrays of single-key JSON objects with integer ports.
 * A document is what json.Unmarshal leaves behind, so a JSON null is an empty list or object.
 */
module RvInfoV2 {
  import opened Wrappers
  import opened RvInstruction
  import Cbor
  import CborBytes
  import Hex
  import Utf8

  datatype Json =
    | JNull
    | JBool(b: bool)
    | JNum(n: real)
    | JStr(s: string)
    | JArr(items: seq<Json>)
    | JObj(fields: map<string, Json>)

  type Object = map<string, Json>
  type Document = seq<seq<Object>>

  datatype Fault = NotSingleKey | WrongType | OutOfRange | BadText | FalseFlag | UnknownKey | Unencodable

  datatype RvError =
    | AtInstruction(directive: nat, instruction: nat, fault: Fault)
    | NoAddress(directive: nat)

  type Parsed<T> = Result<T, RvError>

  // One instruction ----------------------------------------------------------------------------

  function Stored(variable: nat, v: RvValue): (r: Result<Instr, Fault>)
  {
    match Encode(v) case Some(b) => Ok(Instr(variable, b)) case None => Err(Unencodable)
  }

  function StoredText(variable: nat, v: Json): Result<Instr, Fault> {
    if v.JStr? then Stored(variable, VText(v.s)) else Err(WrongType)
  }

  /** A flag is written without a value, and only when it is true. */
  function StoredFlag(variable: nat, v: Json): Result<Instr, Fault> {
    if !v.JBool? then Err(WrongType) else if v.b then Ok(Instr(variable, [])) else Err(FalseFlag)
  }

  function StoredHash(variable: nat, v: Json): Result<Instr, Fault> {
    if !v.JStr? then Err(WrongType)
    else match Hex.Decode(v.s) case Some(b) => Stored(variable, VBytes(b)) case None => Err(BadText)
  }

  function StoredCode(variable: nat, v: Json, code: string -> Option<nat>): Result<Instr, Fault> {
    if !v.JStr? then Err(WrongType)
    else match code(v.s) case Some(c) => Stored(variable, VUint(c)) case None => Err(BadText)
  }

  predicate IsWhole(n: real) { n == n.Floor as real }

  /** V2 ports are JSON integers from 1 to 65535; strings are refused. */
  function PortValue(v: Json): (r: Result<nat, Fault>)
    ensures r.Ok? ==> v == JNum(r.value as real) && 1 <= r.value <= 65535
  {
    if !v.JNum? then Err(WrongType)
    else if !IsWhole(v.n) || v.n < 1.0 || v.n > 65535.0 then Err(OutOfRange)
    else Ok(v.n.Floor)
  }

  function StoredPort(variable: nat, v: Json): Result<Instr, Fault> {
    match PortValue(v) case Ok(n) => Stored(variable, VUint(n)) case Err(e) => Err(e)
  }

  function StoredDelay(h: Host, v: Json): Result<Instr, Fault> {
    if !v.JNum? then Err(WrongType)
    else if !IsWhole(v.n) || v.n < 0.0 then Err(OutOfRange)
    else Stored(RV_DELAYSEC, VUint(h.toUint32(v.n.Floor)))
  }

  function StoredIp(h: Host, v: Json): Result<Instr, Fault> {
    if !v.JStr? then Err(WrongType)
    else match h.parseIp(v.s) case Some(b) => Stored(RV_IP_ADDRESS, VBytes(b)) case None => Err(BadText)
  }

  function Strings(items: seq<Json>): (r: Option<seq<string>>)
    ensures r.Some? ==> items == Quoted(r.value)
  {
    if items == [] then Some([])
    else if !items[0].JStr? then None
    else
      match Strings(items[1..])
      case None => None
      case Some(rest) =>
        assert items == [items[0]] + items[1..];
        Some([items[0].s] + rest)
  }

  /** The loop that turns the items of ext_rv into strings. */
  method ExtRvStrings(items: seq<Json>) returns (r: Option<seq<string>>)
    ensures r == Strings(items)
  {
    var ss: seq<string> := [];
    for i := 0 to |items|
      invariant |ss| == i && forall j :: 0 <= j < i ==> items[j] == JStr(ss[j])
    {
      if !items[i].JStr? {
        StringsNone(items, i);
        return None;
      }
      ss := ss + [items[i].s];
    }
    assert items == Quoted(ss);
    StringsQuoted(ss);
    return Some(ss);
  }

  lemma {:induction false} StringsNone(items: seq<Json>, i: nat)
    requires i < |items| && !items[i].JStr?
    ensures Strings(items).None?
  {
    if i > 0 { StringsNone(items[1..], i - 1); }
  }

  function Quoted(ss: seq<string>): (r: seq<Json>)
    ensures |r| == |ss|
  {
    seq(|ss|, i requires 0 <= i < |ss| => JStr(ss[i]))
  }

  lemma {:induction false} StringsQuoted(ss: seq<string>)
    ensures Strings(Quoted(ss)) == Some(ss)
  {
    if ss != [] {
      StringsQuoted(ss[1..]);
      assert Quoted(ss)[1..] == Quoted(ss[1..]);
      assert [ss[0]] + ss[1..] == ss;
    }
  }

  function StoredExtRv(v: Json): Result<Instr, Fault> {
    if !v.JArr? then Err(WrongType)
    else match Strings(v.items) case Some(ss) => Stored(RV_EXT_RV, VTexts(ss)) case None => Err(WrongType)
  }

  /** The cases of parseRvInstruction's switch. */
  const CASES: Switch :=
    [("dns", RV_DNS), ("ip", RV_IP_ADDRESS), ("protocol", RV_PROTOCOL), ("medium", RV_MEDIUM),
     ("device_port", RV_DEV_PORT), ("owner_port", RV_OWNER_PORT), ("wifi_ssid", RV_WIFI_SSID),
     ("wifi_pw", RV_WIFI_PW), ("dev_only", RV_DEV_ONLY), ("owner_only", RV_OWNER_ONLY),
     ("rv_bypass", RV_BYPASS), ("delay_seconds", RV_DELAYSEC), ("sv_cert_hash", RV_SV_CERT_HASH),
     ("cl_cert_hash", RV_CL_CERT_HASH), ("user_input", RV_USER_INPUT), ("ext_rv", RV_EXT_RV)]

  /** The instruction variable a JSON key stands for. */
  function Variable(key: string): Option<nat> { Lookup(CASES, key) }

  predicate IsFlag(variable: nat) {
    variable == RV_DEV_ONLY || variable == RV_OWNER_ONLY || variable == RV_USER_INPUT || variable == RV_BYPASS
  }

  predicate IsHash(variable: nat) { variable == RV_SV_CERT_HASH || variable == RV_CL_CERT_HASH }

  predicate IsPort(variable: nat) { variable == RV_DEV_PORT || variable == RV_OWNER_PORT }

  function ParseValue(h: Host, variable: nat, v: Json): Result<Instr, Fault> {
    if IsFlag(variable) then StoredFlag(variable, v)
    else if IsHash(variable) then StoredHash(variable, v)
    else if IsPort(variable) then StoredPort(variable, v)
    else if variable == RV_IP_ADDRESS then StoredIp(h, v)
    else if variable == RV_PROTOCOL then StoredCode(variable, v, ProtocolCode)
    else if variable == RV_MEDIUM then StoredCode(variable, v, MediumCode)
    else if variable == RV_DELAYSEC then StoredDelay(h, v)
    else if variable == RV_EXT_RV then StoredExtRv(v)
    else StoredText(variable, v)
  }

  function ParseInstr(h: Host, key: string, v: Json): Result<Instr, Fault> {
    match Variable(key) case Some(variable) => ParseValue(h, variable, v) case None => Err(UnknownKey)
  }

  lemma SingleKey(m: Object)
    requires |m| == 1
    ensures exists k :: k in m
    ensures forall k :: k in m ==> m == map[k := m[k]]
  {
    assert m.Keys != {};
    var k :| k in m.Keys;
    assert k in m;
    forall k | k in m
      ensures m == map[k := m[k]]
    {
      assert |m.Keys - {k}| == 0;
    }
  }

  function ParseObject(h: Host, m: Object): Result<Instr, Fault> {
    if |m| != 1 then Err(NotSingleKey)
    else
      SingleKey(m);
      var k :| k in m;
      ParseInstr(h, k, m[k])
  }

  // Printing one instruction -------------------------------------------------------------------

  /** The keys convertToV2JSON writes, by variable. */
  const KEYS: seq<string> :=
    ["dev_only", "owner_only", "ip", "device_port", "owner_port", "dns", "sv_cert_hash", "cl_cert_hash",
     "user_input", "wifi_ssid", "wifi_pw", "medium", "protocol", "delay_seconds", "rv_bypass", "ext_rv"]

  function Key(variable: nat): Option<string> {
    if variable < |KEYS| then Some(KEYS[variable]) else None
  }

  lemma KeyOfVariable(key: string)
    requires Variable(key).Some?
    ensures Variable(key).value <= RV_EXT_RV && Key(Variable(key).value) == Some(key)
  {
    hide Lookup;
    var i := LookupFound(CASES, key);
  }

  /** Where the parser's switch has the case for a variable. */
  const CASE_OF: seq<nat> := [8, 9, 1, 4, 5, 0, 12, 13, 14, 6, 7, 3, 2, 11, 10, 15]

  lemma CasesDistinct()
    ensures DistinctKeys(CASES)
  {
  }

  lemma CaseOfVariable(variable: nat)
    requires variable <= RV_EXT_RV
    ensures CASE_OF[variable] < |CASES| && CASES[CASE_OF[variable]] == (KEYS[variable], variable)
  {
  }

  lemma KeyInjective(variable: nat)
    requires variable <= RV_EXT_RV
    ensures Key(variable).Some? && Variable(Key(variable).value) == Some(variable)
  {
    hide Lookup, DistinctKeys;
    CasesDistinct();
    CaseOfVariable(variable);
    LookupAt(CASES, CASE_OF[variable]);
  }

  /** The Go type the printers read an instruction's value into. */
  function TargetOf(variable: nat): Target {
    if variable == RV_IP_ADDRESS || IsHash(variable) then IntoBytes
    else if IsPort(variable) then IntoUint(0xFFFF)
    else if variable == RV_PROTOCOL || variable == RV_MEDIUM then IntoUint(0xFF)
    else if variable == RV_DELAYSEC then IntoUint(0xFFFF_FFFF)
    else if variable == RV_EXT_RV then IntoTexts
    else IntoText
  }

  function PrintRvValue(h: Host, variable: nat, v: RvValue): Json {
    match v
    case VText(s) => JStr(s)
    case VUint(n) =>
      if variable == RV_PROTOCOL then JStr(ProtocolName(n))
      else if variable == RV_MEDIUM then JStr(MediumName(n))
      else JNum(n as real)
    case VBytes(b) => JStr(if variable == RV_IP_ADDRESS then h.printIp(b) else Hex.Encode(b))
    case VTexts(ss) => JArr(Quoted(ss))
  }

  function PrintValue(h: Host, i: Instr): Option<Json> {
    if IsFlag(i.variable) then Some(JBool(true))
    else
      match Decode(TargetOf(i.variable), i.value)
      case Some(v) => Some(PrintRvValue(h, i.variable, v))
      case None => None
  }

  /** One object of the output; an unknown variable leaves the object empty. */
  function PrintInstr(h: Host, i: Instr): Option<Object> {
    match Key(i.variable)
    case None => Some(map[])
    case Some(key) =>
      match PrintValue(h, i) case Some(v) => Some(map[key := v]) case None => None
  }

  // Whole documents ----------------------------------------------------------------------------

  function Prepend<T, E>(xs: seq<T>, r: Result<seq<T>, E>): Result<seq<T>, E> {
    match r case Ok(ys) => Ok(xs + ys) case Err(e) => Err(e)
  }

  function ParseGroup(h: Host, group: seq<Object>, d: nat, i: nat): Parsed<Directive> {
    if group == [] then Ok([])
    else
      match ParseObject(h, group[0])
      case Err(fault) => Err(AtInstruction(d, i, fault))
      case Ok(x) => Prepend([x], ParseGroup(h, group[1..], d, i + 1))
  }

  /** What parseV2JSON means: every object in order, every directive with a DNS name or an IP. */
  function ParseDoc(h: Host, doc: Document, d: nat): Parsed<seq<Directive>> {
    if doc == [] then Ok([])
    else
      match ParseGroup(h, doc[0], d, 0)
      case Err(e) => Err(e)
      case Ok(g) =>
        if !HasAddress(g) then Err(NoAddress(d))
        else Prepend([g], ParseDoc(h, doc[1..], d + 1))
  }

  function Cons<T>(x: Option<T>, xs: Option<seq<T>>): Option<seq<T>> {
    if x.Some? && xs.Some? then Some([x.value] + xs.value) else None
  }

  function PrintGroup(h: Host, g: Directive): Option<seq<Object>> {
    if g == [] then Some([]) else Cons(PrintInstr(h, g[0]), PrintGroup(h, g[1..]))
  }

  /** What convertToV2JSON means. */
  function PrintDoc(h: Host, ds: seq<Directive>): Option<Document> {
    if ds == [] then Some([]) else Cons(PrintGroup(h, ds[0]), PrintDoc(h, ds[1..]))
  }

  /** parseV2JSON. */
  method Parse(h: Host, doc: Document) returns (r: Parsed<seq<Directive>>)
    ensures r == ParseDoc(h, doc, 0)
  {
    var out: seq<Directive> := [];
    PrependNil(ParseDoc(h, doc, 0));
    assert doc[0..] == doc;
    for d := 0 to |doc|
      invariant ParseDoc(h, doc, 0) == Prepend(out, ParseDoc(h, doc[d..], d))
    {
      var group: Directive := [];
      var hasAddress := false;
      assert doc[d..][0] == doc[d] && doc[d..][1..] == doc[d + 1..];
      assert doc[d][0..] == doc[d];
      PrependNil(ParseGroup(h, doc[d], d, 0));
      for i := 0 to |doc[d]|
        invariant ParseGroup(h, doc[d], d, 0) == Prepend(group, ParseGroup(h, doc[d][i..], d, i))
        invariant hasAddress == HasAddress(group)
      {
        assert doc[d][i..][0] == doc[d][i] && doc[d][i..][1..] == doc[d][i + 1..];
        var x := ParseObject(h, doc[d][i]);
        if x.Err? {
          return Err(AtInstruction(d, i, x.error));
        }
        HasAddressSnoc(group, x.value);
        if IsAddress(x.value) {
          hasAddress := true;
        }
        PrependAssoc(group, x.value, ParseGroup(h, doc[d][i + 1..], d, i + 1));
        group := group + [x.value];
      }
      assert doc[d][|doc[d]|..] == [] && group + [] == group;
      if !hasAddress {
        return Err(NoAddress(d));
      }
      PrependAssoc(out, group, ParseDoc(h, doc[d + 1..], d + 1));
      out := out + [group];
    }
    assert doc[|doc|..] == [] && out + [] == out;
    return Ok(out);
  }

  lemma PrependNil<T, E>(r: Result<seq<T>, E>)
    ensures Prepend([], r) == r
  {
    if r.Ok? { assert [] + r.value == r.value; }
  }

  lemma PrependAssoc<T, E>(xs: seq<T>, x: T, r: Result<seq<T>, E>)
    ensures Prepend(xs, Prepend([x], r)) == Prepend(xs + [x], r)
  {
    if r.Ok? { assert xs + ([x] + r.value) == xs + [x] + r.value; }
  }

  lemma HasAddressSnoc(g: Directive, x: Instr)
    ensures HasAddress(g + [x]) <==> HasAddress(g) || IsAddress(x)
  {
    var g' := g + [x];
    assert g'[|g|] == x;
    assert forall k :: 0 <= k < |g| ==> g'[k] == g[k];
    if HasAddress(g) {
      var k :| 0 <= k < |g| && IsAddress(g[k]);
      assert IsAddress(g'[k]);
    }
  }

  function Append<T>(xs: seq<T>, r: Option<seq<T>>): Option<seq<T>> {
    match r case Some(ys) => Some(xs + ys) case None => None
  }

  /** convertToV2JSON, up to json.Marshal. */
  method Convert(h: Host, ds: seq<Directive>) returns (r: Option<Document>)
    ensures r == PrintDoc(h, ds)
  {
    var out: Document := [];
    AppendNil(PrintDoc(h, ds));
    assert ds[0..] == ds;
    for d := 0 to |ds|
      invariant PrintDoc(h, ds) == Append(out, PrintDoc(h, ds[d..]))
    {
      var group: seq<Object> := [];
      assert ds[d..][0] == ds[d] && ds[d..][1..] == ds[d + 1..];
      assert ds[d][0..] == ds[d];
      AppendNil(PrintGroup(h, ds[d]));
      for i := 0 to |ds[d]|
        invariant PrintGroup(h, ds[d]) == Append(group, PrintGroup(h, ds[d][i..]))
      {
        assert ds[d][i..][0] == ds[d][i] && ds[d][i..][1..] == ds[d][i + 1..];
        var item := PrintInstr(h, ds[d][i]);
        if item.None? {
          return None;
        }
        AppendAssoc(group, item.value, PrintGroup(h, ds[d][i + 1..]));
        group := group + [item.value];
      }
      assert ds[d][|ds[d]|..] == [] && group + [] == group;
      AppendAssoc(out, group, PrintDoc(h, ds[d + 1..]));
      out := out + [group];
    }
    assert ds[|ds|..] == [] && out + [] == out;
    return Some(out);
  }

  lemma AppendNil<T>(r: Option<seq<T>>)
    ensures Append([], r) == r
  {
    if r.Some? { assert [] + r.value == r.value; }
  }

  lemma AppendAssoc<T>(xs: seq<T>, x: T, r: Option<seq<T>>)
    ensures Append(xs, Cons(Some(x), r)) == Append(xs + [x], r)
  {
    if r.Some? { assert xs + ([x] + r.value) == xs + [x] + r.value; }
  }

  // Round trip ---------------------------------------------------------------------------------

  /** The canonical spelling of a value: the printed address, lower-case hex, all else unchanged. */
  function CanonicalValue(h: Host, variable: nat, v: Json): Json {
    if variable == RV_IP_ADDRESS && v.JStr? && h.parseIp(v.s).Some? then JStr(h.printIp(h.parseIp(v.s).value))
    else if IsHash(variable) && v.JStr? then JStr(Hex.LowerAll(v.s))
    else v
  }

  predicate ValueFits(variable: nat, v: Json) {
    variable == RV_DELAYSEC && v.JNum? && IsWhole(v.n) ==> v.n.Floor < TWO_32
  }

  /** What a value reads as after storing: canonical, with an oversized delay converted to 32 bits. */
  function RereadValue(h: Host, variable: nat, v: Json): Json {
    if variable == RV_DELAYSEC && v.JNum? && IsWhole(v.n) && v.n.Floor >= 0
    then JNum(h.toUint32(v.n.Floor) as real)
    else CanonicalValue(h, variable, v)
  }

  lemma StoredReads(variable: nat, v: RvValue)
    requires Encode(v).Some? && Fits(TargetOf(variable), v)
    ensures Stored(variable, v).Ok?
    ensures Decode(TargetOf(variable), Stored(variable, v).value.value) == Some(v)
  {
    DecodeEncode(TargetOf(variable), v);
  }

  lemma HashRoundTrip(h: Host, variable: nat, v: Json)
    requires IsHash(variable) && StoredHash(variable, v).Ok?
    ensures PrintValue(h, StoredHash(variable, v).value) == Some(JStr(Hex.LowerAll(v.s)))
    ensures StoredHash(variable, JStr(Hex.LowerAll(v.s))) == StoredHash(variable, v)
  {
    StoredReads(variable, VBytes(Hex.Decode(v.s).value));
    Hex.EncodeDecode(v.s);
    Hex.DecodeLower(v.s);
  }

  lemma ValueRoundTrip(h: Host, variable: nat, v: Json)
    requires Lawful(h) && variable <= RV_EXT_RV && ParseValue(h, variable, v).Ok?
    ensures ParseValue(h, variable, v).value.variable == variable
    ensures PrintValue(h, ParseValue(h, variable, v).value) == Some(RereadValue(h, variable, v))
    ensures ParseValue(h, variable, RereadValue(h, variable, v)) == ParseValue(h, variable, v)
  {
    if IsFlag(variable) {
    } else if IsHash(variable) {
      HashRoundTrip(h, variable, v);
    } else if IsPort(variable) {
      StoredReads(variable, VUint(PortValue(v).value));
    } else if variable == RV_IP_ADDRESS {
      StoredReads(variable, VBytes(h.parseIp(v.s).value));
    } else if variable == RV_PROTOCOL {
      CodeName(v.s);
      StoredReads(variable, VUint(ProtocolCode(v.s).value));
    } else if variable == RV_MEDIUM {
      CodeName(v.s);
      StoredReads(variable, VUint(MediumCode(v.s).value));
    } else if variable == RV_DELAYSEC {
      StoredReads(variable, VUint(h.toUint32(v.n.Floor)));
    } else if variable == RV_EXT_RV {
      StoredReads(variable, VTexts(Strings(v.items).value));
      StringsQuoted(Strings(v.items).value);
    } else {
      StoredReads(variable, VText(v.s));
    }
  }

  function Canonical(h: Host, key: string, v: Json): Json {
    match Variable(key) case Some(variable) => CanonicalValue(h, variable, v) case None => v
  }

  function Reread(h: Host, key: string, v: Json): Json {
    match Variable(key) case Some(variable) => RereadValue(h, variable, v) case None => v
  }

  predicate DelayFits(key: string, v: Json) {
    match Variable(key) case Some(variable) => ValueFits(variable, v) case None => true
  }

  lemma InstrRoundTrip(h: Host, key: string, v: Json)
    requires Lawful(h) && ParseInstr(h, key, v).Ok?
    ensures PrintInstr(h, ParseInstr(h, key, v).value) == Some(map[key := Reread(h, key, v)])
    ensures ParseInstr(h, key, Reread(h, key, v)) == ParseInstr(h, key, v)
  {
    KeyOfVariable(key);
    ValueRoundTrip(h, Variable(key).value, v);
  }

  function RereadObject(h: Host, m: Object): Object { map k | k in m :: Reread(h, k, m[k]) }

  function CanonicalObject(h: Host, m: Object): Object { map k | k in m :: Canonical(h, k, m[k]) }

  predicate ObjectFits(m: Object) { forall k :: k in m ==> DelayFits(k, m[k]) }

  predicate GroupFits(g: seq<Object>) { forall i :: 0 <= i < |g| ==> ObjectFits(g[i]) }

  /** Every delay_seconds in the document is below 2^32. */
  predicate DelaysFit(doc: Document) { forall d :: 0 <= d < |doc| ==> GroupFits(doc[d]) }

  function MapSeq<S, T>(f: S -> T, xs: seq<S>): (r: seq<T>)
    ensures |r| == |xs| && forall i :: 0 <= i < |xs| ==> r[i] == f(xs[i])
  {
    seq(|xs|, i requires 0 <= i < |xs| => f(xs[i]))
  }

  function RereadGroup(h: Host, g: seq<Object>): seq<Object> { MapSeq(m => RereadObject(h, m), g) }

  function CanonicalGroup(h: Host, g: seq<Object>): seq<Object> { MapSeq(m => CanonicalObject(h, m), g) }

  function RereadDoc(h: Host, doc: Document): Document { MapSeq(g => RereadGroup(h, g), doc) }

  /** The same directives, instructions and order, with every value in canonical spelling. */
  function CanonicalDoc(h: Host, doc: Document): Document { MapSeq(g => CanonicalGroup(h, g), doc) }

  lemma ObjectRoundTrip(h: Host, m: Object)
    requires Lawful(h) && ParseObject(h, m).Ok?
    ensures PrintInstr(h, ParseObject(h, m).value) == Some(RereadObject(h, m))
    ensures ParseObject(h, RereadObject(h, m)) == ParseObject(h, m)
  {
    SingleKey(m);
    var k :| k in m;
    InstrRoundTrip(h, k, m[k]);
    var r := RereadObject(h, m);
    assert m.Keys == {k};
    assert r == map[k := Reread(h, k, m[k])];
    SingleKey(r);
  }

  lemma ObjectCanonical(h: Host, m: Object)
    requires Lawful(h)
    ensures RereadObject(h, m) == CanonicalObject(h, m) <==> ObjectFits(m)
  {
    hide Reread, Canonical, DelayFits;
    var r, c := RereadObject(h, m), CanonicalObject(h, m);
    assert r == c <==> forall k :: k in m ==> r[k] == c[k];
    forall k | k in m
      ensures r[k] == c[k] <==> DelayFits(k, m[k])
    {
      SpellingFits(h, k, m[k]);
    }
  }

  lemma SpellingFits(h: Host, k: string, v: Json)
    requires Lawful(h)
    ensures Reread(h, k, v) == Canonical(h, k, v) <==> DelayFits(k, v)
  {
    hide Lookup, Hex.Decode, Hex.LowerAll;
  }

  lemma GroupCanonical(h: Host, g: seq<Object>)
    requires Lawful(h)
    ensures RereadGroup(h, g) == CanonicalGroup(h, g) <==> GroupFits(g)
  {
    forall m { ObjectCanonical(h, m); }
    assert RereadGroup(h, g) == CanonicalGroup(h, g)
           <==> forall i :: 0 <= i < |g| ==> RereadGroup(h, g)[i] == CanonicalGroup(h, g)[i];
  }

  lemma DocCanonical(h: Host, doc: Document)
    requires Lawful(h)
    ensures RereadDoc(h, doc) == CanonicalDoc(h, doc) <==> DelaysFit(doc)
  {
    forall g { GroupCanonical(h, g); }
    assert RereadDoc(h, doc) == CanonicalDoc(h, doc)
           <==> forall d :: 0 <= d < |doc| ==> RereadDoc(h, doc)[d] == CanonicalDoc(h, doc)[d];
  }

  lemma {:induction false} GroupRoundTrip(h: Host, g: seq<Object>, d: nat, i: nat)
    requires Lawful(h) && ParseGroup(h, g, d, i).Ok?
    ensures PrintGroup(h, ParseGroup(h, g, d, i).value) == Some(RereadGroup(h, g))
    ensures ParseGroup(h, RereadGroup(h, g), d, i) == ParseGroup(h, g, d, i)
  {
    hide PrintInstr, ParseObject, RereadObject, Lawful;
    if g != [] {
      ObjectRoundTrip(h, g[0]);
      GroupRoundTrip(h, g[1..], d, i + 1);
      var r := RereadGroup(h, g);
      assert r == [RereadObject(h, g[0])] + RereadGroup(h, g[1..]);
      assert r[1..] == RereadGroup(h, g[1..]);
      var x, rest := ParseObject(h, g[0]).value, ParseGroup(h, g[1..], d, i + 1).value;
      assert ([x] + rest)[1..] == rest;
    }
  }

  lemma {:induction false} DocRoundTrip(h: Host, doc: Document, d: nat)
    requires Lawful(h) && ParseDoc(h, doc, d).Ok?
    ensures PrintDoc(h, ParseDoc(h, doc, d).value) == Some(RereadDoc(h, doc))
    ensures ParseDoc(h, RereadDoc(h, doc), d) == ParseDoc(h, doc, d)
  {
    hide ParseGroup, PrintGroup, RereadGroup, HasAddress, Lawful;
    if doc != [] {
      GroupRoundTrip(h, doc[0], d, 0);
      DocRoundTrip(h, doc[1..], d + 1);
      var r := RereadDoc(h, doc);
      assert r == [RereadGroup(h, doc[0])] + RereadDoc(h, doc[1..]);
      assert r[1..] == RereadDoc(h, doc[1..]);
      var g, rest := ParseGroup(h, doc[0], d, 0).value, ParseDoc(h, doc[1..], d + 1).value;
      assert ([g] + rest)[1..] == rest;
    }
  }

  /**
   * PUT then GET. For every accepted document, the stored bytes decode to the parsed directives,
   * printing them succeeds, and parsing what is printed gives the same directives again. What is
   * printed is the document itself in canonical spelling (same directives, same order, duplicates
   * included) if and only if every delay is below 2^32.
   */
  lemma V2RoundTrip(h: Host, doc: Document)
    requires Lawful(h) && ParseDoc(h, doc, 0).Ok?
    requires Marshal(ParseDoc(h, doc, 0).value).Some?
    ensures var ds := ParseDoc(h, doc, 0).value;
            var printed := PrintDoc(h, ds);
            && Unmarshal(Marshal(ds).value) == Some(ds)
            && printed.Some?
            && ParseDoc(h, printed.value, 0) == Ok(ds)
            && (printed.value == CanonicalDoc(h, doc) <==> DelaysFit(doc))
  {
    StoredRoundTrip(ParseDoc(h, doc, 0).value);
    DocRoundTrip(h, doc, 0);
    DocCanonical(h, doc);
  }

  // Acceptance ---------------------------------------------------------------------------------

  function HexBytes(s: string): Bytes { match Hex.Decode(s) case Some(b) => b case None => [] }

  function Texts(items: seq<Json>): seq<string> { match Strings(items) case Some(ss) => ss case None => [] }

  lemma StringsExactly(items: seq<Json>)
    ensures Strings(items).Some? <==> forall i :: 0 <= i < |items| ==> items[i].JStr?
  {
    if i :| 0 <= i < |items| && !items[i].JStr? {
      StringsNone(items, i);
    } else {
      var ss := seq(|items|, i requires 0 <= i < |items| => items[i].s);
      assert items == Quoted(ss);
      StringsQuoted(ss);
    }
  }

  /** The values each instruction may have, as the API documents them. */
  predicate GoodFor(h: Host, variable: nat, v: Json) {
    match v
    case JNull => false
    case JObj(_) => false
    case JBool(b) => b && IsFlag(variable)
    case JNum(n) =>
      IsWhole(n) && ((IsPort(variable) && 1.0 <= n <= 65535.0) || (variable == RV_DELAYSEC && n >= 0.0))
    case JArr(items) =>
      && variable == RV_EXT_RV
      && (forall i :: 0 <= i < |items| ==> items[i].JStr?)
      && Encode(VTexts(Texts(items))).Some?
    case JStr(s) =>
      || (variable in {RV_DNS, RV_WIFI_SSID, RV_WIFI_PW} && Encode(VText(s)).Some?)
      || (variable == RV_IP_ADDRESS && h.parseIp(s).Some? && Encode(VBytes(h.parseIp(s).value)).Some?)
      || (variable == RV_PROTOCOL && s in {"rest", "http", "https", "tcp", "tls", "coap+tcp", "coap"})
      || (variable == RV_MEDIUM && s in {"eth_all", "wifi_all"})
      || (IsHash(variable) && Hex.IsHex(s) && Encode(VBytes(HexBytes(s))).Some?)
  }

  /** The values each key may have. */
  predicate GoodValue(h: Host, key: string, v: Json) {
    Variable(key).Some? && GoodFor(h, Variable(key).value, v)
  }

  lemma ProtocolNamed(s: string)
    ensures ProtocolCode(s).Some? <==> s in {"rest", "http", "https", "tcp", "tls", "coap+tcp", "coap"}
  {
    if ProtocolCode(s).Some? {
      var i := LookupFound(PROTOCOLS, s);
    } else {
      assert DistinctKeys(PROTOCOLS);
      forall i | 0 <= i < |PROTOCOLS|
        ensures PROTOCOLS[i].0 != s
      {
        LookupAt(PROTOCOLS, i);
      }
      assert PROTOCOLS[0].0 == "rest" && PROTOCOLS[1].0 == "http" && PROTOCOLS[2].0 == "https";
      assert PROTOCOLS[3].0 == "tcp" && PROTOCOLS[4].0 == "tls" && PROTOCOLS[5].0 == "coap+tcp";
      assert PROTOCOLS[6].0 == "coap";
    }
  }

  lemma MediumNamed(s: string)
    ensures MediumCode(s).Some? <==> s in {"eth_all", "wifi_all"}
  {
    if MediumCode(s).Some? {
      var i := LookupFound(MEDIA, s);
    } else {
      assert DistinctKeys(MEDIA);
      LookupAt(MEDIA, 0);
      LookupAt(MEDIA, 1);
    }
  }

  lemma UintEncodes(n: nat)
    requires n < TWO_32
    ensures Encode(VUint(n)).Some?
  {
  }

  lemma TextAccepted(h: Host, variable: nat, s: string)
    requires variable <= RV_EXT_RV
    ensures ParseValue(h, variable, JStr(s)).Ok? <==> GoodFor(h, variable, JStr(s))
  {
    hide Lookup, Hex.Decode, Hex.IsHex, Strings, Encode;
    if IsHash(variable) {
      Hex.DecodesExactly(s);
    } else if variable == RV_PROTOCOL {
      ProtocolNamed(s);
      CodeName(s);
      if ProtocolCode(s).Some? { UintEncodes(ProtocolCode(s).value); }
    } else if variable == RV_MEDIUM {
      MediumNamed(s);
      CodeName(s);
      if MediumCode(s).Some? { UintEncodes(MediumCode(s).value); }
    }
  }

  lemma NumberAccepted(h: Host, variable: nat, n: real)
    requires variable <= RV_EXT_RV
    ensures ParseValue(h, variable, JNum(n)).Ok? <==> GoodFor(h, variable, JNum(n))
  {
    hide Encode;
    if IsPort(variable) {
      if PortValue(JNum(n)).Ok? { UintEncodes(PortValue(JNum(n)).value); }
    } else if variable == RV_DELAYSEC && IsWhole(n) && n >= 0.0 {
      UintEncodes(h.toUint32(n.Floor));
    }
  }

  lemma ValueAccepted(h: Host, variable: nat, v: Json)
    requires variable <= RV_EXT_RV
    ensures ParseValue(h, variable, v).Ok? <==> GoodFor(h, variable, v)
  {
    match v
    case JStr(s) => TextAccepted(h, variable, s);
    case JNum(n) => NumberAccepted(h, variable, n);
    case JArr(items) => StringsExactly(items);
    case _ =>
  }

  lemma InstrAccepted(h: Host, key: string, v: Json)
    ensures ParseInstr(h, key, v).Ok? <==> GoodValue(h, key, v)
    ensures ParseInstr(h, key, v).Ok? ==> (IsAddress(ParseInstr(h, key, v).value) <==> key == "dns" || key == "ip")
  {
    hide GoodFor, ParseValue, Lookup;
    if Variable(key).Some? {
      KeyOfVariable(key);
      var variable := Variable(key).value;
      ValueAccepted(h, variable, v);
      if ParseValue(h, variable, v).Ok? { ParsedVariable(h, variable, v); }
    }
  }

  lemma ParsedVariable(h: Host, variable: nat, v: Json)
    requires ParseValue(h, variable, v).Ok? && variable <= RV_EXT_RV
    ensures ParseValue(h, variable, v).value.variable == variable
    ensures variable == RV_DNS || variable == RV_IP_ADDRESS <==> KEYS[variable] == "dns" || KEYS[variable] == "ip"
  {
  }

  predicate GoodObject(h: Host, m: Object) { |m| == 1 && forall k :: k in m ==> GoodValue(h, k, m[k]) }

  predicate NamesAddress(m: Object) { "dns" in m || "ip" in m }

  /** Single-key objects with good values, at least one of them an address. */
  predicate GoodGroup(h: Host, g: seq<Object>) {
    && (forall i :: 0 <= i < |g| ==> GoodObject(h, g[i]))
    && (exists i :: 0 <= i < |g| && NamesAddress(g[i]))
  }

  lemma ObjectAccepted(h: Host, m: Object)
    ensures ParseObject(h, m).Ok? <==> GoodObject(h, m)
    ensures ParseObject(h, m).Ok? ==> (IsAddress(ParseObject(h, m).value) <==> NamesAddress(m))
  {
    hide GoodValue, ParseInstr;
    if |m| == 1 {
      SingleKey(m);
      var k :| k in m;
      InstrAccepted(h, k, m[k]);
      assert forall k' :: k' in m ==> k' == k;
    }
  }

  lemma {:induction false} GroupAccepted(h: Host, g: seq<Object>, d: nat, i: nat)
    ensures ParseGroup(h, g, d, i).Ok? <==> forall j :: 0 <= j < |g| ==> GoodObject(h, g[j])
    ensures ParseGroup(h, g, d, i).Ok? ==>
              (HasAddress(ParseGroup(h, g, d, i).value) <==> exists j :: 0 <= j < |g| && NamesAddress(g[j]))
  {
    hide GoodObject, NamesAddress, ParseObject, IsAddress;
    if g != [] {
      ObjectAccepted(h, g[0]);
      var rest := g[1..];
      GroupAccepted(h, rest, d, i + 1);
      assert forall j :: 0 <= j < |rest| ==> rest[j] == g[j + 1];
      assert (forall j :: 0 <= j < |g| ==> GoodObject(h, g[j]))
             <==> GoodObject(h, g[0]) && forall j :: 0 <= j < |rest| ==> GoodObject(h, rest[j]) by {
        assert forall j :: 1 <= j < |g| ==> g[j] == rest[j - 1];
      }
      assert (exists j :: 0 <= j < |g| && NamesAddress(g[j]))
             <==> NamesAddress(g[0]) || exists j :: 0 <= j < |rest| && NamesAddress(rest[j]) by {
        assert forall j :: 1 <= j < |g| ==> g[j] == rest[j - 1];
      }
      if ParseGroup(h, g, d, i).Ok? {
        HasAddressCons(ParseObject(h, g[0]).value, ParseGroup(h, rest, d, i + 1).value);
      }
    }
  }

  lemma HasAddressCons(x: Instr, g: Directive)
    ensures HasAddress([x] + g) <==> IsAddress(x) || HasAddress(g)
  {
    var r := [x] + g;
    assert r[0] == x;
    if HasAddress(g) {
      var k :| 0 <= k < |g| && IsAddress(g[k]);
      assert r[k + 1] == g[k];
    }
    if HasAddress(r) {
      var k :| 0 <= k < |r| && IsAddress(r[k]);
      assert k > 0 ==> r[k] == g[k - 1];
    }
  }

  /** A document is accepted exactly when every directive is good: nothing else is refused or let in. */
  lemma {:induction false} AcceptsExactly(h: Host, doc: Document, d: nat)
    ensures ParseDoc(h, doc, d).Ok? <==> forall j :: 0 <= j < |doc| ==> GoodGroup(h, doc[j])
  {
    hide ParseGroup, HasAddress, GoodObject, NamesAddress;
    if doc != [] {
      GroupAccepted(h, doc[0], d, 0);
      var rest := doc[1..];
      AcceptsExactly(h, rest, d + 1);
      assert forall j :: 1 <= j < |doc| ==> doc[j] == rest[j - 1];
    }
  }

  // The stored instructions themselves ---------------------------------------------------------

  lemma KeyCode(key: string, variable: nat)
    requires variable < 16 && KEYS[variable] == key
    ensures Variable(key) == Some(variable)
  {
    KeyInjective(variable);
  }

  /** A true flag is stored as its bare variable. */
  lemma FlagsStored(h: Host)
    ensures ParseInstr(h, "dev_only", JBool(true)) == Ok(Instr(0, []))
    ensures ParseInstr(h, "owner_only", JBool(true)) == Ok(Instr(1, []))
    ensures ParseInstr(h, "user_input", JBool(true)) == Ok(Instr(8, []))
    ensures ParseInstr(h, "rv_bypass", JBool(true)) == Ok(Instr(14, []))
  {
    hide Variable;
    KeyCode("dev_only", 0);
    KeyCode("owner_only", 1);
    KeyCode("user_input", 8);
    KeyCode("rv_bypass", 14);
  }

  /** Texts are stored as CBOR text strings. */
  lemma TextsStored(h: Host, s: string)
    requires |Utf8.Encode(s)| < 0x1_0000_0000
    ensures var n := |Utf8.Encode(s)|;
            var b := (if n < 24 then [0x60 + n]
                      else if n < 0x100 then [0x78, n]
                      else if n < 0x1_0000 then [0x79, n / 0x100, n % 256]
                      else [0x7A, n / 0x100_0000, n / 0x1_0000 % 256, n / 0x100 % 256, n % 256]) + Utf8.Encode(s);
            && ParseInstr(h, "dns", JStr(s)) == Ok(Instr(5, b))
            && ParseInstr(h, "wifi_ssid", JStr(s)) == Ok(Instr(9, b))
            && ParseInstr(h, "wifi_pw", JStr(s)) == Ok(Instr(10, b))
  {
    hide Variable, Cbor.Text;
    KeyCode("dns", 5);
    KeyCode("wifi_ssid", 9);
    KeyCode("wifi_pw", 10);
    CborBytes.TextBytes(s);
  }

  /** Ports and delays are stored as unsigned integers of the shortest width. */
  lemma NumbersStored(h: Host, n: nat)
    requires Lawful(h) && n < 0x1_0000_0000
    ensures var b := if n < 24 then [n]
                     else if n < 0x100 then [0x18, n]
                     else if n < 0x1_0000 then [0x19, n / 0x100, n % 256]
                     else [0x1A, n / 0x100_0000, n / 0x1_0000 % 256, n / 0x100 % 256, n % 256];
            && (1 <= n <= 65535 ==> ParseInstr(h, "device_port", JNum(n as real)) == Ok(Instr(3, b)))
            && (1 <= n <= 65535 ==> ParseInstr(h, "owner_port", JNum(n as real)) == Ok(Instr(4, b)))
            && ParseInstr(h, "delay_seconds", JNum(n as real)) == Ok(Instr(13, b))
  {
    hide Variable, Cbor.Uint;
    KeyCode("device_port", 3);
    KeyCode("owner_port", 4);
    KeyCode("delay_seconds", 13);
    CborBytes.UintBytes(n);
    assert (n as real).Floor == n;
  }

  /** Protocols and media are stored as their one-byte codes. */
  lemma CodesStored(h: Host)
    ensures ParseInstr(h, "protocol", JStr("rest")) == Ok(Instr(12, [0]))
    ensures ParseInstr(h, "protocol", JStr("http")) == Ok(Instr(12, [1]))
    ensures ParseInstr(h, "protocol", JStr("https")) == Ok(Instr(12, [2]))
    ensures ParseInstr(h, "protocol", JStr("tcp")) == Ok(Instr(12, [3]))
    ensures ParseInstr(h, "protocol", JStr("tls")) == Ok(Instr(12, [4]))
    ensures ParseInstr(h, "protocol", JStr("coap+tcp")) == Ok(Instr(12, [5]))
    ensures ParseInstr(h, "protocol", JStr("coap")) == Ok(Instr(12, [6]))
    ensures ParseInstr(h, "medium", JStr("eth_all")) == Ok(Instr(11, [20]))
    ensures ParseInstr(h, "medium", JStr("wifi_all")) == Ok(Instr(11, [21]))
  {
    hide Variable, ProtocolCode, MediumCode, Cbor.Uint;
    KeyCode("protocol", 12);
    KeyCode("medium", 11);
    CodesOfNames();
    forall n: nat | n < 24
      ensures Cbor.Uint(n) == Some([n])
    {
      CborBytes.UintBytes(n);
    }
  }

  /** Hashes and addresses are stored as byte strings. */
  lemma BytesStored(h: Host, s: string, v: Bytes)
    requires |v| < 0x1_0000_0000
    ensures var n := |v|;
            var b := (if n < 24 then [0x40 + n]
                      else if n < 0x100 then [0x58, n]
                      else if n < 0x1_0000 then [0x59, n / 0x100, n % 256]
                      else [0x5A, n / 0x100_0000, n / 0x1_0000 % 256, n / 0x100 % 256, n % 256]) + v;
            && (Hex.Decode(s) == Some(v) ==> ParseInstr(h, "sv_cert_hash", JStr(s)) == Ok(Instr(6, b)))
            && (Hex.Decode(s) == Some(v) ==> ParseInstr(h, "cl_cert_hash", JStr(s)) == Ok(Instr(7, b)))
            && (h.parseIp(s) == Some(v) ==> ParseInstr(h, "ip", JStr(s)) == Ok(Instr(2, b)))
  {
    hide Variable, Hex.Decode, Cbor.ByteString;
    KeyCode("sv_cert_hash", 6);
    KeyCode("cl_cert_hash", 7);
    KeyCode("ip", 2);
    CborBytes.ByteStringBytes(v);
  }

  lemma NumberRead(n: nat, max: nat)
    requires n < 0x1_0000_0000_0000_0000
    ensures Decode(IntoUint(max), Cbor.Uint(n).value) == if n <= max then Some(VUint(n)) else None
  {
    hide Cbor.ReadHead;
    Cbor.HeadRoundTrip(0, n, []);
    assert Cbor.Head(0, n).value + [] == Cbor.Head(0, n).value;
  }

  /** What GET shows of a stored number: any that fits the Go type of its variable, and no other. */
  lemma NumbersShown(h: Host, n: nat)
    requires n < 0x1_0000_0000_0000_0000
    ensures var b := Cbor.Uint(n).value;
            && PrintValue(h, Instr(3, b)) == (if n <= 65535 then Some(JNum(n as real)) else None)
            && PrintValue(h, Instr(4, b)) == (if n <= 65535 then Some(JNum(n as real)) else None)
            && PrintValue(h, Instr(13, b)) == (if n <= 4294967295 then Some(JNum(n as real)) else None)
            && PrintValue(h, Instr(12, b)) == (if n <= 255 then Some(JStr(ProtocolName(n))) else None)
            && PrintValue(h, Instr(11, b)) == (if n <= 255 then Some(JStr(MediumName(n))) else None)
  {
    hide Decode, Cbor.Uint, ProtocolName, MediumName;
    NumberRead(n, 65535);
    NumberRead(n, 4294967295);
    NumberRead(n, 255);
  }

  lemma ExtRvParsed(h: Host, ss: seq<string>)
    requires Cbor.Array(Cbor.Text, ss).Some?
    ensures ParseInstr(h, "ext_rv", JArr(Quoted(ss))) == Ok(Instr(15, Cbor.Array(Cbor.Text, ss).value))
  {
    hide Variable, Cbor.Array, Strings, Quoted;
    KeyCode("ext_rv", 15);
    StringsQuoted(ss);
  }

  /** ext_rv is stored as an array of text strings. */
  lemma ExtRvStored(h: Host, ss: seq<string>)
    requires |ss| < 0x1_0000 && Cbor.Elements(Cbor.Text, ss).Some?
    ensures var n := |ss|;
            ParseInstr(h, "ext_rv", JArr(Quoted(ss)))
            == Ok(Instr(15, (if n < 24 then [0x80 + n] else if n < 0x100 then [0x98, n]
                             else [0x99, n / 0x100, n % 256]) + Cbor.Elements(Cbor.Text, ss).value))
  {
    hide *;
    CborBytes.ArrayBytes(Cbor.Text, ss);
    ExtRvParsed(h, ss);
  }

  /** An error names the first object that does not parse, or the first directive without an address. */
  lemma {:induction false} FirstError(h: Host, doc: Document, d: nat)
    requires ParseDoc(h, doc, d).Err?
    ensures match ParseDoc(h, doc, d).error
            case AtInstruction(d', i, fault) =>
              && d <= d' < d + |doc|
              && (forall k :: 0 <= k < d' - d ==> GoodGroup(h, doc[k]))
              && var g := doc[d' - d];
                 i < |g| && ParseObject(h, g[i]) == Err(fault) && forall j :: 0 <= j < i ==> ParseObject(h, g[j]).Ok?
            case NoAddress(d') =>
              && d <= d' < d + |doc|
              && (forall k :: 0 <= k < d' - d ==> GoodGroup(h, doc[k]))
              && var g := doc[d' - d];
                 forall j :: 0 <= j < |g| ==> ParseObject(h, g[j]).Ok? && "dns" !in g[j] && "ip" !in g[j]
  {
    hide ParseObject, GoodObject, ParseGroup, HasAddress;
    GroupAccepted(h, doc[0], d, 0);
    if ParseGroup(h, doc[0], d, 0).Err? {
      GroupError(h, doc[0], d, 0);
    } else {
      forall j | 0 <= j < |doc[0]|
        ensures ParseObject(h, doc[0][j]).Ok?
      {
        ObjectAccepted(h, doc[0][j]);
      }
      if HasAddress(ParseGroup(h, doc[0], d, 0).value) {
        FirstError(h, doc[1..], d + 1);
        assert forall k :: 0 <= k < |doc[1..]| ==> doc[1..][k] == doc[k + 1];
      } else {
        assert forall j :: 0 <= j < |doc[0]| ==> !NamesAddress(doc[0][j]);
      }
    }
  }

  lemma {:induction false} GroupError(h: Host, g: seq<Object>, d: nat, i: nat)
    requires ParseGroup(h, g, d, i).Err?
    ensures var e := ParseGroup(h, g, d, i).error;
            && e.AtInstruction? && e.directive == d && i <= e.instruction < i + |g|
            && ParseObject(h, g[e.instruction - i]) == Err(e.fault)
            && forall j :: 0 <= j < e.instruction - i ==> ParseObject(h, g[j]).Ok?
  {
    hide ParseObject;
    if ParseObject(h, g[0]).Ok? {
      GroupError(h, g[1..], d, i + 1);
      assert forall j :: 0 < j < |g| ==> g[j] == g[1..][j - 1];
    }
  }
}
