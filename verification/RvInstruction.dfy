/**
 * Rendezvous instructions as both APIs store them: variable codes of the FIDO Device Onboard
 * specification 1.1, the protocol and medium names, and the CBOR form of a list of directives.
 */
module RvInstruction {
  import opened Wrappers
  import Cbor
  import CborBytes
  import Decimal
  import Utf8

  datatype Instr = Instr(variable: nat, value: Bytes)

  type Directive = seq<Instr>

  const RV_DEV_ONLY: nat := 0
  const RV_OWNER_ONLY: nat := 1
  const RV_IP_ADDRESS: nat := 2
  const RV_DEV_PORT: nat := 3
  const RV_OWNER_PORT: nat := 4
  const RV_DNS: nat := 5
  const RV_SV_CERT_HASH: nat := 6
  const RV_CL_CERT_HASH: nat := 7
  const RV_USER_INPUT: nat := 8
  const RV_WIFI_SSID: nat := 9
  const RV_WIFI_PW: nat := 10
  const RV_MEDIUM: nat := 11
  const RV_PROTOCOL: nat := 12
  const RV_DELAYSEC: nat := 13
  const RV_BYPASS: nat := 14
  const RV_EXT_RV: nat := 15

  predicate IsAddress(i: Instr) {
    i.variable == RV_DNS || i.variable == RV_IP_ADDRESS
  }

  predicate HasAddress(group: Directive) {
    exists k :: 0 <= k < |group| && IsAddress(group[k])
  }

  /**
   * Library functions the codecs call: net.ParseIP, net.IP.String, the float64-to-uint32
   * conversion and json.Marshal of a list of strings.
   */
  datatype Host = Host(
    parseIp: string -> Option<Bytes>,
    printIp: Bytes -> string,
    toUint32: nat -> u32,
    jsonStrings: seq<string> -> string)

  /**
   * Printing a parsed address and parsing it again gives it back, the empty text is no address,
   * and a conversion in range is exact.
   */
  ghost predicate Lawful(h: Host) {
    && (forall s :: h.parseIp(s).Some? ==> h.parseIp(h.printIp(h.parseIp(s).value)) == h.parseIp(s))
    && h.parseIp("").None?
    && (forall n :: 0 <= n < TWO_32 ==> h.toUint32(n) == n)
  }

  lemma SomeHostIsLawful()
    ensures exists h :: Lawful(h)
  {
    var h := Host(s => if s == "::" then Some([0]) else None, _ => "::", n => if n < TWO_32 then n else 0, _ => "");
    assert Lawful(h);
  }

  // Names of protocols and media ---------------------------------------------------------------

  /** A switch over strings: the code of the first entry for a key. */
  type Switch = seq<(string, nat)>

  function Lookup(table: Switch, key: string): Option<nat> {
    if table == [] then None
    else if table[0].0 == key then Some(table[0].1)
    else Lookup(table[1..], key)
  }

  predicate DistinctKeys(table: Switch) { forall i, j :: 0 <= i < j < |table| ==> table[i].0 != table[j].0 }

  lemma {:induction false} LookupFound(table: Switch, key: string) returns (i: nat)
    requires Lookup(table, key).Some?
    ensures i < |table| && table[i] == (key, Lookup(table, key).value)
  {
    if table[0].0 == key {
      i := 0;
    } else {
      var j := LookupFound(table[1..], key);
      i := j + 1;
    }
  }

  lemma {:induction false} LookupAt(table: Switch, i: nat)
    requires DistinctKeys(table) && i < |table|
    ensures Lookup(table, table[i].0) == Some(table[i].1)
  {
    if i > 0 {
      assert table[0].0 != table[i].0;
      LookupAt(table[1..], i - 1);
    }
  }

  const PROTOCOLS: Switch :=
    [("rest", 0), ("http", 1), ("https", 2), ("tcp", 3), ("tls", 4), ("coap+tcp", 5), ("coap", 6)]

  function ProtocolCode(s: string): Option<nat> { Lookup(PROTOCOLS, s) }

  function ProtocolName(code: nat): string {
    match code
    case 0 => "rest"
    case 1 => "http"
    case 2 => "https"
    case 3 => "tcp"
    case 4 => "tls"
    case 5 => "coap+tcp"
    case 6 => "coap"
    case _ => Decimal.Format(code)
  }

  const MED_ETH_ALL: nat := 20
  const MED_WIFI_ALL: nat := 21

  const MEDIA: Switch := [("eth_all", MED_ETH_ALL), ("wifi_all", MED_WIFI_ALL)]

  function MediumCode(s: string): Option<nat> { Lookup(MEDIA, s) }

  function MediumName(code: nat): string {
    if code == MED_ETH_ALL then "eth_all"
    else if code == MED_WIFI_ALL then "wifi_all"
    else Decimal.Format(code)
  }

  /** Parsing a name gives a named code that prints as that name. */
  lemma CodeName(s: string)
    ensures ProtocolCode(s).Some? ==> ProtocolCode(s).value < 7 && ProtocolName(ProtocolCode(s).value) == s
    ensures MediumCode(s).Some? ==>
              && (MediumCode(s).value == MED_ETH_ALL || MediumCode(s).value == MED_WIFI_ALL)
              && MediumName(MediumCode(s).value) == s
  {
    if ProtocolCode(s).Some? { var i := LookupFound(PROTOCOLS, s); }
    if MediumCode(s).Some? { var i := LookupFound(MEDIA, s); }
  }

  /**
   * The name tables are inverse to each other exactly on the named codes: an unnamed code prints
   * as its number, and no number is a name, so printing it and parsing again is refused.
   */
  lemma NameCode(code: nat)
    ensures ProtocolCode(ProtocolName(code)) == if code < 7 then Some(code) else None
    ensures MediumCode(MediumName(code)) ==
            if code == MED_ETH_ALL || code == MED_WIFI_ALL then Some(code) else None
  {
    assert DistinctKeys(PROTOCOLS) && DistinctKeys(MEDIA);
    if code < 7 {
      LookupAt(PROTOCOLS, code);
    } else if ProtocolCode(ProtocolName(code)).Some? {
      var i := LookupFound(PROTOCOLS, Decimal.Format(code));
    }
    if code == MED_ETH_ALL || code == MED_WIFI_ALL {
      LookupAt(MEDIA, code - MED_ETH_ALL);
    } else if MediumCode(MediumName(code)).Some? {
      var i := LookupFound(MEDIA, Decimal.Format(code));
    }
  }

  /** The codes themselves. */
  lemma CodesOfNames()
    ensures ProtocolCode("rest") == Some(0) && ProtocolCode("http") == Some(1) && ProtocolCode("https") == Some(2)
    ensures ProtocolCode("tcp") == Some(3) && ProtocolCode("tls") == Some(4)
    ensures ProtocolCode("coap+tcp") == Some(5) && ProtocolCode("coap") == Some(6)
    ensures MediumCode("eth_all") == Some(20) && MediumCode("wifi_all") == Some(21)
  {
    hide Lookup;
    assert DistinctKeys(PROTOCOLS) && DistinctKeys(MEDIA);
    LookupAt(PROTOCOLS, 0);
    LookupAt(PROTOCOLS, 1);
    LookupAt(PROTOCOLS, 2);
    LookupAt(PROTOCOLS, 3);
    LookupAt(PROTOCOLS, 4);
    LookupAt(PROTOCOLS, 5);
    LookupAt(PROTOCOLS, 6);
    LookupAt(MEDIA, 0);
    LookupAt(MEDIA, 1);
  }

  // Values -------------------------------------------------------------------------------------

  /** What the two APIs hand to cbor.Marshal as an instruction's value. */
  datatype RvValue = VText(s: string) | VUint(n: nat) | VBytes(b: Bytes) | VTexts(ss: seq<string>)

  function Encode(v: RvValue): Option<Bytes> {
    match v
    case VText(s) => Cbor.Text(s)
    case VUint(n) => Cbor.Uint(n)
    case VBytes(b) => Cbor.ByteString(b)
    case VTexts(ss) => Cbor.Array(Cbor.Text, ss)
  }

  /** The Go type a printer unmarshals a value into. */
  datatype Target = IntoText | IntoUint(max: nat) | IntoBytes | IntoTexts

  /** cbor.Unmarshal: bytes after the value are ignored. */
  function Decode(t: Target, b: Bytes): Option<RvValue> {
    match t
    case IntoText => (match Cbor.ReadText(b) case Some((s, _)) => Some(VText(s)) case None => None)
    case IntoUint(max) => (match Cbor.ReadUint(max, b) case Some((n, _)) => Some(VUint(n)) case None => None)
    case IntoBytes => (match Cbor.ReadByteString(b) case Some((v, _)) => Some(VBytes(v)) case None => None)
    case IntoTexts =>
      match Cbor.ReadArray(Cbor.ReadText, b) case Some((ss, _)) => Some(VTexts(ss)) case None => None
  }

  predicate Fits(t: Target, v: RvValue) {
    match t
    case IntoText => v.VText?
    case IntoUint(max) => v.VUint? && v.n <= max
    case IntoBytes => v.VBytes?
    case IntoTexts => v.VTexts?
  }

  /** A value can be read back into a Go type exactly when it has that type, and then unchanged. */
  lemma DecodeEncode(t: Target, v: RvValue)
    requires Encode(v).Some?
    ensures Decode(t, Encode(v).value) == if Fits(t, v) then Some(v) else None
  {
    var b := Encode(v).value;
    assert b + [] == b;
    match v
    case VText(s) =>
      Cbor.TextRoundTrip(s, []);
    case VUint(n) =>
      Cbor.UintRoundTrip(n, n, []);
      if t.IntoUint? && n <= t.max { Cbor.UintRoundTrip(n, t.max, []); }
    case VBytes(v) =>
      Cbor.PayloadRoundTrip(Cbor.BYTES, v, []);
    case VTexts(ss) =>
      TextInverse();
      Cbor.ArrayRoundTrip(Cbor.Text, Cbor.ReadText, ss, []);
  }

  lemma TextInverse()
    ensures Cbor.Inverse(Cbor.Text, Cbor.ReadText)
  {
    forall s, rest: Bytes | Cbor.Text(s).Some?
      ensures Cbor.ReadText(Cbor.Text(s).value + rest) == Some((s, rest))
    {
      Cbor.TextRoundTrip(s, rest);
    }
  }

  // The stored form ----------------------------------------------------------------------------

  /** One instruction: the array [variable, value], the value as a byte string. */
  function WriteInstr(i: Instr): Option<Bytes> {
    if i.variable > 255 then None
    else Cbor.Cat(Cbor.Head(Cbor.ARRAY, 2), Cbor.Cat(Cbor.Uint(i.variable), Cbor.ByteString(i.value)))
  }

  function ReadInstr(b: Bytes): Cbor.Read<Instr> {
    match Cbor.ReadHead(Cbor.ARRAY, b)
    case None => None
    case Some((n, rest)) =>
      if n != 2 then None
      else
        match Cbor.ReadUint(255, rest)
        case None => None
        case Some((variable, rest')) =>
          match Cbor.ReadByteString(rest')
          case None => None
          case Some((value, rest'')) => Some((Instr(variable, value), rest''))
  }

  function WriteDirective(d: Directive): Option<Bytes> { Cbor.Array(WriteInstr, d) }

  function ReadDirective(b: Bytes): Cbor.Read<Directive> { Cbor.ReadArray(ReadInstr, b) }

  /** cbor.Marshal of the directives. */
  function Marshal(ds: seq<Directive>): Option<Bytes> { Cbor.Array(WriteDirective, ds) }

  /** cbor.Unmarshal into a list of directives; what follows the value is ignored. */
  function Unmarshal(b: Bytes): Option<seq<Directive>> {
    match Cbor.ReadArray(ReadDirective, b)
    case Some((ds, _)) => Some(ds)
    case None => None
  }

  lemma InstrRoundTrip(i: Instr, rest: Bytes)
    requires WriteInstr(i).Some?
    ensures ReadInstr(WriteInstr(i).value + rest) == Some((i, rest))
  {
    hide Cbor.Head, Cbor.ReadHead, Cbor.Uint, Cbor.ReadUint, Cbor.Payload, Cbor.ReadPayload;
    var head := Cbor.Head(Cbor.ARRAY, 2).value;
    var variable, value := Cbor.Uint(i.variable).value, Cbor.ByteString(i.value).value;
    assert WriteInstr(i).value + rest == head + (variable + (value + rest));
    Cbor.HeadRoundTrip(Cbor.ARRAY, 2, variable + (value + rest));
    Cbor.UintRoundTrip(i.variable, 255, value + rest);
    Cbor.PayloadRoundTrip(Cbor.BYTES, i.value, rest);
  }

  lemma InstrInverse()
    ensures Cbor.Inverse(WriteInstr, ReadInstr)
  {
    forall i, rest: Bytes | WriteInstr(i).Some?
      ensures ReadInstr(WriteInstr(i).value + rest) == Some((i, rest))
    {
      InstrRoundTrip(i, rest);
    }
  }

  lemma DirectiveInverse()
    ensures Cbor.Inverse(WriteDirective, ReadDirective)
  {
    InstrInverse();
    forall d, rest: Bytes | WriteDirective(d).Some?
      ensures ReadDirective(WriteDirective(d).value + rest) == Some((d, rest))
    {
      Cbor.ArrayRoundTrip(WriteInstr, ReadInstr, d, rest);
    }
  }

  /** Storing directives and fetching them gives back the same directives. */
  lemma StoredRoundTrip(ds: seq<Directive>)
    requires Marshal(ds).Some?
    ensures Unmarshal(Marshal(ds).value) == Some(ds)
  {
    DirectiveInverse();
    Cbor.ArrayRoundTrip(WriteDirective, ReadDirective, ds, []);
    assert Marshal(ds).value + [] == Marshal(ds).value;
  }

  // The stored bytes ---------------------------------------------------------------------------

  /** One instruction: an array of two, the variable, and the value behind its length. */
  lemma InstrBytes(i: Instr)
    requires |i.value| < 0x1_0000_0000
    ensures var n := |i.value|;
            WriteInstr(i) ==
            if i.variable > 255 then None
            else Some((if i.variable < 24 then [0x82, i.variable] else [0x82, 0x18, i.variable])
                      + (if n < 24 then [0x40 + n]
                         else if n < 0x100 then [0x58, n]
                         else if n < 0x1_0000 then [0x59, n / 0x100, n % 256]
                         else [0x5A, n / 0x100_0000, n / 0x1_0000 % 256, n / 0x100 % 256, n % 256])
                      + i.value)
  {
    hide Cbor.Head, Cbor.Uint, Cbor.Payload;
    if i.variable <= 255 {
      var start := if i.variable < 24 then [0x82, i.variable] else [0x82, 0x18, i.variable];
      CborBytes.HeadBytes(4, 2);
      CborBytes.UintBytes(i.variable);
      CborBytes.ByteStringBytes(i.value);
      assert [0x82] + Cbor.Uint(i.variable).value == start;
      assert [0x82] + (Cbor.Uint(i.variable).value + Cbor.ByteString(i.value).value)
             == start + Cbor.ByteString(i.value).value;
      AppendLast(start, Cbor.ByteString(i.value).value, i.value);
    }
  }

  /** Prefixing and appending commute. */
  lemma AppendLast(a: Bytes, b: Bytes, last: Bytes)
    requires |last| <= |b| && b[|b| - |last|..] == last
    ensures a + b == a + b[..|b| - |last|] + last
  {
    assert b == b[..|b| - |last|] + last;
  }

  /** A directive is the array of its instructions in order, and a document that of its directives. */
  lemma DocumentBytes(d: Directive, ds: seq<Directive>)
    requires |d| < 0x1_0000 && |ds| < 0x1_0000
    requires Cbor.Elements(WriteInstr, d).Some? && Cbor.Elements(WriteDirective, ds).Some?
    ensures var n := |d|;
            WriteDirective(d) == Some((if n < 24 then [0x80 + n] else if n < 0x100 then [0x98, n]
                                       else [0x99, n / 0x100, n % 256])
                                      + Cbor.Elements(WriteInstr, d).value)
    ensures var n := |ds|;
            Marshal(ds) == Some((if n < 24 then [0x80 + n] else if n < 0x100 then [0x98, n]
                                 else [0x99, n / 0x100, n % 256])
                                + Cbor.Elements(WriteDirective, ds).value)
  {
    CborBytes.ArrayBytes(WriteInstr, d);
    CborBytes.ArrayBytes(WriteDirective, ds);
  }
}
