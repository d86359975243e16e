/** Go's encoding/hex (section 8 of RFC 4648): lower-case output, either case accepted. */
module Hex {
  import opened Wrappers

  /** The value of one hex digit, or None for any other character. */
  function Digit(c: char): (r: Option<nat>)
    ensures r.Some? ==> r.value < 16
  {
    if '0' <= c <= '9' then Some(c as int - '0' as int)
    else if 'a' <= c <= 'f' then Some(c as int - 'a' as int + 10)
    else if 'A' <= c <= 'F' then Some(c as int - 'A' as int + 10)
    else None
  }

  function DigitChar(d: nat): (c: char)
    requires d < 16
    ensures Digit(c) == Some(d) && Lower(c) == c
  {
    if d < 10 then ('0' as int + d) as char else ('a' as int + (d - 10)) as char
  }

  /** ASCII lower-casing of one character. */
  function Lower(c: char): char {
    if 'A' <= c <= 'Z' then (c as int + 32) as char else c
  }

  function LowerAll(s: string): (r: string)
    ensures |r| == |s|
  {
    seq(|s|, i requires 0 <= i < |s| => Lower(s[i]))
  }

  function Encode(b: Bytes): (s: string)
    ensures |s| == 2 * |b|
  {
    if b == [] then ""
    else [DigitChar(b[0] / 16), DigitChar(b[0] % 16)] + Encode(b[1..])
  }

  /** hex.DecodeString: fails on an odd length or on a character that is not a hex digit. */
  function Decode(s: string): (r: Option<Bytes>)
    ensures r.Some? ==> |s| == 2 * |r.value|
  {
    if |s| == 0 then Some([])
    else if |s| == 1 then None
    else
      match (Digit(s[0]), Digit(s[1]), Decode(s[2..]))
      case (Some(hi), Some(lo), Some(rest)) => Some([16 * hi + lo] + rest)
      case _ => None
  }

  lemma {:induction false} DecodeEncode(b: Bytes)
    ensures Decode(Encode(b)) == Some(b)
  {
    if b != [] {
      DecodeEncode(b[1..]);
      assert Encode(b)[2..] == Encode(b[1..]);
      assert 16 * (b[0] / 16) + b[0] % 16 == b[0];
      assert [b[0]] + b[1..] == b;
    }
  }

  /** Printing a decoded string changes nothing but the case of its letters. */
  lemma {:induction false} EncodeDecode(s: string)
    requires Decode(s).Some?
    ensures Encode(Decode(s).value) == LowerAll(s)
  {
    if |s| >= 2 {
      var b := Decode(s).value;
      EncodeDecode(s[2..]);
      assert b[1..] == Decode(s[2..]).value;
      DigitLower(s[0]);
      DigitLower(s[1]);
      assert b[0] / 16 == Digit(s[0]).value && b[0] % 16 == Digit(s[1]).value;
      assert LowerAll(s) == [Lower(s[0]), Lower(s[1])] + LowerAll(s[2..]);
    }
  }

  lemma DigitLower(c: char)
    requires Digit(c).Some?
    ensures DigitChar(Digit(c).value) == Lower(c)
  {
  }

  /** Lower-casing keeps the decoded bytes, so a canonical string parses to the same hash. */
  lemma DecodeLower(s: string)
    requires Decode(s).Some?
    ensures Decode(LowerAll(s)) == Decode(s)
  {
    EncodeDecode(s);
    DecodeEncode(Decode(s).value);
  }

  predicate IsHex(s: string) {
    && |s| % 2 == 0
    && forall i :: 0 <= i < |s| ==> '0' <= s[i] <= '9' || 'a' <= s[i] <= 'f' || 'A' <= s[i] <= 'F'
  }

  /** A string decodes exactly when it is an even number of hex digits. */
  lemma {:induction false} DecodesExactly(s: string)
    ensures Decode(s).Some? <==> IsHex(s)
  {
    if |s| >= 2 {
      DecodesExactly(s[2..]);
      assert forall i :: 2 <= i < |s| ==> s[i] == s[2..][i - 2];
    }
  }

  lemma DigitIs(d: nat)
    requires d < 16
    ensures DigitChar(d) == "0123456789abcdef"[d]
  {
  }

  /** Byte i prints as two lower-case digits, the high four bits first. */
  lemma {:induction false} EncodeDigits(b: Bytes, i: nat)
    requires i < |b|
    ensures Encode(b)[2 * i] == "0123456789abcdef"[b[i] / 16]
    ensures Encode(b)[2 * i + 1] == "0123456789abcdef"[b[i] % 16]
  {
    if i == 0 {
      DigitIs(b[0] / 16);
      DigitIs(b[0] % 16);
    } else {
      EncodeDigits(b[1..], i - 1);
      assert Encode(b)[2 * i] == Encode(b[1..])[2 * (i - 1)];
      assert Encode(b)[2 * i + 1] == Encode(b[1..])[2 * (i - 1) + 1];
    }
  }
}
