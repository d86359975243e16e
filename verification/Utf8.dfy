/** UTF-8, the byte form of a Go string and of a CBOR text string. */
module Utf8 {
  import opened Wrappers

  function EncodeChar(c: char): (b: Bytes)
    ensures 1 <= |b| <= 4
  {
    var n := c as int;
    if n < 0x80 then [n]
    else if n < 0x800 then [0xC0 + n / 64, 0x80 + n % 64]
    else if n < 0x10000 then [0xE0 + n / 4096, 0x80 + n / 64 % 64, 0x80 + n % 64]
    else [0xF0 + n / 262144, 0x80 + n / 4096 % 64, 0x80 + n / 64 % 64, 0x80 + n % 64]
  }

  predicate IsTail(b: byte) { 0x80 <= b < 0xC0 }

  /** The character of a complete sequence, if n is a scalar value that needs as many bytes. */
  function Scalar(n: int, least: nat): Option<char> {
    if n >= least && (n < 0xD800 || 0xE000 <= n < 0x11_0000) then Some(n as char) else None
  }

  /** The first character of b and the number of bytes it takes. */
  function DecodeChar(b: Bytes): (r: Option<(char, nat)>)
    ensures r.Some? ==> 1 <= r.value.1 <= |b|
  {
    if |b| >= 1 && b[0] < 0x80 then Some((b[0] as char, 1))
    else if |b| >= 2 && 0xC0 <= b[0] < 0xE0 && IsTail(b[1]) then
      With(Scalar(64 * (b[0] as int - 0xC0) + (b[1] as int - 0x80), 0x80), 2)
    else if |b| >= 3 && 0xE0 <= b[0] < 0xF0 && IsTail(b[1]) && IsTail(b[2]) then
      With(Scalar(4096 * (b[0] as int - 0xE0) + 64 * (b[1] as int - 0x80) + (b[2] as int - 0x80), 0x800), 3)
    else if |b| >= 4 && 0xF0 <= b[0] < 0xF8 && IsTail(b[1]) && IsTail(b[2]) && IsTail(b[3]) then
      With(Scalar(262144 * (b[0] as int - 0xF0) + 4096 * (b[1] as int - 0x80)
                  + 64 * (b[2] as int - 0x80) + (b[3] as int - 0x80), 0x1_0000), 4)
    else None
  }

  function With(c: Option<char>, n: nat): Option<(char, nat)> {
    match c case Some(c) => Some((c, n)) case None => None
  }

  function Encode(s: string): Bytes {
    if s == "" then [] else EncodeChar(s[0]) + Encode(s[1..])
  }

  function Decode(b: Bytes): Option<string>
    decreases |b|
  {
    if b == [] then Some("")
    else
      match DecodeChar(b)
      case None => None
      case Some((c, n)) =>
        match Decode(b[n..])
        case None => None
        case Some(rest) => Some([c] + rest)
  }

  lemma DecodeEncodeChar(c: char, rest: Bytes)
    ensures DecodeChar(EncodeChar(c) + rest) == Some((c, |EncodeChar(c)|))
  {
    var n := c as int;
    var b := EncodeChar(c);
    assert forall i :: 0 <= i < |b| ==> (b + rest)[i] == b[i];
    assert n / 4096 == n / 64 / 64 && n / 262144 == n / 4096 / 64;
  }

  lemma {:induction false} DecodeEncode(s: string)
    ensures Decode(Encode(s)) == Some(s)
  {
    if s != "" {
      var head, rest := EncodeChar(s[0]), Encode(s[1..]);
      DecodeEncodeChar(s[0], rest);
      DecodeEncode(s[1..]);
      assert (head + rest)[|head|..] == rest;
      assert [s[0]] + s[1..] == s;
    }
  }

  lemma EncodeTwo(c: char, x: nat, y: nat)
    requires x < 32 && y < 64 && 0x80 <= c as int == 64 * x + y
    ensures EncodeChar(c) == [0xC0 + x, 0x80 + y]
  {
    Digits64(x, y);
  }

  lemma EncodeThree(c: char, x: nat, y: nat, z: nat)
    requires x < 16 && y < 64 && z < 64 && 0x800 <= c as int == 4096 * x + 64 * y + z
    ensures EncodeChar(c) == [0xE0 + x, 0x80 + y, 0x80 + z]
  {
    Digits64(x, y);
    Digits64(64 * x + y, z);
    assert c as int / 4096 == c as int / 64 / 64;
  }

  lemma EncodeFour(c: char, w: nat, x: nat, y: nat, z: nat)
    requires w < 8 && x < 64 && y < 64 && z < 64 && 0x1_0000 <= c as int == 262144 * w + 4096 * x + 64 * y + z
    ensures EncodeChar(c) == [0xF0 + w, 0x80 + x, 0x80 + y, 0x80 + z]
  {
    var high := 64 * w + x;
    Digits64(w, x);
    Digits64(high, y);
    Digits64(64 * high + y, z);
    assert c as int / 4096 == c as int / 64 / 64 && c as int / 262144 == c as int / 64 / 64 / 64;
  }

  lemma DecodedChar(b: Bytes)
    requires DecodeChar(b).Some?
    ensures var (c, n) := DecodeChar(b).value; b[..n] == EncodeChar(c)
  {
    var (c, n) := DecodeChar(b).value;
    if n > 1 {
      hide EncodeChar;
      if n == 2 {
        EncodeTwo(c, b[0] - 0xC0, b[1] - 0x80);
      } else if n == 3 {
        EncodeThree(c, b[0] - 0xE0, b[1] - 0x80, b[2] - 0x80);
      } else {
        EncodeFour(c, b[0] - 0xF0, b[1] - 0x80, b[2] - 0x80, b[3] - 0x80);
      }
    }
  }

  lemma Digits64(high: int, low: int)
    requires 0 <= low < 64
    ensures (64 * high + low) / 64 == high && (64 * high + low) % 64 == low
  {
  }

  /** Bytes are a text exactly when they are its encoding: no other, longer or truncated form is read. */
  lemma {:induction false} DecodesExactly(b: Bytes, s: string)
    ensures Decode(b) == Some(s) <==> b == Encode(s)
    decreases |b|
  {
    DecodeEncode(s);
    if b != [] && Decode(b) == Some(s) {
      var (c, n) := DecodeChar(b).value;
      DecodedChar(b);
      DecodesExactly(b[n..], s[1..]);
      assert b == b[..n] + b[n..];
    }
  }

  /**
   * The bytes of one character (section 3 of RFC 3629): the first byte gives the length, every other
   * byte is 0x80..0xBF, and their low bits spell the code point.
   */
  lemma CharBytes(c: char)
    ensures var n, b := c as int, EncodeChar(c);
            && |b| == (if n < 0x80 then 1 else if n < 0x800 then 2 else if n < 0x10000 then 3 else 4)
            && (forall i :: 1 <= i < |b| ==> 0x80 <= b[i] <= 0xBF)
            && (|b| == 1 ==> b[0] == n)
            && (|b| == 2 ==> 0xC2 <= b[0] <= 0xDF && n == (b[0] as int - 0xC0) * 64 + (b[1] as int - 0x80))
            && (|b| == 3 ==> 0xE0 <= b[0] <= 0xEF
                             && n == ((b[0] as int - 0xE0) * 64 + (b[1] as int - 0x80)) * 64 + (b[2] as int - 0x80))
            && (|b| == 4 ==> 0xF0 <= b[0] <= 0xF4
                             && n == (((b[0] as int - 0xF0) * 64 + (b[1] as int - 0x80)) * 64 + (b[2] as int - 0x80)) * 64
                                     + (b[3] as int - 0x80))
  {
    var n := c as int;
    assert n / 4096 == n / 64 / 64 && n / 262144 == n / 4096 / 64;
  }

  lemma EncodeOne(c: char)
    ensures Encode([c]) == EncodeChar(c)
  {
    assert [c][1..] == "" && EncodeChar(c) + [] == EncodeChar(c);
  }

  /** A text is its characters' bytes, one after another. */
  lemma {:induction false} EncodeConcat(s: string, t: string)
    ensures Encode("") == [] && Encode(s + t) == Encode(s) + Encode(t)
    ensures forall c :: Encode([c]) == EncodeChar(c)
  {
    hide EncodeChar;
    forall c
      ensures Encode([c]) == EncodeChar(c)
    {
      EncodeOne(c);
    }
    if s == "" {
      assert s + t == t;
    } else {
      EncodeConcat(s[1..], t);
      assert (s + t)[1..] == s[1..] + t;
    }
  }
}
