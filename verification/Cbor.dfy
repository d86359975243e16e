/**
 * The CBOR subset that rendezvous instructions use: unsigned integers, byte strings, text strings
 * and arrays (section 3 and section 3.1 of RFC 8949), written with the shortest head (section
 * 4.2.1 of RFC 8949) and read with a head of any width. Every reader returns the value and the
 * bytes that follow it.
 */
module Cbor {
  import opened Wrappers
  import Utf8

  type Read<T> = Option<(T, Bytes)>

  const UINT: nat := 0
  const BYTES: nat := 2
  const TEXT: nat := 3
  const ARRAY: nat := 4

  const TWO_64: nat := 0x1_0000_0000_0000_0000

  // Big-endian integers ------------------------------------------------------------------------

  function Pow256(w: nat): (p: nat)
    ensures p >= 1
  {
    if w == 0 then 1 else 256 * Pow256(w - 1)
  }

  function BigEndian(n: nat, w: nat): (b: Bytes)
    ensures |b| == w
  {
    if w == 0 then [] else BigEndian(n / 256, w - 1) + [n % 256]
  }

  function FromBigEndian(b: Bytes): nat {
    if b == [] then 0 else 256 * FromBigEndian(b[..|b| - 1]) + b[|b| - 1]
  }

  lemma {:induction false} BigEndianRoundTrip(n: nat, w: nat)
    requires n < Pow256(w)
    ensures FromBigEndian(BigEndian(n, w)) == n
  {
    if w > 0 {
      BigEndianRoundTrip(n / 256, w - 1);
      var b := BigEndian(n, w);
      assert b[..|b| - 1] == BigEndian(n / 256, w - 1);
    }
  }

  lemma Pow256Values()
    ensures Pow256(1) == 0x100 && Pow256(2) == 0x1_0000
    ensures Pow256(4) == TWO_32 && Pow256(8) == TWO_64
  {
    assert Pow256(3) == 256 * Pow256(2);
    assert Pow256(4) == 256 * Pow256(3);
    assert Pow256(5) == 256 * Pow256(4);
    assert Pow256(6) == 256 * Pow256(5);
    assert Pow256(7) == 256 * Pow256(6);
  }

  // Heads --------------------------------------------------------------------------------------

  /** The number of argument bytes in the shortest head for n. */
  function Width(n: nat): nat {
    if n < 24 then 0 else if n < 0x100 then 1 else if n < 0x1_0000 then 2
    else if n < TWO_32 then 4 else 8
  }

  /** The low five bits of the initial byte: the argument itself, or 24..27 for its width. */
  function Info(n: nat): (i: nat)
    ensures i < 28
  {
    match Width(n) case 0 => if n < 24 then n else 0 case 1 => 24 case 2 => 25 case 4 => 26 case _ => 27
  }

  /** The shortest head; an argument of 2^64 or more has none, which Marshal reports as an error. */
  function Head(major: nat, n: nat): (r: Option<Bytes>)
    requires major < 8
    ensures r.Some? ==> |r.value| >= 1 && r.value[0] / 32 == major
  {
    if n >= TWO_64 then None
    else Some([32 * major + Info(n)] + BigEndian(n, Width(n)))
  }

  function ReadHead(major: nat, b: Bytes): (r: Read<nat>)
    requires major < 8
    ensures r.Some? ==> |b| >= 1 && b[0] / 32 == major
  {
    if b == [] || b[0] / 32 != major then None
    else
      var info := b[0] % 32;
      if info < 24 then Some((info, b[1..]))
      else if info > 27 then None
      else
        var w := if info == 24 then 1 else if info == 25 then 2 else if info == 26 then 4 else 8;
        if |b| < 1 + w then None
        else Some((FromBigEndian(b[1..1 + w]), b[1 + w..]))
  }

  lemma HeadRoundTrip(major: nat, n: nat, rest: Bytes)
    requires major < 8 && n < TWO_64
    ensures ReadHead(major, Head(major, n).value + rest) == Some((n, rest))
  {
    var w := Width(n);
    var arg := BigEndian(n, w);
    var b := [32 * major + Info(n)] + arg + rest;
    Pow256Values();
    if w > 0 { BigEndianRoundTrip(n, w); }
    assert Head(major, n).value + rest == b;
    assert b[0] / 32 == major && b[0] % 32 == Info(n);
    assert b[1..1 + w] == arg;
    assert b[1 + w..] == rest;
  }

  // Items --------------------------------------------------------------------------------------

  function Cat(a: Option<Bytes>, b: Option<Bytes>): Option<Bytes> {
    if a.Some? && b.Some? then Some(a.value + b.value) else None
  }

  function Uint(n: nat): Option<Bytes> { Head(UINT, n) }

  /** An integer read into a Go type whose largest value is max: larger ones are an error. */
  function ReadUint(max: nat, b: Bytes): Read<nat> {
    match ReadHead(UINT, b)
    case Some((n, rest)) => if n <= max then Some((n, rest)) else None
    case None => None
  }

  function Payload(major: nat, v: Bytes): Option<Bytes>
    requires major < 8
  {
    Cat(Head(major, |v|), Some(v))
  }

  function ReadPayload(major: nat, b: Bytes): Read<Bytes>
    requires major < 8
  {
    match ReadHead(major, b)
    case Some((n, rest)) => if n <= |rest| then Some((rest[..n], rest[n..])) else None
    case None => None
  }

  function ByteString(v: Bytes): Option<Bytes> { Payload(BYTES, v) }

  function ReadByteString(b: Bytes): Read<Bytes> { ReadPayload(BYTES, b) }

  function Text(s: string): Option<Bytes> { Payload(TEXT, Utf8.Encode(s)) }

  function ReadText(b: Bytes): Read<string> {
    match ReadPayload(TEXT, b)
    case None => None
    case Some((v, rest)) =>
      match Utf8.Decode(v) case Some(s) => Some((s, rest)) case None => None
  }

  lemma UintRoundTrip(n: nat, max: nat, rest: Bytes)
    requires n <= max && n < TWO_64
    ensures ReadUint(max, Uint(n).value + rest) == Some((n, rest))
  {
    HeadRoundTrip(UINT, n, rest);
  }

  lemma PayloadRoundTrip(major: nat, v: Bytes, rest: Bytes)
    requires major < 8 && Payload(major, v).Some?
    ensures ReadPayload(major, Payload(major, v).value + rest) == Some((v, rest))
  {
    HeadRoundTrip(major, |v|, v + rest);
    var head := Head(major, |v|).value;
    assert head + v + rest == head + (v + rest);
    assert (v + rest)[..|v|] == v && (v + rest)[|v|..] == rest;
  }

  lemma TextRoundTrip(s: string, rest: Bytes)
    requires Text(s).Some?
    ensures ReadText(Text(s).value + rest) == Some((s, rest))
  {
    PayloadRoundTrip(TEXT, Utf8.Encode(s), rest);
    Utf8.DecodeEncode(s);
  }

  // Arrays -------------------------------------------------------------------------------------

  function Elements<T>(write: T -> Option<Bytes>, xs: seq<T>): Option<Bytes> {
    if xs == [] then Some([]) else Cat(write(xs[0]), Elements(write, xs[1..]))
  }

  function ReadElements<T>(read: Bytes -> Read<T>, n: nat, b: Bytes): Read<seq<T>> {
    if n == 0 then Some(([], b))
    else
      match read(b)
      case None => None
      case Some((x, rest)) =>
        match ReadElements(read, n - 1, rest)
        case None => None
        case Some((xs, rest')) => Some(([x] + xs, rest'))
  }

  function Array<T>(write: T -> Option<Bytes>, xs: seq<T>): (r: Option<Bytes>)
    ensures r.Some? ==> |r.value| >= 1 && r.value[0] / 32 == ARRAY
  {
    Cat(Head(ARRAY, |xs|), Elements(write, xs))
  }

  function ReadArray<T>(read: Bytes -> Read<T>, b: Bytes): (r: Read<seq<T>>)
    ensures r.Some? ==> |b| >= 1 && b[0] / 32 == ARRAY
  {
    match ReadHead(ARRAY, b)
    case Some((n, rest)) => ReadElements(read, n, rest)
    case None => None
  }

  /** read undoes write, whatever follows. */
  ghost predicate Inverse<T(!new)>(write: T -> Option<Bytes>, read: Bytes -> Read<T>) {
    forall x: T, rest: Bytes :: write(x).Some? ==> read(write(x).value + rest) == Some((x, rest))
  }

  lemma {:induction false} ElementsRoundTrip<T(!new)>(write: T -> Option<Bytes>, read: Bytes -> Read<T>,
                                                xs: seq<T>, rest: Bytes)
    requires Inverse(write, read) && Elements(write, xs).Some?
    ensures ReadElements(read, |xs|, Elements(write, xs).value + rest) == Some((xs, rest))
  {
    var b := Elements(write, xs).value;
    if xs == [] {
      assert b + rest == rest;
    } else {
      var first, tail := write(xs[0]).value, Elements(write, xs[1..]).value;
      assert b + rest == first + (tail + rest);
      ElementsRoundTrip(write, read, xs[1..], rest);
      assert [xs[0]] + xs[1..] == xs;
    }
  }

  lemma ArrayRoundTrip<T(!new)>(write: T -> Option<Bytes>, read: Bytes -> Read<T>, xs: seq<T>, rest: Bytes)
    requires Inverse(write, read) && Array(write, xs).Some?
    ensures ReadArray(read, Array(write, xs).value + rest) == Some((xs, rest))
  {
    var head, body := Head(ARRAY, |xs|).value, Elements(write, xs).value;
    assert head + body + rest == head + (body + rest);
    HeadRoundTrip(ARRAY, |xs|, body + rest);
    ElementsRoundTrip(write, read, xs, rest);
  }
}
