/** The bytes that the CBOR writers produce and the readers accept, as literals (section 3 of RFC 8949). */
module CborBytes {
  import opened Wrappers
  import opened Cbor
  import Utf8

  lemma BigEndianStep(n: nat, w: nat)
    requires w > 0
    ensures BigEndian(n, w) == BigEndian(n / 256, w - 1) + [n % 256]
  {
  }

  lemma DivTwice(n: nat)
    ensures n / 256 / 256 == n / 0x1_0000 && n / 256 / 256 / 256 == n / 0x100_0000
    ensures n / 256 / 256 / 256 / 256 == n / TWO_32
  {
  }

  lemma FourBytes(n: nat, n1: nat, n2: nat, n3: nat)
    requires n1 == n / 256 && n2 == n1 / 256 && n3 == n2 / 256
    ensures BigEndian(n, 1) == [n % 256] && BigEndian(n, 2) == [n1 % 256, n % 256]
    ensures BigEndian(n, 4) == [n3 % 256, n2 % 256, n1 % 256, n % 256]
  {
    hide BigEndian;
    NoBytes();
    BigEndianStep(n3, 1);
    BigEndianStep(n2, 2);
    BigEndianStep(n1, 3);
    BigEndianStep(n1, 1);
    BigEndianStep(n, 1);
    BigEndianStep(n, 2);
    BigEndianStep(n, 4);
  }

  /** The argument bytes, most significant first. */
  lemma BigEndianBytes(n: nat)
    ensures BigEndian(n, 1) == [n % 256] && BigEndian(n, 2) == [n / 0x100 % 256, n % 256]
    ensures BigEndian(n, 4) == [n / 0x100_0000 % 256, n / 0x1_0000 % 256, n / 0x100 % 256, n % 256]
  {
    hide BigEndian;
    DivTwice(n);
    FourBytes(n, n / 256, n / 256 / 256, n / 256 / 256 / 256);
  }

  lemma NoBytes()
    ensures forall n: nat :: BigEndian(n, 0) == []
  {
  }

  /** Eight bytes are the four of the high word and the four of the low word. */
  lemma BigEndianWords(n: nat)
    ensures BigEndian(n, 8) == BigEndian(n / TWO_32, 4) + BigEndian(n, 4)
  {
    hide BigEndian;
    DivTwice(n);
    var n1 := n / 256;
    var n2 := n1 / 256;
    var n3 := n2 / 256;
    NoBytes();
    BigEndianStep(n, 8);
    BigEndianStep(n1, 7);
    BigEndianStep(n2, 6);
    BigEndianStep(n3, 5);
    BigEndianStep(n, 4);
    BigEndianStep(n1, 3);
    BigEndianStep(n2, 2);
    BigEndianStep(n3, 1);
  }

  /** The head of an argument below 2^32, by the range of the argument. */
  lemma HeadBytes(major: nat, n: nat)
    requires major < 8 && n < 0x1_0000_0000
    ensures Head(major, n) == Some(
              if n < 24 then [32 * major + n]
              else if n < 0x100 then [32 * major + 24, n]
              else if n < 0x1_0000 then [32 * major + 25, n / 0x100, n % 256]
              else [32 * major + 26, n / 0x100_0000, n / 0x1_0000 % 256, n / 0x100 % 256, n % 256])
  {
    hide BigEndian;
    NoBytes();
    BigEndianBytes(n);
    var m := 32 * major;
    if n < 24 {
      assert [m + n] + [] == [m + n];
    } else if n < 0x100 {
      assert [m + 24] + BigEndian(n, 1) == [m + 24, n];
    } else if n < 0x1_0000 {
      assert n / 0x100 % 256 == n / 0x100;
      assert [m + 25] + BigEndian(n, 2) == [m + 25, n / 0x100, n % 256];
    } else {
      assert n / 0x100_0000 % 256 == n / 0x100_0000;
      assert [m + 26] + BigEndian(n, 4)
             == [m + 26, n / 0x100_0000, n / 0x1_0000 % 256, n / 0x100 % 256, n % 256];
    }
  }

  lemma WideHead(major: nat, n: nat)
    requires major < 8 && 0x1_0000_0000 <= n < 0x1_0000_0000_0000_0000
    ensures var high := n / 0x1_0000_0000;
            Head(major, n) == Some([32 * major + 27, high / 0x100_0000, high / 0x1_0000 % 256, high / 0x100 % 256, high % 256]
                                   + [n / 0x100_0000 % 256, n / 0x1_0000 % 256, n / 0x100 % 256, n % 256])
  {
    hide BigEndian;
    var high := n / 0x1_0000_0000;
    var m := 32 * major;
    BigEndianBytes(n);
    BigEndianBytes(high);
    BigEndianWords(n);
    assert high / 0x100_0000 % 256 == high / 0x100_0000;
    var hi, lo := BigEndian(high, 4), BigEndian(n, 4);
    assert [m + 27] + (hi + lo) == ([m + 27] + hi) + lo;
    assert [m + 27] + hi == [m + 27, high / 0x100_0000, high / 0x1_0000 % 256, high / 0x100 % 256, high % 256];
  }

  /** An unsigned integer below 2^32 is major type 0 (section 3.1 of RFC 8949). */
  lemma UintBytes(n: nat)
    requires n < 0x1_0000_0000
    ensures Uint(n) == Some(
              if n < 24 then [n]
              else if n < 0x100 then [0x18, n]
              else if n < 0x1_0000 then [0x19, n / 0x100, n % 256]
              else [0x1A, n / 0x100_0000, n / 0x1_0000 % 256, n / 0x100 % 256, n % 256])
  {
    HeadBytes(0, n);
  }

  /** Above that it takes eight argument bytes, and from 2^64 on it has no encoding. */
  lemma WideUintBytes(n: nat)
    requires n >= 0x1_0000_0000
    ensures var high := n / 0x1_0000_0000;
            Uint(n) == if n >= 0x1_0000_0000_0000_0000 then None
                       else Some([0x1B, high / 0x100_0000, high / 0x1_0000 % 256, high / 0x100 % 256, high % 256]
                                 + [n / 0x100_0000 % 256, n / 0x1_0000 % 256, n / 0x100 % 256, n % 256])
  {
    if n < 0x1_0000_0000_0000_0000 { WideHead(0, n); }
  }

  /** A byte string is its length in 0x40.., then its bytes. */
  lemma ByteStringBytes(v: Bytes)
    requires |v| < 0x1_0000_0000
    ensures var n := |v|;
            ByteString(v) == Some(
              (if n < 24 then [0x40 + n]
               else if n < 0x100 then [0x58, n]
               else if n < 0x1_0000 then [0x59, n / 0x100, n % 256]
               else [0x5A, n / 0x100_0000, n / 0x1_0000 % 256, n / 0x100 % 256, n % 256]) + v)
  {
    HeadBytes(2, |v|);
  }

  /** A text string is the length of its UTF-8 form in 0x60.., then that form. */
  lemma TextBytes(s: string)
    requires |Utf8.Encode(s)| < 0x1_0000_0000
    ensures var n := |Utf8.Encode(s)|;
            Text(s) == Some(
              (if n < 24 then [0x60 + n]
               else if n < 0x100 then [0x78, n]
               else if n < 0x1_0000 then [0x79, n / 0x100, n % 256]
               else [0x7A, n / 0x100_0000, n / 0x1_0000 % 256, n / 0x100 % 256, n % 256]) + Utf8.Encode(s))
  {
    HeadBytes(3, |Utf8.Encode(s)|);
  }

  /** Longer strings have an eight-byte length after 0x5B or 0x7B. */
  lemma LongStringBytes(v: Bytes, s: string)
    ensures 0x1_0000_0000 <= |v| < 0x1_0000_0000_0000_0000 ==>
              ByteString(v).Some? && |ByteString(v).value| == |v| + 9
              && ByteString(v).value[0] == 0x5B && ByteString(v).value[9..] == v
    ensures 0x1_0000_0000 <= |Utf8.Encode(s)| < 0x1_0000_0000_0000_0000 ==>
              Text(s).Some? && |Text(s).value| == |Utf8.Encode(s)| + 9
              && Text(s).value[0] == 0x7B && Text(s).value[9..] == Utf8.Encode(s)
  {
    hide BigEndian;
    var t := Utf8.Encode(s);
    if 0x1_0000_0000 <= |v| < 0x1_0000_0000_0000_0000 { WideHead(2, |v|); }
    if 0x1_0000_0000 <= |t| < 0x1_0000_0000_0000_0000 { WideHead(3, |t|); }
  }

  /** A reader takes an integer of any width: the shortest is not demanded of stored bytes. */
  lemma ReadsAnyWidth(a: byte, b: byte, c: byte, d: byte, rest: Bytes)
    ensures a < 24 ==> ReadUint(0xFFFF_FFFF, [a] + rest) == Some((a, rest))
    ensures ReadUint(0xFFFF_FFFF, [0x18, a] + rest) == Some((a, rest))
    ensures ReadUint(0xFFFF_FFFF, [0x19, a, b] + rest) == Some((0x100 * a + b, rest))
    ensures ReadUint(0xFFFF_FFFF, [0x1A, a, b, c, d] + rest)
            == Some((0x100_0000 * a + 0x1_0000 * b + 0x100 * c + d, rest))
  {
    FromTwo(a, b);
    FromFour(a, b, c, d);
    var one, two, four := [0x18, a] + rest, [0x19, a, b] + rest, [0x1A, a, b, c, d] + rest;
    hide FromBigEndian;
    assert one[1..2] == [a] && one[2..] == rest;
    assert two[1..3] == [a, b] && two[3..] == rest;
    assert four[1..5] == [a, b, c, d] && four[5..] == rest;
    assert ([a] + rest)[1..] == rest;
  }

  /** Each reader takes its own first bytes only: no other kind, no reserved and no indefinite length. */
  lemma ReadsOwnKind<T>(read: Bytes -> Read<T>, b: Bytes, max: nat)
    ensures ReadUint(max, b).Some? ==> b != [] && b[0] <= 0x1B
    ensures ReadByteString(b).Some? ==> b != [] && 0x40 <= b[0] <= 0x5B
    ensures ReadText(b).Some? ==> b != [] && 0x60 <= b[0] <= 0x7B
    ensures ReadArray(read, b).Some? ==> b != [] && 0x80 <= b[0] <= 0x9B
  {
  }

  lemma FromTwo(a: byte, b: byte)
    ensures FromBigEndian([a]) == a && FromBigEndian([a, b]) == 0x100 * a + b
  {
    assert [a][..0] == [] && [a, b][..1] == [a];
  }

  lemma FromFour(a: byte, b: byte, c: byte, d: byte)
    ensures FromBigEndian([a, b, c, d]) == 0x100_0000 * a + 0x1_0000 * b + 0x100 * c + d
  {
    FromTwo(a, b);
    assert [a, b, c, d][..3] == [a, b, c] && [a, b, c][..2] == [a, b];
    assert FromBigEndian([a, b, c]) == 256 * FromBigEndian([a, b]) + c;
  }

  /** An array is its size in 0x80.., then its elements. */
  lemma ArrayBytes<T>(write: T -> Option<Bytes>, xs: seq<T>)
    requires |xs| < 0x1_0000_0000 && Elements(write, xs).Some?
    ensures var n := |xs|;
            Array(write, xs) == Some(
              (if n < 24 then [0x80 + n]
               else if n < 0x100 then [0x98, n]
               else if n < 0x1_0000 then [0x99, n / 0x100, n % 256]
               else [0x9A, n / 0x100_0000, n / 0x1_0000 % 256, n / 0x100 % 256, n % 256])
              + Elements(write, xs).value)
  {
    HeadBytes(4, |xs|);
  }

  /** The elements of an array stand one after another: element k right after the first k. */
  lemma {:induction false} ElementsInOrder<T>(write: T -> Option<Bytes>, xs: seq<T>, k: nat)
    requires k < |xs| && Elements(write, xs).Some?
    ensures Elements(write, []) == Some([])
    ensures write(xs[k]).Some? && Elements(write, xs[..k]).Some? && Elements(write, xs[k + 1..]).Some?
    ensures Elements(write, xs).value
            == Elements(write, xs[..k]).value + write(xs[k]).value + Elements(write, xs[k + 1..]).value
  {
    if k == 0 {
      assert xs[..0] == [];
    } else {
      ElementsInOrder(write, xs[1..], k - 1);
      assert xs[1..][..k - 1] == xs[..k][1..] && xs[1..][k - 1] == xs[k] && xs[1..][k..] == xs[k + 1..];
      assert xs[..k][0] == xs[0];
      var first, mid := write(xs[0]).value, Elements(write, xs[..k][1..]).value;
      var it, rest := write(xs[k]).value, Elements(write, xs[k + 1..]).value;
      assert first + (mid + it + rest) == (first + mid) + it + rest;
    }
  }
}
