/** Bytes, and the bits the line carries them as: most significant bit first. */
module Bytes {

  /** uint8_t. */
  type Byte = b: int | 0 <= b < 256

  /** Eight bits; index i is the C expression `(b >> (7 - i)) & 1`. */
  type Octet = o: seq<bool> | |o| == 8 witness Zeros(8)

  function Zeros(n: nat): (z: seq<bool>)
    ensures |z| == n && forall i | 0 <= i < n :: !z[i]
  {
    seq(n, _ => false)
  }

  /** C's `a ^ b`, on words of any equal width. */
  function Xor(a: seq<bool>, b: seq<bool>): (r: seq<bool>)
    requires |a| == |b|
    ensures |r| == |a| && forall i | 0 <= i < |a| :: r[i] == (a[i] != b[i])
  {
    seq(|a|, i requires 0 <= i < |a| => a[i] != b[i])
  }

  /** C's `b << 1`, truncated to eight bits. */
  function ShiftLeft(b: Octet): (r: Octet)
    ensures !r[7] && forall i | 0 <= i < 7 :: r[i] == b[i + 1]
  {
    b[1..] + [false]
  }

  /** The number a word stands for. */
  function Value(bits: seq<bool>): nat {
    if |bits| == 0 then 0
    else 2 * Value(bits[..|bits| - 1]) + if bits[|bits| - 1] then 1 else 0
  }

  /** The low `width` bits of n: C's conversion to an unsigned type. */
  function Word(n: nat, width: nat): (w: seq<bool>)
    ensures |w| == width
  {
    if width == 0 then [] else Word(n / 2, width - 1) + [n % 2 == 1]
  }

  function Bits(b: Byte): (o: Octet) {
    Word(b, 8)
  }

  function Pow2(n: nat): nat {
    if n == 0 then 1 else 2 * Pow2(n - 1)
  }

  lemma {:induction false} WordOfValue(bits: seq<bool>)
    ensures Word(Value(bits), |bits|) == bits
    ensures Value(bits) < Pow2(|bits|)
  {
    if |bits| > 0 {
      WordOfValue(bits[..|bits| - 1]);
      assert bits == bits[..|bits| - 1] + [bits[|bits| - 1]];
    }
  }

  lemma {:induction false} ValueOfWord(n: nat, width: nat)
    requires n < Pow2(width)
    ensures Value(Word(n, width)) == n
  {
    if width > 0 {
      ValueOfWord(n / 2, width - 1);
      assert Word(n, width)[..width - 1] == Word(n / 2, width - 1);
    }
  }

  lemma {:induction false} WordOfZero(n: nat, width: nat)
    requires n == 0
    ensures Word(n, width) == Zeros(width)
  {
    if width > 0 {
      WordOfZero(n / 2, width - 1);
    }
  }

  /** The byte with the given bits. */
  function ByteOf(o: Octet): (b: Byte)
    ensures Bits(b) == o
  {
    WordOfValue(o);
    assert Pow2(8) == 256;
    Value(o)
  }

  /** C's `a ^ b` on bytes. */
  function ByteXor(a: Byte, b: Byte): (r: Byte)
    ensures Bits(r) == Xor(Bits(a), Bits(b))
  {
    ByteOf(Xor(Bits(a), Bits(b)))
  }

  lemma ByteOfBits(b: Byte)
    ensures ByteOf(Bits(b)) == b
  {
    assert Pow2(8) == 256;
    ValueOfWord(b, 8);
  }

  lemma BitsInjective(a: Byte, b: Byte)
    requires Bits(a) == Bits(b)
    ensures a == b
  {
    ByteOfBits(a);
    ByteOfBits(b);
  }

  /** All bits of a byte string, in the order they are sent. */
  function BitsOf(bs: seq<Byte>): (bits: seq<bool>)
    ensures |bits| == 8 * |bs|
  {
    seq(8 * |bs|, k requires 0 <= k < 8 * |bs| => Bits(bs[k / 8])[k % 8])
  }

  lemma BitsOfConcat(a: seq<Byte>, b: seq<Byte>)
    ensures BitsOf(a + b) == BitsOf(a) + BitsOf(b)
  {
  }

  lemma BitsOfOne(b: Byte)
    ensures BitsOf([b]) == Bits(b)
  {
  }

  lemma BitAt(bs: seq<Byte>, i: nat, j: nat)
    requires i < |bs| && j < 8
    ensures BitsOf(bs)[8 * i + j] == Bits(bs[i])[j]
  {
    assert (8 * i + j) / 8 == i && (8 * i + j) % 8 == j;
  }

  lemma BitsOfInjective(a: seq<Byte>, b: seq<Byte>)
    requires BitsOf(a) == BitsOf(b)
    ensures a == b
  {
    assert |a| == |b|;
    forall i | 0 <= i < |a|
      ensures a[i] == b[i]
    {
      forall j | 0 <= j < 8
        ensures Bits(a[i])[j] == Bits(b[i])[j]
      {
        BitAt(a, i, j);
        BitAt(b, i, j);
      }
      assert Bits(a[i]) == Bits(b[i]);
      BitsInjective(a[i], b[i]);
    }
  }

  /** The bytes with the given bits. */
  function BytesOf(bits: seq<bool>): (bs: seq<Byte>)
    requires |bits| % 8 == 0
    ensures |bs| == |bits| / 8
  {
    seq(|bits| / 8, i requires 0 <= i < |bits| / 8 => ByteOf(bits[8 * i..8 * i + 8]))
  }

  lemma BitsOfBytesOf(bits: seq<bool>)
    requires |bits| % 8 == 0
    ensures BitsOf(BytesOf(bits)) == bits
  {
    forall k | 0 <= k < |bits|
      ensures BitsOf(BytesOf(bits))[k] == bits[k]
    {
      var i := k / 8;
      assert Bits(BytesOf(bits)[i]) == bits[8 * i..8 * i + 8];
    }
  }

  lemma {:induction false} TopBit(n: nat, width: nat)
    requires width > 0 && n < Pow2(width)
    ensures Word(n, width)[0] <==> n >= Pow2(width - 1)
  {
    if width > 1 {
      TopBit(n / 2, width - 1);
    }
  }

  lemma FirstBit(bs: seq<Byte>)
    requires bs != []
    ensures BitsOf(bs)[0] <==> bs[0] >= 128
  {
    assert Pow2(8) == 256 && Pow2(7) == 128;
    TopBit(bs[0], 8);
    BitAt(bs, 0, 0);
  }

  /** The number of ones in a word. */
  function Ones(bits: seq<bool>): nat {
    if |bits| == 0 then 0
    else Ones(bits[..|bits| - 1]) + if bits[|bits| - 1] then 1 else 0
  }

  // ---- C strings ----

  /** The part of a buffer that printf's %s prints. */
  function CString(buf: seq<Byte>): seq<Byte> {
    if buf == [] || buf[0] == 0 then [] else [buf[0]] + CString(buf[1..])
  }

  lemma {:induction false} CStringOf(text: seq<Byte>, rest: seq<Byte>)
    requires 0 !in text
    ensures CString(text + rest) == text + CString(rest)
  {
    if text == [] {
      assert text + rest == rest;
    } else {
      CStringOf(text[1..], rest);
      assert (text + rest)[1..] == text[1..] + rest;
    }
  }

  lemma {:induction false} CStringPrefix(buf: seq<Byte>)
    ensures CString(buf) <= buf && 0 !in CString(buf)
  {
    if buf != [] && buf[0] != 0 {
      CStringPrefix(buf[1..]);
    }
  }

  lemma CStringEnds(buf: seq<Byte>)
    requires buf == [] || buf[0] == 0
    ensures CString(buf) == []
  {
  }

  /** A buffer that starts with a text prints it exactly when the text has no NUL and one follows it. */
  lemma CStringIs(text: seq<Byte>, buf: seq<Byte>)
    requires text <= buf
    ensures CString(buf) == text <==> 0 !in text && (|text| == |buf| || buf[|text|] == 0)
  {
    CStringPrefix(buf);
    assert buf == text + buf[|text|..];
    if 0 !in text {
      CStringOf(text, buf[|text|..]);
    }
  }
}
