/** The line code: what transmitByte puts into the transmission buffer. */
module Manchester {
  import opened Bytes

  /** The half-bits of a bit string: each bit's complement, then the bit. */
  function Line(bits: seq<bool>): (s: seq<bool>)
    ensures |s| == 2 * |bits|
  {
    seq(2 * |bits|, k requires 0 <= k < 2 * |bits| => bits[k / 2] != (k % 2 == 0))
  }

  lemma LinePair(bits: seq<bool>, j: nat)
    requires j < |bits|
    ensures Line(bits)[2 * j] == !bits[j] && Line(bits)[2 * j + 1] == bits[j]
  {
    assert (2 * j + 1) / 2 == j;
  }

  /** The two bytes of the symbol of b, first byte first. */
  function Half(b: Byte, second: bool): Byte {
    ByteOf(if second then Line(Bits(b))[8..] else Line(Bits(b))[..8])
  }

  /** A byte string as the transmission buffer holds it. */
  function Encoded(bs: seq<Byte>): (e: seq<Byte>)
    ensures |e| == 2 * |bs|
  {
    seq(2 * |bs|, k requires 0 <= k < 2 * |bs| => Half(bs[k / 2], k % 2 == 1))
  }

  lemma EncodedSnoc(bs: seq<Byte>, b: Byte)
    ensures Encoded(bs + [b]) == Encoded(bs) + [Half(b, false)] + [Half(b, true)]
  {
  }

  lemma LineConcat(a: seq<bool>, b: seq<bool>)
    ensures Line(a + b) == Line(a) + Line(b)
  {
  }

  lemma SymbolBits(b: Byte)
    ensures BitsOf([Half(b, false)] + [Half(b, true)]) == Line(Bits(b))
  {
    BitsOfConcat([Half(b, false)], [Half(b, true)]);
    BitsOfOne(Half(b, false));
    BitsOfOne(Half(b, true));
  }

  /** The bits of the buffer, in sending order, are the half-bits of the message's bits. */
  lemma {:induction false} EncodedBits(bs: seq<Byte>)
    ensures BitsOf(Encoded(bs)) == Line(BitsOf(bs))
  {
    if bs != [] {
      var front, last := bs[..|bs| - 1], bs[|bs| - 1];
      assert bs == front + [last];
      EncodedBits(front);
      EncodedSnoc(front, last);
      assert Encoded(bs) == Encoded(front) + ([Half(last, false)] + [Half(last, true)]);
      BitsOfConcat(Encoded(front), [Half(last, false)] + [Half(last, true)]);
      SymbolBits(last);
      BitsOfConcat(front, [last]);
      BitsOfOne(last);
      LineConcat(BitsOf(front), Bits(last));
    }
  }

  /** A stream of half-bits is some message's stream exactly when every pair differs. */
  lemma LineIffPairsDiffer(s: seq<bool>)
    ensures (exists bits :: Line(bits) == s) <==>
            |s| % 2 == 0 && forall k | 0 <= k < |s| / 2 :: s[2 * k] != s[2 * k + 1]
  {
    if exists bits :: Line(bits) == s {
      var bits :| Line(bits) == s;
      forall k | 0 <= k < |s| / 2
        ensures s[2 * k] != s[2 * k + 1]
      {
        LinePair(bits, k);
      }
    }
    if |s| % 2 == 0 && forall k | 0 <= k < |s| / 2 :: s[2 * k] != s[2 * k + 1] {
      var bits := seq(|s| / 2, k requires 0 <= k < |s| / 2 => s[2 * k + 1]);
      forall k | 0 <= k < |s|
        ensures Line(bits)[k] == s[k]
      {
        var h := k / 2;
        assert s[2 * h] != s[2 * h + 1];
        assert k == 2 * h || k == 2 * h + 1;
      }
      assert Line(bits) == s;
    }
  }

  /** The line never holds one level for more than two half-bits, even across bytes. */
  lemma ShortRuns(bits: seq<bool>, k: nat)
    requires k + 2 < |Line(bits)|
    ensures !(Line(bits)[k] == Line(bits)[k + 1] == Line(bits)[k + 2])
  {
    if k % 2 == 0 {
      assert (k + 1) / 2 == k / 2;
    } else {
      assert (k + 2) / 2 == (k + 1) / 2;
    }
  }

  /** The line is high for exactly half of the half-bits. */
  lemma {:induction false} Balanced(bits: seq<bool>)
    ensures 2 * Ones(Line(bits)) == |Line(bits)|
  {
    if bits != [] {
      var n := |bits| - 1;
      Balanced(bits[..n]);
      LineSnoc(bits);
      OnesSnoc(Line(bits[..n]), !bits[n]);
      OnesSnoc(Line(bits[..n]) + [!bits[n]], bits[n]);
    }
  }

  lemma LineSnoc(bits: seq<bool>)
    requires bits != []
    ensures var n := |bits| - 1; Line(bits) == Line(bits[..n]) + [!bits[n]] + [bits[n]]
  {
  }

  lemma OnesSnoc(s: seq<bool>, b: bool)
    ensures Ones(s + [b]) == Ones(s) + if b then 1 else 0
  {
    assert (s + [b])[..|s|] == s;
  }

  lemma LineInjective(a: seq<bool>, b: seq<bool>)
    requires Line(a) == Line(b)
    ensures a == b
  {
    forall k | 0 <= k < |a|
      ensures a[k] == b[k]
    {
      LinePair(a, k);
      LinePair(b, k);
    }
  }

  /** Run length, balance and unique decoding for the stream of any message. */
  lemma {:induction false} StreamProperties(bs: seq<Byte>, other: seq<Byte>)
    ensures forall k | 0 <= k < 16 * |bs| - 2 ::
              var s := BitsOf(Encoded(bs)); !(s[k] == s[k + 1] == s[k + 2])
    ensures Ones(BitsOf(Encoded(bs))) == 8 * |bs|
    ensures Encoded(bs) == Encoded(other) ==> bs == other
  {
    EncodedBits(bs);
    EncodedBits(other);
    Balanced(BitsOf(bs));
    forall k | 0 <= k < 16 * |bs| - 2
      ensures var s := BitsOf(Encoded(bs)); !(s[k] == s[k + 1] == s[k + 2])
    {
      ShortRuns(BitsOf(bs), k);
    }
    if Encoded(bs) == Encoded(other) {
      LineInjective(BitsOf(bs), BitsOf(other));
      BitsOfInjective(bs, other);
    }
  }

  /** The symbol of a byte; bit i of the C uint16_t is index 15 - i. */
  method EncodeManchester(data: Byte) returns (output: seq<bool>)
    ensures output == Line(Bits(data))
  {
    hide Line, Word;
    output := Zeros(16);
    for i := 0 to 8
      invariant |output| == 16
      invariant forall k | 0 <= k < 16 - 2 * i :: !output[k]
      invariant forall k | 16 - 2 * i <= k < 16 :: output[k] == Line(Bits(data))[k]
    {
      var bit := Bits(data)[7 - i];
      LinePair(Bits(data), 7 - i);
      output := output[15 - 2 * i := output[15 - 2 * i] || (false != bit)];
      output := output[14 - 2 * i := output[14 - 2 * i] || (true != bit)];
    }
  }
}
