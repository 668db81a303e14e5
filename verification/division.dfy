/** The checksum as polynomial division over GF(2). A polynomial is the sequence of its
    coefficients, highest degree first. */
module PolynomialDivision {
  import opened Bytes
  import opened Crc8

  /** x^8 + x^2 + x + 1. */
  const GENERATOR: seq<bool> := [true] + CRC8_POLYNOMIAL

  /** p + g, aligned at degree 0. */
  function AddLow(p: seq<bool>, g: seq<bool>): (r: seq<bool>)
    requires |g| <= |p|
    ensures |r| == |p|
  {
    seq(|p|, i requires 0 <= i < |p| => p[i] != (i >= |p| - |g| && g[i - (|p| - |g|)]))
  }

  /** The product q * g, by Horner's rule on q. */
  function Mul(q: seq<bool>, g: seq<bool>): (r: seq<bool>)
    requires |g| > 0
    ensures |r| == |q| + |g| - 1
  {
    if q == [] then Zeros(|g| - 1)
    else AddLow(Mul(q[..|q| - 1], g) + [false], if q[|q| - 1] then g else Zeros(|g|))
  }

  /** r is a remainder of m * x^8: m * x^8 = q * GENERATOR + r for some quotient q. */
  ghost predicate IsRemainder(m: seq<bool>, r: Octet) {
    exists q: seq<bool> :: |q| == |m| && Divides(m, q, r)
  }

  predicate Divides(m: seq<bool>, q: seq<bool>, r: Octet)
    requires |q| == |m|
  {
    Xor(Mul(q, GENERATOR), Zeros(|m|) + r) == m + Zeros(8)
  }

  /** One more bit: the bit shifted out of the register is the quotient's next coefficient. */
  lemma DivideStep(m: seq<bool>, q: seq<bool>, r: Octet, bit: bool)
    requires |q| == |m| && Divides(m, q, r)
    ensures Divides(m + [bit], q + [r[0] != bit], Shift(AddTop(r, bit)))
  {
    var n, top, r' := |m|, r[0] != bit, Shift(AddTop(r, bit));
    var p, p' := Mul(q, GENERATOR), Mul(q + [top], GENERATOR);
    assert (q + [top])[..n] == q;
    assert p' == AddLow(p + [false], if top then GENERATOR else Zeros(9));
    forall i | 0 <= i < n + 9
      ensures Xor(p', Zeros(n + 1) + r')[i] == (m + [bit] + Zeros(8))[i]
    {
      if i < n + 8 {
        assert Xor(p, Zeros(n) + r)[i] == (m + Zeros(8))[i];
      }
    }
  }

  lemma {:induction false} Divide(m: seq<bool>) returns (q: seq<bool>)
    ensures |q| == |m| && Divides(m, q, Serial(Zeros(8), m))
  {
    if m == [] {
      q := [];
      assert Xor(Mul(q, GENERATOR), Zeros(0) + Zeros(8)) == Zeros(8);
    } else {
      var n := |m| - 1;
      q := Divide(m[..n]);
      var r := Serial(Zeros(8), m[..n]);
      DivideStep(m[..n], q, r, m[n]);
      assert m[..n] + [m[n]] == m;
      q := q + [r[0] != m[n]];
    }
  }

  lemma {:induction false} MulLinear(q1: seq<bool>, q2: seq<bool>, g: seq<bool>)
    requires |q1| == |q2| && |g| > 0
    ensures Mul(Xor(q1, q2), g) == Xor(Mul(q1, g), Mul(q2, g))
  {
    if q1 == [] {
      assert Xor(Zeros(|g| - 1), Zeros(|g| - 1)) == Zeros(|g| - 1);
    } else {
      var n := |q1| - 1;
      MulLinear(q1[..n], q2[..n], g);
      assert Xor(q1, q2)[..n] == Xor(q1[..n], q2[..n]);
      MulStepLinear(Mul(q1[..n], g), Mul(q2[..n], g), q1[n], q2[n], g);
    }
  }

  lemma MulStepLinear(p1: seq<bool>, p2: seq<bool>, b1: bool, b2: bool, g: seq<bool>)
    requires |p1| == |p2| && 0 < |g| <= |p1| + 1
    ensures AddLow(Xor(p1, p2) + [false], if b1 != b2 then g else Zeros(|g|))
         == Xor(AddLow(p1 + [false], if b1 then g else Zeros(|g|)), AddLow(p2 + [false], if b2 then g else Zeros(|g|)))
  {
  }

  /** A product with a monic g keeps the leading coefficient of q. */
  lemma {:induction false} MulLeads(q: seq<bool>, g: seq<bool>, i: nat)
    requires |g| > 0 && g[0] && i < |q| && q[i] && forall k | 0 <= k < i :: !q[k]
    ensures Mul(q, g)[i]
  {
    var n := |q| - 1;
    if i == n {
      assert q[..n] == Zeros(n);
      MulZeros(n, g);
    } else {
      MulLeads(q[..n], g, i);
    }
  }

  lemma {:induction false} MulZeros(n: nat, g: seq<bool>)
    requires |g| > 0
    ensures Mul(Zeros(n), g) == Zeros(n + |g| - 1)
  {
    if n > 0 {
      MulZeros(n - 1, g);
      assert Zeros(n)[..n - 1] == Zeros(n - 1);
    }
  }

  lemma {:induction false} FirstOne(q: seq<bool>) returns (i: nat)
    requires true in q
    ensures i < |q| && q[i] && forall k | 0 <= k < i :: !q[k]
  {
    if q[0] {
      i := 0;
    } else {
      i := FirstOne(q[1..]);
      i := i + 1;
    }
  }

  lemma QuotientUnique(m: seq<bool>, q1: seq<bool>, r1: Octet, q2: seq<bool>, r2: Octet)
    requires |q1| == |m| && Divides(m, q1, r1)
    requires |q2| == |m| && Divides(m, q2, r2)
    ensures q1 == q2 && r1 == r2
  {
    var n, p1, p2 := |m|, Mul(q1, GENERATOR), Mul(q2, GENERATOR);
    forall i | 0 <= i < n + 8
      ensures (p1[i] != (Zeros(n) + r1)[i]) == (p2[i] != (Zeros(n) + r2)[i])
    {
      assert Xor(p1, Zeros(n) + r1)[i] == (m + Zeros(8))[i] == Xor(p2, Zeros(n) + r2)[i];
    }
    MulLinear(q1, q2, GENERATOR);
    var d := Xor(q1, q2);
    assert forall i | 0 <= i < n :: !Mul(d, GENERATOR)[i];
    if true in d {
      var i := FirstOne(d);
      MulLeads(d, GENERATOR, i);
    }
    forall i | 0 <= i < n
      ensures q1[i] == q2[i]
    {
      assert !d[i];
    }
    assert q1 == q2;
    forall i | 0 <= i < 8
      ensures r1[i] == r2[i]
    {
      assert (Zeros(n) + r1)[n + i] == (Zeros(n) + r2)[n + i];
    }
  }

  /** The checksum is the remainder of the message times x^8, and the only one. */
  lemma CrcIsRemainder(msg: seq<Byte>, r: Byte)
    ensures IsRemainder(BitsOf(msg), Bits(r)) <==> r == Crc(msg)
  {
    CrcIsSerial(msg);
    var m := BitsOf(msg);
    var q := Divide(m);
    if IsRemainder(m, Bits(r)) {
      var q' :| |q'| == |m| && Divides(m, q', Bits(r));
      QuotientUnique(m, q, Register(msg), q', Bits(r));
      BitsInjective(r, Crc(msg));
    }
  }
}
