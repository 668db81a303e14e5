/** The CRC-8 of packet_header.c: the register it computes with, and what that register
    means as polynomial division over GF(2). */
module Crc8 {
  import opened Bytes

  /** x^2 + x + 1; the leading x^8 of the generator is implied by the shift. */
  const CRC8_POLYNOMIAL: Octet := Zeros(5) + [true, true, true]

  /** One pass of the bit loop: a one leaving the top feeds the polynomial back. */
  function Step(crc: Octet, polynomial: Octet): Octet {
    if crc[0] then Xor(ShiftLeft(crc), polynomial) else ShiftLeft(crc)
  }

  function Steps(crc: Octet, polynomial: Octet, n: nat): Octet {
    if n == 0 then crc else Step(Steps(crc, polynomial, n - 1), polynomial)
  }

  /** The same pass for this generator, bit by bit. */
  function Shift(crc: Octet): Octet {
    seq(8, j requires 0 <= j < 8 => (j < 7 && crc[j + 1]) != (j >= 5 && crc[0]))
  }

  function Shifts(crc: Octet, n: nat): Octet {
    if n == 0 then crc else Shift(Shifts(crc, n - 1))
  }

  lemma {:induction false} StepsAreShifts(crc: Octet, n: nat)
    ensures Steps(crc, CRC8_POLYNOMIAL, n) == Shifts(crc, n)
  {
    if n > 0 {
      StepsAreShifts(crc, n - 1);
      var r := Shifts(crc, n - 1);
      assert Step(r, CRC8_POLYNOMIAL) == Shift(r);
    }
  }

  /** The register after a message, byte by byte. */
  function Register(msg: seq<Byte>): Octet {
    if msg == [] then Zeros(8)
    else Shifts(Xor(Register(msg[..|msg| - 1]), Bits(msg[|msg| - 1])), 8)
  }

  /** The checksum of a message. */
  function Crc(msg: seq<Byte>): (crc: Byte) {
    ByteOf(Register(msg))
  }

  /** The register with one more bit added at the top. */
  function AddTop(crc: Octet, bit: bool): Octet {
    crc[0 := crc[0] != bit]
  }

  /** The bit-serial register: each bit is added at the top, then the register shifts. */
  function Serial(crc: Octet, bits: seq<bool>): Octet {
    if bits == [] then crc
    else Shift(AddTop(Serial(crc, bits[..|bits| - 1]), bits[|bits| - 1]))
  }

  // ---- The table form and the bit-serial form agree ----

  lemma ShiftLinear(a: Octet, b: Octet)
    ensures Shift(Xor(a, b)) == Xor(Shift(a), Shift(b))
  {
  }

  lemma {:induction false} ShiftsLinear(a: Octet, b: Octet, n: nat)
    ensures Shifts(Xor(a, b), n) == Xor(Shifts(a, n), Shifts(b, n))
  {
    if n > 0 {
      ShiftsLinear(a, b, n - 1);
      ShiftLinear(Shifts(a, n - 1), Shifts(b, n - 1));
    }
  }

  lemma XorZero(a: Octet, b: Octet)
    ensures Xor(a, b) == Zeros(8) <==> a == b
  {
    if Xor(a, b) == Zeros(8) {
      forall i | 0 <= i < 8
        ensures a[i] == b[i]
      {
        assert !Xor(a, b)[i];
      }
    }
  }

  function Unit(i: nat): Octet
    requires i < 8
  {
    seq(8, j => i == j)
  }

  /** The first n bits of b, the rest zero. */
  function Head(b: Octet, n: nat): Octet
    requires n <= 8
  {
    seq(8, j requires 0 <= j < 8 => j < n && b[j])
  }

  lemma {:induction false} UnitShifts(i: nat, n: nat)
    requires n <= i < 8
    ensures Shifts(Unit(i), n) == Unit(i - n)
  {
    if n > 0 {
      UnitShifts(i, n - 1);
      assert ShiftLeft(Unit(i - n + 1)) == Unit(i - n);
    }
  }

  lemma {:induction false} ZerosStay(n: nat)
    ensures Shifts(Zeros(8), n) == Zeros(8)
  {
    if n > 0 {
      ZerosStay(n - 1);
      assert ShiftLeft(Zeros(8)) == Zeros(8);
    }
  }

  /** A single bit, when set, sits at position i. */
  function SingleBit(bit: bool, i: nat): Octet
    requires i < 8
  {
    if bit then Unit(i) else Zeros(8)
  }

  lemma AddTopIsXor(r: Octet, bit: bool)
    ensures AddTop(r, bit) == Xor(r, SingleBit(bit, 0))
  {
  }

  lemma HeadGrows(s: Octet, b: Octet, n: nat)
    requires n < 8
    ensures Xor(s, Head(b, n + 1)) == Xor(Xor(s, Head(b, n)), SingleBit(b[n], n))
  {
  }

  /** Feeding up to eight bits one at a time is adding them all, then shifting. */
  lemma {:induction false} SerialHead(s: Octet, b: Octet, n: nat)
    requires n <= 8
    ensures Serial(s, b[..n]) == Shifts(Xor(s, Head(b, n)), n)
  {
    if n == 0 {
      assert Xor(s, Head(b, 0)) == s;
    } else {
      var m := n - 1;
      SerialHead(s, b, m);
      assert b[..n][..m] == b[..m];
      AddTopIsXor(Serial(s, b[..m]), b[m]);
      HeadGrows(s, b, m);
      UnitShifts(m, m);
      ZerosStay(m);
      ShiftsLinear(Xor(s, Head(b, m)), SingleBit(b[m], m), m);
    }
  }

  lemma SerialByte(s: Octet, b: Byte)
    ensures Serial(s, BitsOf([b])) == Shifts(Xor(s, Bits(b)), 8)
  {
    BitsOfOne(b);
    SerialHead(s, Bits(b), 8);
    assert Bits(b)[..8] == Bits(b) && Head(Bits(b), 8) == Bits(b);
  }

  lemma {:induction false} SerialConcat(s: Octet, a: seq<bool>, b: seq<bool>)
    ensures Serial(s, a + b) == Serial(Serial(s, a), b)
  {
    if b == [] {
      assert a + b == a;
    } else {
      SerialConcat(s, a, b[..|b| - 1]);
      assert (a + b)[..|a + b| - 1] == a + b[..|b| - 1];
    }
  }

  /** The register, byte by byte, is the bit-serial register run over the message's bits. */
  lemma {:induction false} CrcIsSerial(msg: seq<Byte>)
    ensures Bits(Crc(msg)) == Register(msg) == Serial(Zeros(8), BitsOf(msg))
  {
    if msg == [] {
      assert BitsOf(msg) == [];
    } else {
      var front, last := msg[..|msg| - 1], msg[|msg| - 1];
      CrcIsSerial(front);
      assert msg == front + [last];
      BitsOfConcat(front, [last]);
      SerialConcat(Zeros(8), BitsOf(front), BitsOf([last]));
      SerialByte(Register(front), last);
    }
  }

  /** Two messages have the same checksum exactly when their bits leave the same register; what
      follows about registers is about checksums. */
  lemma SameCrcIff(a: seq<Byte>, b: seq<Byte>)
    ensures Crc(a) == Crc(b) <==> Serial(Zeros(8), BitsOf(a)) == Serial(Zeros(8), BitsOf(b))
  {
    CrcIsSerial(a);
    CrcIsSerial(b);
    if Register(a) == Register(b) {
      BitsInjective(Crc(a), Crc(b));
    }
  }

  /** A message followed by its checksum leaves the register at zero, and no other
      checksum byte does. */
  lemma CodewordIffCrc(msg: seq<Byte>, c: Byte)
    ensures Serial(Zeros(8), BitsOf(msg + [c])) == Zeros(8) <==> c == Crc(msg)
  {
    BitsOfConcat(msg, [c]);
    SerialConcat(Zeros(8), BitsOf(msg), BitsOf([c]));
    CrcIsSerial(msg);
    SerialByte(Register(msg), c);
    XorZero(Register(msg), Bits(c));
    ZerosStay(8);
    if Register(msg) == Bits(c) {
      BitsInjective(c, Crc(msg));
    } else {
      NonzeroStays(Xor(Register(msg), Bits(c)), 8);
    }
  }

  // ---- Linearity and error detection ----

  lemma {:induction false} SerialLinear(s: Octet, t: Octet, a: seq<bool>, b: seq<bool>)
    requires |a| == |b|
    ensures Serial(Xor(s, t), Xor(a, b)) == Xor(Serial(s, a), Serial(t, b))
  {
    if a != [] {
      var n := |a| - 1;
      SerialLinear(s, t, a[..n], b[..n]);
      assert Xor(a, b)[..n] == Xor(a[..n], b[..n]);
      var u, v := Serial(s, a[..n]), Serial(t, b[..n]);
      assert AddTop(Xor(u, v), Xor(a, b)[n]) == Xor(AddTop(u, a[n]), AddTop(v, b[n]));
      ShiftLinear(AddTop(u, a[n]), AddTop(v, b[n]));
    }
  }

  function XorBytes(a: seq<Byte>, b: seq<Byte>): (r: seq<Byte>)
    requires |a| == |b|
    ensures |r| == |a| && forall i | 0 <= i < |a| :: r[i] == ByteXor(a[i], b[i])
  {
    seq(|a|, i requires 0 <= i < |a| => ByteXor(a[i], b[i]))
  }

  lemma BitsOfXor(a: seq<Byte>, b: seq<Byte>)
    requires |a| == |b|
    ensures BitsOf(XorBytes(a, b)) == Xor(BitsOf(a), BitsOf(b))
  {
  }

  /** The checksum of the exclusive or of two messages is that of their checksums. */
  lemma CrcLinear(a: seq<Byte>, b: seq<Byte>)
    requires |a| == |b|
    ensures Crc(XorBytes(a, b)) == ByteXor(Crc(a), Crc(b))
  {
    CrcIsSerial(a);
    CrcIsSerial(b);
    CrcIsSerial(XorBytes(a, b));
    BitsOfXor(a, b);
    SerialLinear(Zeros(8), Zeros(8), BitsOf(a), BitsOf(b));
    assert Xor(Zeros(8), Zeros(8)) == Zeros(8);
    BitsInjective(Crc(XorBytes(a, b)), ByteXor(Crc(a), Crc(b)));
  }

  /** An error pattern is missed exactly when it drives the register back to zero. */
  lemma {:induction false} UndetectedIffSyndromeZero(a: seq<bool>, b: seq<bool>)
    requires |a| == |b|
    ensures Serial(Zeros(8), a) == Serial(Zeros(8), b) <==> Serial(Zeros(8), Xor(a, b)) == Zeros(8)
  {
    SerialLinear(Zeros(8), Zeros(8), a, b);
    assert Xor(Zeros(8), Zeros(8)) == Zeros(8);
    XorZero(Serial(Zeros(8), a), Serial(Zeros(8), b));
  }

  lemma ShiftInjectiveAtZero(s: Octet)
    requires Shift(s) == Zeros(8)
    ensures s == Zeros(8)
  {
    var r := Shift(s);
    assert !r[7];
    assert !s[0];
    forall i | 0 <= i < 8
      ensures !s[i]
    {
      if i > 0 {
        assert !r[i - 1];
      }
    }
  }

  lemma {:induction false} NonzeroStays(s: Octet, n: nat)
    requires s != Zeros(8)
    ensures Shifts(s, n) != Zeros(8)
  {
    if n > 0 {
      NonzeroStays(s, n - 1);
      if Shifts(s, n) == Zeros(8) {
        ShiftInjectiveAtZero(Shifts(s, n - 1));
      }
    }
  }

  lemma {:induction false} SerialZeros(s: Octet, n: nat)
    ensures Serial(s, Zeros(n)) == Shifts(s, n)
  {
    if n > 0 {
      SerialZeros(s, n - 1);
      assert Zeros(n)[..n - 1] == Zeros(n - 1);
      var r := Shifts(s, n - 1);
      assert AddTop(r, false) == r;
    }
  }

  /** A nonzero pattern of at most eight bits, zeros around it, is never missed. */
  lemma {:induction false} BurstSyndrome(before: nat, burst: seq<bool>, after: nat)
    requires |burst| <= 8 && true in burst
    ensures Serial(Zeros(8), Zeros(before) + burst + Zeros(after)) != Zeros(8)
  {
    SerialConcat(Zeros(8), Zeros(before) + burst, Zeros(after));
    SerialConcat(Zeros(8), Zeros(before), burst);
    SerialZeros(Zeros(8), before);
    ZerosStay(before);
    var b: Octet := burst + Zeros(8 - |burst|);
    SerialHead(Zeros(8), b, |burst|);
    assert b[..|burst|] == burst;
    var h := Xor(Zeros(8), Head(b, |burst|));
    var k :| 0 <= k < |burst| && burst[k];
    assert h[k] && !Zeros(8)[k];
    NonzeroStays(h, |burst|);
    SerialZeros(Serial(Zeros(8), burst), after);
    NonzeroStays(Serial(Zeros(8), burst), after);
  }

  /** Two different bit strings whose differences lie within eight consecutive positions,
      anywhere, leave different registers. */
  lemma {:induction false} BurstDetected(a: seq<bool>, b: seq<bool>, from: nat)
    requires |a| == |b| && a != b
    requires forall k | 0 <= k < |a| && a[k] != b[k] :: from <= k < from + 8
    ensures Serial(Zeros(8), a) != Serial(Zeros(8), b)
  {
    hide Serial;
    var k :| 0 <= k < |a| && a[k] != b[k];
    var end := if from + 8 <= |a| then from + 8 else |a|;
    var burst := Xor(a, b)[from..end];
    assert burst[k - from];
    BurstIsolated(a, b, from, end);
    BurstSyndrome(from, burst, |a| - end);
    UndetectedIffSyndromeZero(a, b);
  }

  lemma BurstIsolated(a: seq<bool>, b: seq<bool>, from: nat, end: nat)
    requires |a| == |b| && from <= end <= |a|
    requires forall k | 0 <= k < |a| && a[k] != b[k] :: from <= k < end
    ensures Xor(a, b) == Zeros(from) + Xor(a, b)[from..end] + Zeros(|a| - end)
  {
  }

  // ---- Parity: x + 1 divides the generator ----

  /** The exclusive or of all bits. */
  function Parity(bits: seq<bool>): bool {
    if bits == [] then false else Parity(bits[..|bits| - 1]) != bits[|bits| - 1]
  }

  lemma {:induction false} ParityCounts(bits: seq<bool>)
    ensures Parity(bits) <==> Ones(bits) % 2 == 1
  {
    if bits != [] {
      ParityCounts(bits[..|bits| - 1]);
    }
  }

  lemma {:induction false} ParityXor(a: seq<bool>, b: seq<bool>)
    requires |a| == |b|
    ensures Parity(Xor(a, b)) == (Parity(a) != Parity(b))
  {
    if a != [] {
      var n := |a| - 1;
      ParityXor(a[..n], b[..n]);
      assert Xor(a, b)[..n] == Xor(a[..n], b[..n]);
    }
  }

  lemma {:induction false} ParityConcat(a: seq<bool>, b: seq<bool>)
    ensures Parity(a + b) == (Parity(a) != Parity(b))
  {
    if b == [] {
      assert a + b == a;
    } else {
      ParityConcat(a, b[..|b| - 1]);
      assert (a + b)[..|a + b| - 1] == a + b[..|b| - 1];
    }
  }

  lemma {:induction false} ParityZeros(n: nat)
    ensures !Parity(Zeros(n))
  {
    if n > 0 {
      ParityZeros(n - 1);
      assert Zeros(n)[..n - 1] == Zeros(n - 1);
    }
  }

  lemma ShiftParity(s: Octet)
    ensures Parity(Shift(s)) == Parity(s)
  {
    var feedback := if s[0] then CRC8_POLYNOMIAL else Zeros(8);
    assert Shift(s) == Xor(ShiftLeft(s), feedback);
    ParityXor(ShiftLeft(s), feedback);
    assert s == s[..1] + s[1..];
    ParityConcat(s[..1], s[1..]);
    ParityConcat(s[1..], [false]);
    ParityConcat(Zeros(5), [true, true, true]);
    ParityZeros(5);
    ParityZeros(8);
    assert Parity([true, true, true]);
    assert Parity(s[..1]) == s[0];
  }

  lemma {:induction false} SerialParity(s: Octet, bits: seq<bool>)
    ensures Parity(Serial(s, bits)) == (Parity(s) != Parity(bits))
  {
    if bits != [] {
      var n := |bits| - 1;
      SerialParity(s, bits[..n]);
      var r := Serial(s, bits[..n]);
      var fed := AddTop(r, bits[n]);
      assert r == [r[0]] + r[1..] && fed == [fed[0]] + r[1..];
      ParityConcat([r[0]], r[1..]);
      ParityConcat([fed[0]], r[1..]);
      ShiftParity(fed);
    }
  }

  /** The exclusive or of the checksum's bits is that of all message bits. */
  lemma CrcKeepsParity(msg: seq<Byte>)
    ensures Parity(Bits(Crc(msg))) == Parity(BitsOf(msg))
  {
    CrcIsSerial(msg);
    SerialParity(Zeros(8), BitsOf(msg));
    ParityZeros(8);
  }

  /** Any odd number of flipped bits is detected. */
  lemma {:induction false} OddFlipsDetected(a: seq<bool>, b: seq<bool>)
    requires |a| == |b| && Ones(Xor(a, b)) % 2 == 1
    ensures Serial(Zeros(8), a) != Serial(Zeros(8), b)
  {
    ParityCounts(Xor(a, b));
    ParityXor(a, b);
    SerialParity(Zeros(8), a);
    SerialParity(Zeros(8), b);
  }

  // ---- Two flipped bits: the order of x modulo the generator is 127 ----

  /** x^n modulo the generator. */
  function Power(n: nat): Octet {
    Shifts(Unit(7), n)
  }

  lemma {:induction false} ShiftsAdd(s: Octet, m: nat, n: nat)
    ensures Shifts(Shifts(s, m), n) == Shifts(s, m + n)
  {
    if n > 0 {
      ShiftsAdd(s, m, n - 1);
    }
  }

  function Xor3(a: Octet, b: Octet, c: Octet): Octet {
    seq(8, i requires 0 <= i < 8 => a[i] != (b[i] != c[i]))
  }

  lemma ShiftXor3(a: Octet, b: Octet, c: Octet)
    ensures Shift(Xor3(a, b, c)) == Xor3(Shift(a), Shift(b), Shift(c))
  {
  }

  /** x^8 = x^2 + x + 1. */
  lemma {:induction false} Reduce8(k: nat)
    ensures Power(k + 8) == Xor3(Power(k + 2), Power(k + 1), Power(k))
  {
    if k == 0 {
      UnitShifts(7, 7);
      UnitShifts(7, 2);
      UnitShifts(7, 1);
      assert Power(8) == Shift(Unit(0));
      assert Shift(Unit(0)) == Xor3(Unit(5), Unit(6), Unit(7));
    } else {
      Reduce8(k - 1);
      ShiftXor3(Power(k + 1), Power(k), Power(k - 1));
    }
  }

  // Pairs cancel when sums of powers are added up: w stands for the powers of x.
  lemma Cancel(w0: Octet, w1: Octet, w2: Octet, w3: Octet, w4: Octet, w5: Octet, w6: Octet)
    ensures Xor3(Xor3(w4, w3, w2), Xor3(w3, w2, w1), Xor3(w2, w1, w0)) == Xor3(w4, w2, w0)
    ensures Xor3(Xor3(Xor3(w2, w1, w0), w6, w4), Xor3(w6, w4, w2), Xor3(w4, w2, w0)) == Xor3(w4, w2, w1)
    ensures Xor3(Xor3(Xor3(w2, w1, w0), w6, w5), Xor3(w6, w4, w3), Xor3(w5, w3, w2)) == Xor3(w4, w1, w0)
    ensures Xor3(Xor3(Xor3(w2, w1, w0), w5, w4), Xor3(w5, w2, w1), Xor3(w4, w1, w0)) == w1
  {
  }

  /** x^16 = x^4 + x^2 + 1: squaring x^8. */
  lemma Reduce16(k: nat)
    ensures Power(k + 16) == Xor3(Power(k + 4), Power(k + 2), Power(k))
  {
    Reduce8(k + 8);
    Reduce8(k + 2);
    Reduce8(k + 1);
    Reduce8(k);
    Cancel(Power(k), Power(k + 1), Power(k + 2), Power(k + 3), Power(k + 4), Power(k + 5), Power(k + 6));
  }

  /** x^32 = x^4 + x^2 + x. */
  lemma Reduce32(k: nat)
    ensures Power(k + 32) == Xor3(Power(k + 4), Power(k + 2), Power(k + 1))
  {
    Reduce16(k + 16);
    Reduce16(k + 4);
    Reduce16(k + 2);
    Reduce16(k);
    Reduce8(k);
    Cancel(Power(k), Power(k + 1), Power(k + 2), Power(k + 3), Power(k + 4), Power(k + 5), Power(k + 6));
  }

  /** x^64 = x^4 + x + 1. */
  lemma Reduce64(k: nat)
    ensures Power(k + 64) == Xor3(Power(k + 4), Power(k + 1), Power(k))
  {
    Reduce32(k + 32);
    Reduce32(k + 4);
    Reduce32(k + 2);
    Reduce32(k + 1);
    Reduce8(k);
    Cancel(Power(k), Power(k + 1), Power(k + 2), Power(k + 3), Power(k + 4), Power(k + 5), Power(k + 6));
  }

  /** x^128 = x. */
  lemma Reduce128(k: nat)
    ensures Power(k + 128) == Power(k + 1)
  {
    Reduce64(k + 64);
    Reduce64(k + 4);
    Reduce64(k + 1);
    Reduce64(k);
    Reduce8(k);
    Cancel(Power(k), Power(k + 1), Power(k + 2), Power(k + 3), Power(k + 4), Power(k + 5), Power(k + 6));
  }

  /** d shifts bring a one at the top back to the top. */
  predicate Returns(d: nat) {
    Shifts(Unit(0), d) == Unit(0)
  }

  lemma {:induction false} Returns127()
    ensures Returns(127)
  {
    UnitShifts(7, 7);
    ShiftsAdd(Unit(7), 7, 127);
    Reduce128(6);
  }

  lemma ReturnsDifference(m: nat, n: nat)
    requires n <= m && Returns(n)
    ensures Returns(m) <==> Returns(m - n)
  {
    ShiftsAdd(Unit(0), n, m - n);
  }

  /** Remainder by repeated subtraction. */
  function Rest(m: nat, n: nat): (r: nat)
    requires 0 < n
    ensures r < n
  {
    if m < n then m else Rest(m - n, n)
  }

  lemma {:induction false} ReturnsRest(m: nat, n: nat) returns (q: nat)
    requires 0 < n && Returns(n)
    ensures Returns(m) <==> Returns(Rest(m, n))
    ensures m == q * n + Rest(m, n)
  {
    if m < n {
      q := 0;
    } else {
      ReturnsDifference(m, n);
      q := ReturnsRest(m - n, n);
      q := q + 1;
    }
  }

  lemma {:induction false} Rest127(m: nat)
    ensures Rest(m, 127) == m % 127
  {
    if m >= 127 {
      Rest127(m - 127);
    }
  }

  lemma Prime127(q: nat, d: nat)
    requires 1 < d < 127
    ensures q * d != 127
  {
  }

  /** Euclid's algorithm against the prime 127 would bring any shorter period down to 1. */
  lemma {:induction false} NoShorterPeriod(d: nat)
    requires 0 < d < 127
    ensures !Returns(d)
  {
    if d == 1 {
      assert !Shifts(Unit(0), 1)[0];
    } else if Returns(d) {
      Returns127();
      var q := ReturnsRest(127, d);
      Prime127(q, d);
      NoShorterPeriod(Rest(127, d));
    }
  }

  lemma ReturnsIff(d: nat)
    ensures Returns(d) <==> d % 127 == 0
  {
    Returns127();
    Rest127(d);
    var _ := ReturnsRest(d, 127);
    if d % 127 != 0 {
      NoShorterPeriod(d % 127);
    }
  }

  /** The error pattern with one flipped bit, at position i of n. */
  function Flip(n: nat, i: nat): (e: seq<bool>)
    ensures |e| == n && forall k | 0 <= k < n :: e[k] == (k == i)
  {
    seq(n, k => k == i)
  }

  lemma {:induction false} FlipSyndrome(n: nat, i: nat)
    requires i < n
    ensures Serial(Zeros(8), Flip(n, i)) == Shifts(Unit(0), n - i)
  {
    var e := Flip(n, i);
    if i == n - 1 {
      assert e[..n - 1] == Zeros(n - 1);
      SerialZeros(Zeros(8), n - 1);
      ZerosStay(n - 1);
      assert AddTop(Zeros(8), true) == Unit(0);
      assert Shifts(Unit(0), 1) == Shift(Shifts(Unit(0), 0));
    } else {
      FlipSyndrome(n - 1, i);
      assert e[..n - 1] == Flip(n - 1, i);
      var r := Serial(Zeros(8), e[..n - 1]);
      assert AddTop(r, false) == r;
    }
  }

  lemma TwoFlipSyndromes(n: nat, i: nat, j: nat)
    requires i < j < n
    ensures Serial(Zeros(8), Flip(n, i)) == Serial(Zeros(8), Flip(n, j)) <==> (j - i) % 127 == 0
  {
    FlipSyndrome(n, i);
    FlipSyndrome(n, j);
    ShiftsAdd(Unit(0), j - i, n - j);
    ShiftsInjective(Shifts(Unit(0), j - i), Unit(0), n - j);
    ReturnsIff(j - i);
  }

  lemma TwoFlipsXor(a: seq<bool>, b: seq<bool>, i: nat, j: nat)
    requires |a| == |b| && i < j < |a|
    requires forall k | 0 <= k < |a| :: (a[k] != b[k]) == (k == i || k == j)
    ensures Xor(a, b) == Xor(Flip(|a|, i), Flip(|a|, j))
  {
  }

  /** Two flipped bits go undetected exactly when their distance is a multiple of 127. */
  lemma {:induction false} TwoFlipsDetected(a: seq<bool>, b: seq<bool>, i: nat, j: nat)
    requires |a| == |b| && i < j < |a|
    requires forall k | 0 <= k < |a| :: (a[k] != b[k]) == (k == i || k == j)
    ensures Serial(Zeros(8), a) == Serial(Zeros(8), b) <==> (j - i) % 127 == 0
  {
    TwoFlipsXor(a, b, i, j);
    UndetectedIffSyndromeZero(a, b);
    UndetectedIffSyndromeZero(Flip(|a|, i), Flip(|a|, j));
    TwoFlipSyndromes(|a|, i, j);
  }

  lemma ShiftsInjective(s: Octet, t: Octet, n: nat)
    ensures Shifts(s, n) == Shifts(t, n) <==> s == t
  {
    XorZero(s, t);
    XorZero(Shifts(s, n), Shifts(t, n));
    ShiftsLinear(s, t, n);
    if s != t {
      NonzeroStays(Xor(s, t), n);
    }
  }
}
