/** Where decoding stops: timing outside the tolerance, and frames that meet a byte in progress. */
module Limits {
  import opened Bytes
  import opened RingBuffers
  import opened Packets
  import opened Manchester
  import opened Monitors
  import opened Receivers
  import opened Link
  import opened Deliveries
  import opened Collisions
  import opened Messages

  // ---- A byte in progress ----

  lemma {:induction false} TakeOwnBits(a: Assembly, n: nat)
    requires a.Valid() && a.currBit == 0 && n < 8
    ensures TakeAll(a, a.dataByte[..n]) == a.(currBit := n)
  {
    if n > 0 {
      TakeOwnBits(a, n - 1);
      assert a.dataByte[..n][..n - 1] == a.dataByte[..n - 1];
      assert a.dataByte[n - 1 := a.dataByte[n - 1]] == a.dataByte;
    }
  }

  /** The bits in progress come before the bits that follow, and as many are in progress afterwards. */
  lemma TakeShifted(a: Assembly, bits: seq<bool>)
    requires a.Valid() && |bits| % 8 == 0 && |a.queue| + |bits| / 8 < BUF_SIZE
    ensures var a', stream := TakeAll(a, bits), a.dataByte[..a.currBit] + bits;
            && a'.currBit == a.currBit && a'.queue == a.queue + BytesOf(stream[..|bits|])
            && a'.dataByte[..a.currBit] == stream[|bits|..]
  {
    hide TakeAll, BytesOf;
    var c, a0, stream := a.currBit, a.(currBit := 0), a.dataByte[..a.currBit] + bits;
    var whole, rest := stream[..|bits|], stream[|bits|..];
    TakeOwnBits(a0, c);
    TakeConcat(a0, a.dataByte[..c], bits);
    assert stream == whole + rest;
    TakeConcat(a0, whole, rest);
    BitsOfBytesOf(whole);
    TakeBytes(a0, BytesOf(whole));
    var o: Octet := rest + Zeros(8 - c);
    assert o[..c] == rest;
    TakeSome(TakeAll(a0, whole), o, c);
  }

  /** A station that awaits a bit in the middle of a byte: every byte of the frame is shifted by the bits
      in progress. It is decoded exactly when the shifted bits happen to be its own. */
  lemma {:induction false} ShiftedFrame(st: Station, bs: seq<Byte>, qs: seq<seq<Quiet>>)
    requires st.rx.Valid() && bs != [] && |qs| == 16 * |bs| && AllTolerable(qs)
    requires var f := After(st, Line(BitsOf(bs)), qs, Unseen(BitsOf(bs)));
             Poised(f) && |f.rx.asm.queue| + |bs| < BUF_SIZE
    ensures var f := After(st, Line(BitsOf(bs)), qs, Unseen(BitsOf(bs))).rx.asm;
            var high := Drive(After(st, Line(BitsOf(bs)), qs, 16 * |bs|), true);
            var stream := f.dataByte[..f.currBit] + Heard(BitsOf(bs));
            && Over(high) && high.rx.asm.currBit == f.currBit
            && high.rx.asm.queue == f.queue + BytesOf(stream[..8 * |bs|])
            && (high.rx.asm.queue == f.queue + bs <==> stream[..8 * |bs|] == BitsOf(bs))
  {
    hide Line, BitsOf, Drive, Hold, TakeAll, After, Heard, Busy, BytesOf, Unseen, Tolerable;
    var bits := BitsOf(bs);
    var f := After(st, Line(bits), qs, Unseen(bits));
    var whole := (f.rx.asm.dataByte[..f.rx.asm.currBit] + Heard(bits))[..8 * |bs|];
    FrameReceived(st, f, bits, qs);
    TakeShifted(f.rx.asm, Heard(bits));
    BitsOfBytesOf(whole);
    SameLengthConcat(f.rx.asm.queue, BytesOf(whole), f.rx.asm.queue, bs);
    if whole == BitsOf(bs) {
      BitsOfInjective(BytesOf(whole), bs);
    }
  }

  /** The bits 0, 1, 0, 1, ... */
  function Alternating(n: nat): (bits: seq<bool>)
    ensures |bits| == n
  {
    seq(n, i requires 0 <= i < n => i % 2 == 1)
  }

  lemma SynchBits()
    ensures Bits(0x55) == Alternating(8)
  {
    assert Word(2, 3) == Word(0, 1) + [true] + [false];
    assert Word(10, 5) == Word(2, 3) + [true] + [false];
    assert Word(42, 7) == Word(10, 5) + [true] + [false];
    assert Word(0x55, 8) == Word(42, 7) + [true];
  }

  lemma VersionBits()
    ensures Bits(0x01) == Zeros(7) + [true]
  {
    WordOfZero(0, 7);
  }

  lemma FirstBytes(bs: seq<Byte>)
    requires |bs| >= 2 && bs[0] == 0x55 && bs[1] == 0x01
    ensures var bits := BitsOf(bs);
            && (forall k | 0 <= k < 8 :: bits[k] == (k % 2 == 1))
            && (forall k | 8 <= k < 15 :: !bits[k]) && bits[15]
  {
    hide Bits;
    SynchBits();
    VersionBits();
    forall k | 0 <= k < 8
      ensures BitsOf(bs)[k] == Bits(0x55)[k] && BitsOf(bs)[8 + k] == Bits(0x01)[k]
    {
      BitAt(bs, 0, k);
      BitAt(bs, 1, k);
    }
  }

  /** No packet looks like itself when shifted. */
  lemma PacketIsNotShifted(bs: seq<Byte>, head: seq<bool>)
    requires |bs| >= 2 && bs[0] == 0x55 && bs[1] == 0x01 && |head| < 8
    ensures (head + BitsOf(bs))[..8 * |bs|] == BitsOf(bs) <==> head == []
  {
    hide BitsOf;
    var bits, c := BitsOf(bs), |head|;
    FirstBytes(bs);
    if c > 0 {
      var k := if c % 2 == 1 then c else 7 + c;
      assert (head + bits)[..8 * |bs|][k] == bits[k - c] != bits[k];
    }
    if head == [] {
      assert (head + bits)[..8 * |bs|] == bits;
    }
  }

  /** So a packet that meets a station otherwise ready is decoded exactly if and only if no byte is in
      progress at its first edge: after a torn frame without an idle pass it is lost. */
  lemma PacketNeedsByteBoundary(st: Station, m: Message, qs: seq<seq<Quiet>>)
    requires st.rx.Valid() && m.Valid() && |qs| == 16 * |m.Packet()| && AllTolerable(qs)
    requires var f := After(st, Line(BitsOf(m.Packet())), qs, Unseen(BitsOf(m.Packet())));
             Poised(f) && |f.rx.asm.queue| + |m.Packet()| < BUF_SIZE
    ensures var f := After(st, Line(BitsOf(m.Packet())), qs, Unseen(BitsOf(m.Packet()))).rx.asm;
            var high := Drive(After(st, Line(BitsOf(m.Packet())), qs, 16 * |m.Packet()|), true);
            high.rx.asm.queue == f.queue + m.Packet() <==> f.currBit == 0
  {
    hide Line, BitsOf, Drive, After, Heard, Busy, BytesOf, Unseen, Tolerable, Crc8.Crc;
    var bs := m.Packet();
    var f := After(st, Line(BitsOf(bs)), qs, Unseen(BitsOf(bs))).rx.asm;
    PacketHeardExactly(m);
    HeardExactly(bs);
    ShiftedFrame(st, bs, qs);
    PacketIsNotShifted(bs, f.dataByte[..f.currBit]);
  }

  /** Of other frames that is not so: zeros behind zeros are the same zeros. */
  lemma ShiftedZeros(a: Assembly)
    requires a.Valid() && a.dataByte == Zeros(8)
    ensures (a.dataByte[..a.currBit] + Heard(BitsOf([0])))[..8] == BitsOf([0])
  {
    BitsOfOne(0);
    WordOfZero(0, 8);
    assert Heard(BitsOf([0])) == Zeros(8);
  }

  // ---- The tolerance cannot be wider ----

  /** At ticks a half-bit, bs is decoded. */
  predicate Decodes(st: Station, bs: seq<Byte>, ticks: nat, gap: seq<Quiet>)
    requires st.rx.Valid()
  {
    Decoded(Frame(st, BitsOf(bs), Uniform(ticks, 16 * |bs|), gap).rx) == Decoded(st.rx) + bs
  }

  lemma QuietKeepsDecoded(st: Station, e: Quiet)
    requires Consistent(st) && st.line
    ensures Decoded(QuietStep(st, e).rx) == Decoded(st.rx)
  {
    if e.Pass? {
      DrainKeepsDecoded(DropIfCollision(ResetIfIdle(st.rx, st.mon.state), st.mon.state));
    }
  }

  lemma {:induction false} SettleKeepsDecoded(st: Station, q: seq<Quiet>)
    requires Consistent(st) && st.line
    ensures Decoded(Settle(st, q).rx) == Decoded(st.rx)
  {
    hide QuietStep, Decoded, Busy;
    if q != [] {
      SettleKeepsDecoded(st, q[..|q| - 1]);
      ConsistentSettles(st, q[..|q| - 1]);
      QuietKeepsDecoded(Settle(st, q[..|q| - 1]), q[|q| - 1]);
    }
  }

  lemma SettleOne(st: Station, ticks: nat)
    requires st.rx.Valid()
    ensures Settle(st, [Wait(ticks)]) == QuietStep(st, Wait(ticks))
  {
    hide QuietStep;
    assert [Wait(ticks)][..0] == [];
  }

  /** Too slow: every edge is taken for a bit. f is the station before the first edge. */
  predicate EveryEdgeTaken(f: Station, k: nat, st: Station)
    requires f.rx.Valid() && k > 0
  {
    && Consistent(st) && st.rx.sample && st.line == (k % 2 == 1) && SameDesk(st.rx, f.rx)
    && st.rx.asm == TakeAll(f.rx.asm, Alternating(k - 1))
  }

  lemma SlowStep(f: Station, k: nat, st: Station, ticks: nat)
    requires f.rx.Valid() && k > 0 && EveryEdgeTaken(f, k, st) && ticks >= HALFBIT_TIMEOUT_TICKS
    ensures EveryEdgeTaken(f, k + 1, Hold(st, k % 2 == 0, [Wait(ticks)]))
  {
    hide TakeAll, Settle, Assembly.Take;
    var edge := Drive(st, k % 2 == 0);
    ConsistentStep(st, Level(k % 2 == 0));
    ConsistentQuiet(edge, Wait(ticks));
    SettleOne(edge, ticks);
    assert Alternating(k)[..k - 1] == Alternating(k - 1);
    TakeNext(f.rx.asm, Alternating(k), k - 1);
    assert Alternating(k)[..k] == Alternating(k);
  }

  lemma ZeroLine(k: nat)
    requires k < 16
    ensures |BitsOf([0])| == 8 && Line(BitsOf([0]))[k] == (k % 2 == 0)
  {
    BitsOfOne(0);
    WordOfZero(0, 8);
  }

  lemma {:induction false} SlowRun(st: Station, f: Station, ticks: nat, k: nat)
    requires Ready(st) && ticks >= HALFBIT_TIMEOUT_TICKS && 0 < k <= 16 && f == Settle(st, [Wait(ticks)])
    ensures EveryEdgeTaken(f, k, After(st, Line(BitsOf([0])), Uniform(ticks, 16), k))
  {
    hide Settle, Line, BitsOf, Hold, TakeAll, EveryEdgeTaken, Busy, Decoded;
    ZeroLine(k - 1);
    if k == 1 {
      SlowStart(st, f, ticks);
    } else {
      SlowRun(st, f, ticks, k - 1);
      SlowStep(f, k - 1, After(st, Line(BitsOf([0])), Uniform(ticks, 16), k - 1), ticks);
    }
  }

  lemma SlowStart(st: Station, f: Station, ticks: nat)
    requires Ready(st) && f == Settle(st, [Wait(ticks)])
    ensures EveryEdgeTaken(f, 1, After(st, Line(BitsOf([0])), Uniform(ticks, 16), 1))
  {
    hide Settle, Line, BitsOf, TakeAll, Busy, Decoded;
    ZeroLine(0);
    SettleResting(st, [Wait(ticks)]);
    assert After(st, Line(BitsOf([0])), Uniform(ticks, 16), 0) == st;
    TakeNothing(f.rx.asm);
  }

  lemma TakeNothing(a: Assembly)
    requires a.Valid()
    ensures TakeAll(a, Alternating(0)) == a && TakeAll(a, Zeros(0)) == a
  {
  }

  lemma AlternatingIsBytes()
    ensures BitsOf([0x55, 0x55]) == Alternating(16)
  {
    hide Bits, BitsOf;
    SynchBits();
    forall k | 0 <= k < 16
      ensures BitsOf([0x55, 0x55])[k] == Alternating(16)[k]
    {
      BitAt([0x55, 0x55], k / 8, k % 8);
    }
  }

  /** A zero byte sent too slowly is heard as two bytes 0x55. */
  lemma {:induction false} TooSlow(st: Station, ticks: nat, gap: seq<Quiet>)
    requires Ready(st) && |st.rx.asm.queue| + 2 < BUF_SIZE && ticks >= HALFBIT_TIMEOUT_TICKS
    ensures Decoded(Frame(st, BitsOf([0]), Uniform(ticks, 16), gap).rx) == Decoded(st.rx) + [0x55, 0x55]
  {
    hide Settle, Line, BitsOf, After, TakeAll, Busy;
    var f := Settle(st, [Wait(ticks)]);
    var last := After(st, Line(BitsOf([0])), Uniform(ticks, 16), 16);
    SettleResting(st, [Wait(ticks)]);
    SlowRun(st, f, ticks, 16);
    ConsistentStep(last, Level(true));
    AlternatingIsBytes();
    TakeBytes(f.rx.asm, [0x55, 0x55]);
    TakeNext(f.rx.asm, Alternating(16), 15);
    assert Alternating(16)[..15] == Alternating(15) && Alternating(16)[..16] == Alternating(16);
    SettleKeepsDecoded(Drive(last, true), gap);
    assert Shipped(f.rx.inbox) + (f.rx.asm.queue + [0x55, 0x55]) == Decoded(f.rx) + [0x55, 0x55];
  }

  /** Too fast, for the bits 0, 1, 0, 1, ...: every other edge is missed. */
  predicate EveryOtherMissed(f: Station, ticks: nat, k: nat, st: Station)
    requires f.rx.Valid() && k > 0
  {
    var p := k - 1;
    && Consistent(st) && st.line == (p % 4 == 0 || p % 4 == 3) && SameDesk(st.rx, f.rx)
    && st.rx.asm == TakeAll(f.rx.asm, Zeros((p + 3) / 4))
    && (if st.line then st.rx.sample
        else !st.rx.sample && st.rx.tim4 == Timer(true, (p % 4) * ticks, HALFBIT_TIMEOUT_TICKS))
  }

  lemma FastStep(f: Station, ticks: nat, k: nat, st: Station)
    requires f.rx.Valid() && k > 0 && 2 * ticks < HALFBIT_TIMEOUT_TICKS && EveryOtherMissed(f, ticks, k, st)
    ensures EveryOtherMissed(f, ticks, k + 1, Hold(st, k % 4 == 0 || k % 4 == 3, [Wait(ticks)]))
  {
    hide TakeAll, Settle, Assembly.Take, Busy;
    var level := k % 4 == 0 || k % 4 == 3;
    var edge := Drive(st, level);
    ConsistentStep(st, Level(level));
    ConsistentQuiet(edge, Wait(ticks));
    SettleOne(edge, ticks);
    if k % 4 == 1 {
      var t := (k + 3) / 4;
      assert Zeros(t)[..t - 1] == Zeros(t - 1) && Zeros(t)[..t] == Zeros(t);
      TakeNext(f.rx.asm, Zeros(t), t - 1);
    }
  }

  lemma SynchLine(k: nat)
    requires k < 16
    ensures |BitsOf([0x55])| == 8 && Line(BitsOf([0x55]))[k] == (k % 4 == 0 || k % 4 == 3)
  {
    hide Bits, BitsOf, Line;
    SynchBits();
    BitsOfOne(0x55);
    LinePair(Alternating(8), k / 2);
    assert k == 2 * (k / 2) || k == 2 * (k / 2) + 1;
  }

  lemma {:induction false} FastRun(st: Station, f: Station, ticks: nat, k: nat)
    requires Ready(st) && 2 * ticks < HALFBIT_TIMEOUT_TICKS && 0 < k <= 16 && f == Settle(st, [Wait(ticks)])
    ensures EveryOtherMissed(f, ticks, k, After(st, Line(BitsOf([0x55])), Uniform(ticks, 16), k))
  {
    hide Settle, Line, BitsOf, Hold, TakeAll, EveryOtherMissed, Busy, Decoded;
    SynchLine(k - 1);
    if k == 1 {
      FastStart(st, f, ticks);
    } else {
      FastRun(st, f, ticks, k - 1);
      FastStep(f, ticks, k - 1, After(st, Line(BitsOf([0x55])), Uniform(ticks, 16), k - 1));
    }
  }

  lemma FastStart(st: Station, f: Station, ticks: nat)
    requires Ready(st) && f == Settle(st, [Wait(ticks)])
    ensures EveryOtherMissed(f, ticks, 1, After(st, Line(BitsOf([0x55])), Uniform(ticks, 16), 1))
  {
    hide Settle, Line, BitsOf, TakeAll, Busy, Decoded;
    SynchLine(0);
    SettleResting(st, [Wait(ticks)]);
    assert After(st, Line(BitsOf([0x55])), Uniform(ticks, 16), 0) == st;
    TakeNothing(f.rx.asm);
  }

  /** The synch byte sent too fast is not heard at all. */
  lemma {:induction false} TooFast(st: Station, ticks: nat, gap: seq<Quiet>)
    requires Ready(st) && 2 * ticks < HALFBIT_TIMEOUT_TICKS
    ensures Decoded(Frame(st, BitsOf([0x55]), Uniform(ticks, 16), gap).rx) == Decoded(st.rx)
  {
    hide Settle, Line, BitsOf, After, TakeAll, Busy;
    var f := Settle(st, [Wait(ticks)]);
    SettleResting(st, [Wait(ticks)]);
    FastRun(st, f, ticks, 16);
    TakeSome(f.rx.asm, Zeros(8), 4);
    assert Zeros(8)[..4] == Zeros(4);
    SettleKeepsDecoded(After(st, Line(BitsOf([0x55])), Uniform(ticks, 16), 16), gap);
  }

  /** A half-bit length at which every frame that starts with a 0 bit is decoded is one between 4054 and
      8106 ticks: no wider range will do. */
  lemma ToleranceIsTight(st: Station, ticks: nat, gap: seq<Quiet>)
    requires Ready(st) && |st.rx.asm.queue| + 2 < BUF_SIZE
    ensures (forall bs | StartsLow(bs) && |st.rx.asm.queue| + |bs| < BUF_SIZE :: Decodes(st, bs, ticks, gap))
            <==> 4054 <= ticks <= 8106
  {
    hide Frame, Decoded, BitsOf, HeardBytes, Busy, Uniform, Settle;
    if 4054 <= ticks <= 8106 {
      DurationOne(Wait(ticks));
      forall bs | StartsLow(bs) && |st.rx.asm.queue| + |bs| < BUF_SIZE
        ensures Decodes(st, bs, ticks, gap)
      {
        FrameDecoded(st, bs, Uniform(ticks, 16 * |bs|), gap);
      }
    } else if ticks >= HALFBIT_TIMEOUT_TICKS {
      TooSlow(st, ticks, gap);
      FirstBit([0]);
      assert !Decodes(st, [0], ticks, gap);
    } else {
      TooFast(st, ticks, gap);
      FirstBit([0x55]);
      assert !Decodes(st, [0x55], ticks, gap);
    }
  }
}
