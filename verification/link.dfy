/** One card listening to the line: monitor and receiver, driven by edges, time and main-loop
    passes, each of which is one atomic step. */
module Link {
  import opened Bytes
  import opened RingBuffers
  import opened Packets
  import opened Manchester
  import opened Monitors
  import opened Receivers

  datatype Station = Station(line: bool, mon: Mon, rx: Rx)

  /** What happens between edges: time passes, or receiver_mainRoutineUpdate runs. */
  datatype Quiet = Wait(ticks: nat) | Pass

  function QuietStep(st: Station, e: Quiet): (st': Station)
    requires st.rx.Valid()
    ensures st'.rx.Valid()
  {
    match e
    case Wait(ticks) => st.(mon := MonAfter(st.mon, ticks), rx := RxAfter(st.rx, ticks))
    case Pass => st.(rx := RxMain(st.rx, st.mon.state))
  }

  function Settle(st: Station, q: seq<Quiet>): (st': Station)
    requires st.rx.Valid()
    ensures st'.rx.Valid()
  {
    if q == [] then st else QuietStep(Settle(st, q[..|q| - 1]), q[|q| - 1])
  }

  function Duration(q: seq<Quiet>): nat {
    if q == [] then 0
    else Duration(q[..|q| - 1]) + match q[|q| - 1] { case Wait(ticks) => ticks case Pass => 0 }
  }

  /** The line takes a level: a change raises EXTI4, which serves monitor and receiver. */
  function Drive(st: Station, level: bool): (st': Station)
    requires st.rx.Valid()
    ensures st'.rx.Valid() && st'.line == level
  {
    if level == st.line then st else Station(level, OnEdge(st.mon, level), RxOnEdge(st.rx, level))
  }

  /** The line holds a level while q happens. */
  function Hold(st: Station, level: bool, q: seq<Quiet>): (st': Station)
    requires st.rx.Valid()
    ensures st'.rx.Valid()
  {
    Settle(Drive(st, level), q)
  }

  /** The state after the first k levels have been held, level i while qs[i] happened. */
  function After(st: Station, levels: seq<bool>, qs: seq<seq<Quiet>>, k: nat): (st': Station)
    requires st.rx.Valid() && k <= |levels| <= |qs|
    ensures st'.rx.Valid()
  {
    if k == 0 then st else Hold(After(st, levels, qs, k - 1), levels[k - 1], qs[k - 1])
  }

  /** How long a half-bit may last, in the listener's ticks. */
  predicate Tolerable(q: seq<Quiet>) {
    4054 <= Duration(q) <= 8106
  }

  /** Half-bits of one length, without main-loop passes. */
  function Uniform(ticks: nat, n: nat): (qs: seq<seq<Quiet>>)
    ensures |qs| == n && forall i | 0 <= i < n :: qs[i] == [Wait(ticks)]
  {
    seq(n, _ => [Wait(ticks)])
  }

  const SYSTICK_TICKS: nat := 16 * TRANSMISSION_TIMEOUT_US

  // ---- Between frames ----

  /** Busy since the last edge, which left the line at `level`. */
  predicate Busy(m: Mon, level: bool) {
    m == Mon(MS_BUSY, level, Timer(true, m.stk.count, SYSTICK_TICKS)) && m.stk.count < SYSTICK_TICKS
  }

  /** What holds of a station whatever the line does, from power-up on: the timeout runs exactly
      while the monitor is busy, which it only is during a reception, and an edge between bits is only
      awaited while both timers count from the same sampled edge. So no collision is ever seen before
      the half-bit timeout has fired. */
  predicate Consistent(st: Station) {
    && st.rx.Valid()
    && (if st.mon.state == MS_BUSY then Busy(st.mon, st.line) && st.rx.currentlyReceiving
        else !st.mon.stk.running && (st.mon.state == MS_IDLE <==> st.line))
    && (!st.rx.sample ==>
          st.mon.state == MS_BUSY && st.rx.tim4.running && st.rx.tim4.count == st.mon.stk.count)
  }

  /** The line rests high, on a byte boundary; only the half-bit timeout may be outstanding. */
  predicate Resting(st: Station) {
    Consistent(st) && st.line && st.rx.asm.currBit == 0
  }

  /** The next edge will be taken as the middle of a bit. */
  predicate Poised(st: Station) {
    Consistent(st) && st.line && st.rx.sample
  }

  /** The next edge will be taken as the middle of a first bit. */
  predicate Ready(st: Station) {
    Resting(st) && st.rx.sample
  }

  function Shipped(inbox: seq<Delivery>): seq<Byte> {
    if inbox == [] then [] else Shipped(inbox[..|inbox| - 1]) + inbox[|inbox| - 1].bytes
  }

  /** Every byte decoded so far: those already shown, then those still in the ring. */
  function Decoded(r: Rx): seq<Byte> {
    Shipped(r.inbox) + r.asm.queue
  }

  lemma DrainKeepsDecoded(r: Rx)
    requires r.Valid()
    ensures Decoded(Drain(r)) == Decoded(r) && |Drain(r).asm.queue| <= |r.asm.queue|
  {
    var d := Drain(r);
    if d != r {
      assert d.inbox[..|d.inbox| - 1] == r.inbox;
    }
  }

  lemma DurationOne(e: Quiet)
    ensures Duration([e]) == if e.Wait? then e.ticks else 0
  {
    assert [e][..0] == [];
  }

  lemma RestingStep(st: Station, e: Quiet)
    requires Resting(st)
    ensures var st' := QuietStep(st, e);
            && Resting(st') && Decoded(st'.rx) == Decoded(st.rx) && |st'.rx.asm.queue| <= |st.rx.asm.queue|
            && (st.rx.sample || st.rx.tim4.count + Duration([e]) >= HALFBIT_TIMEOUT_TICKS ==> st'.rx.sample)
            && (!st'.rx.sample ==> !st.rx.sample && st'.rx.tim4.count == st.rx.tim4.count + Duration([e]))
            && (st'.mon.state == MS_BUSY ==>
                  st.mon.state == MS_BUSY && st'.mon.stk.count == st.mon.stk.count + Duration([e]))
  {
    DurationOne(e);
    if e.Pass? {
      DrainKeepsDecoded(DropIfCollision(ResetIfIdle(st.rx, st.mon.state), st.mon.state));
    }
  }

  lemma DurationSnoc(q: seq<Quiet>)
    requires q != []
    ensures Duration(q) == Duration(q[..|q| - 1]) + Duration([q[|q| - 1]])
  {
    assert [q[|q| - 1]][..0] == [];
  }

  /** While the line rests nothing decoded is lost and no bit is made up, whatever passes run. */
  lemma {:induction false} SettleResting(st: Station, q: seq<Quiet>)
    requires Resting(st)
    ensures var st' := Settle(st, q);
            && Resting(st') && Decoded(st'.rx) == Decoded(st.rx) && |st'.rx.asm.queue| <= |st.rx.asm.queue|
            && (st.rx.sample || st.rx.tim4.count + Duration(q) >= HALFBIT_TIMEOUT_TICKS ==> st'.rx.sample)
            && (!st'.rx.sample ==> !st.rx.sample && st'.rx.tim4.count == st.rx.tim4.count + Duration(q))
            && (st'.mon.state == MS_BUSY ==>
                  st.mon.state == MS_BUSY && st'.mon.stk.count == st.mon.stk.count + Duration(q))
  {
    if q != [] {
      SettleResting(st, q[..|q| - 1]);
      RestingStep(Settle(st, q[..|q| - 1]), q[|q| - 1]);
      DurationSnoc(q);
    }
  }

  // ---- Collisions ----

  lemma {:induction false} SettleConcat(st: Station, p: seq<Quiet>, q: seq<Quiet>)
    requires st.rx.Valid()
    ensures Settle(st, p + q) == Settle(Settle(st, p), q)
  {
    hide QuietStep;
    if q == [] {
      assert p + q == p;
    } else {
      SettleConcat(st, p, q[..|q| - 1]);
      assert (p + q)[..|p + q| - 1] == p + q[..|q| - 1];
    }
  }

  /** Only an edge ends a collision. */
  predicate CollisionIsFinal(m: Mon) {
    m.state == MS_COLLISION ==> !m.stk.running
  }

  lemma {:induction false} CollisionStays(st: Station, q: seq<Quiet>)
    requires st.rx.Valid() && CollisionIsFinal(st.mon)
    ensures CollisionIsFinal(Settle(st, q).mon)
    ensures st.mon.state == MS_COLLISION ==> Settle(st, q).mon.state == MS_COLLISION
  {
    if q != [] {
      CollisionStays(st, q[..|q| - 1]);
    }
  }

  /** So no collision at the end of a quiet stretch means none at any point of it. */
  lemma {:induction false} NoCollisionBefore(st: Station, q: seq<Quiet>, i: nat)
    requires st.rx.Valid() && CollisionIsFinal(st.mon) && i <= |q|
    requires Settle(st, q).mon.state != MS_COLLISION
    ensures Settle(st, q[..i]).mon.state != MS_COLLISION
  {
    assert q == q[..i] + q[i..];
    SettleConcat(st, q[..i], q[i..]);
    CollisionStays(st, q[..i]);
    CollisionStays(Settle(st, q[..i]), q[i..]);
  }

  // ---- Within a frame ----

  /** The bits of a frame entering the assembly one after the other. */
  function TakeAll(a: Assembly, bits: seq<bool>): (a': Assembly)
    requires a.Valid()
    ensures a'.Valid()
  {
    if bits == [] then a else TakeAll(a, bits[..|bits| - 1]).Take(bits[|bits| - 1])
  }

  /** Reception is under way. */
  predicate Receiving(st: Station) {
    st.rx.Valid() && st.rx.currentlyReceiving && Busy(st.mon, st.line)
  }

  /** During reception main-loop passes do nothing: BUSY blocks the reset, currentlyReceiving
      the drain. Only the two timers move. */
  lemma {:induction false} SettleReceiving(st: Station, q: seq<Quiet>)
    requires Receiving(st) && st.mon.stk.count + Duration(q) < SYSTICK_TICKS
    ensures Settle(st, q) == st.(mon := MonAfter(st.mon, Duration(q)), rx := RxAfter(st.rx, Duration(q)))
  {
    if q != [] {
      DurationSnoc(q);
      assert [q[|q| - 1]][..0] == [];
      SettleReceiving(st, q[..|q| - 1]);
    }
  }

  /** Right after a bit was sampled. */
  predicate JustSampled(st: Station) {
    Receiving(st) && !st.rx.sample && st.rx.tim4 == Timer(true, 0, HALFBIT_TIMEOUT_TICKS) && st.mon.stk.count == 0
  }

  /** Where the tolerance comes from: the next edge after a sampled bit is itself sampled exactly
      when the half-bit timeout has passed, so half a bit must stay below it and a whole bit must
      not. */
  lemma EdgeSampledIffTimedOut(st: Station, q: seq<Quiet>)
    requires JustSampled(st) && Duration(q) < SYSTICK_TICKS
    ensures Drive(Settle(st, q), !st.line).rx.asm
         == if Duration(q) >= HALFBIT_TIMEOUT_TICKS then st.rx.asm.Take(!st.line) else st.rx.asm
  {
    SettleReceiving(st, q);
  }

  /** What a frame must leave alone while it is being received. */
  predicate SameDesk(a: Rx, b: Rx) {
    a.packetMode == b.packetMode && a.pkt == b.pkt && a.msgBuf == b.msgBuf && a.inbox == b.inbox
  }

  /** After the second half of a bit: waiting for either an edge between bits or the timeout. */
  predicate MidBit(st: Station, bit: bool) {
    && Receiving(st) && st.line == bit && 4054 <= st.mon.stk.count <= 8106
    && !st.rx.sample && st.rx.tim4 == Timer(true, st.mon.stk.count, HALFBIT_TIMEOUT_TICKS)
  }

  /** After the first half of a bit: the next edge is the one to sample. */
  predicate BeforeMid(st: Station, bit: bool) {
    Receiving(st) && st.line == !bit && st.mon.stk.count <= 2 * 8106 && st.rx.sample
  }

  lemma FirstHalf(st: Station, last: bool, bit: bool, q: seq<Quiet>)
    requires MidBit(st, last) && Tolerable(q)
    ensures var st' := Hold(st, !bit, q);
            BeforeMid(st', bit) && SameDesk(st'.rx, st.rx) && st'.rx.asm == st.rx.asm
  {
    SettleReceiving(Drive(st, !bit), q);
  }

  lemma SecondHalf(st: Station, bit: bool, q: seq<Quiet>)
    requires (BeforeMid(st, bit) || (Poised(st) && !bit)) && Tolerable(q)
    ensures var st' := Hold(st, bit, q);
            MidBit(st', bit) && SameDesk(st'.rx, st.rx) && st'.rx.asm == st.rx.asm.Take(bit)
  {
    SettleReceiving(Drive(st, bit), q);
  }

  // A frame whose first bit is 1 starts with an edge, which is taken for the middle of a bit.
  // Until the first 0 comes along, the receiver samples the wrong half of every bit.

  predicate AllOnes(bits: seq<bool>, n: nat)
    requires n <= |bits|
  {
    forall i | 0 <= i < n :: bits[i]
  }

  /** What the receiver makes of a frame: its leading ones are heard as zeros. */
  function Heard(bits: seq<bool>): (h: seq<bool>)
    ensures |h| == |bits|
  {
    seq(|bits|, i requires 0 <= i < |bits| => bits[i] && !AllOnes(bits, i))
  }

  /** Only leading ones so far, the last one's first half just sampled. */
  predicate LeadLow(st: Station) {
    && Receiving(st) && !st.line && 4054 <= st.mon.stk.count <= 8106
    && !st.rx.sample && st.rx.tim4 == Timer(true, st.mon.stk.count, HALFBIT_TIMEOUT_TICKS)
  }

  /** Only leading ones so far, all of them sampled. */
  predicate LeadHigh(st: Station) {
    Receiving(st) && st.line && st.mon.stk.count <= 8106 && st.rx.sample
  }

  lemma LeadingOneFirstHalf(st: Station, q: seq<Quiet>)
    requires (Poised(st) || LeadHigh(st)) && Tolerable(q)
    ensures var st' := Hold(st, false, q);
            LeadLow(st') && SameDesk(st'.rx, st.rx) && st'.rx.asm == st.rx.asm.Take(false)
  {
    SettleReceiving(Drive(st, false), q);
  }

  lemma LeadingOneSecondHalf(st: Station, q: seq<Quiet>)
    requires LeadLow(st) && Tolerable(q)
    ensures var st' := Hold(st, true, q);
            LeadHigh(st') && SameDesk(st'.rx, st.rx) && st'.rx.asm == st.rx.asm
  {
    SettleReceiving(Drive(st, true), q);
  }

  lemma FirstZeroFirstHalf(st: Station, q: seq<Quiet>)
    requires LeadHigh(st) && Tolerable(q)
    ensures var st' := Hold(st, true, q);
            BeforeMid(st', false) && SameDesk(st'.rx, st.rx) && st'.rx.asm == st.rx.asm
  {
    SettleReceiving(st, q);
  }

  /** The half-bits that go by before the first edge: a leading 0 looks like the resting line. */
  function Unseen(bits: seq<bool>): (n: nat)
    requires bits != []
    ensures n <= 1
  {
    if bits[0] then 0 else 1
  }

  /** Where a frame of bits stands after k half-bits; f is the station right before the first edge. */
  predicate InStep(f: Station, bits: seq<bool>, k: nat, st: Station)
    requires f.rx.Valid() && bits != [] && Unseen(bits) <= k <= 2 * |bits|
  {
    var j := k / 2;
    if k == Unseen(bits) then st == f && Poised(f)
    else
      && SameDesk(st.rx, f.rx)
      && if k % 2 == 0 then
           && st.rx.asm == TakeAll(f.rx.asm, Heard(bits)[..j])
           && if AllOnes(bits, j) then LeadHigh(st) else MidBit(st, bits[j - 1])
         else if AllOnes(bits, j + 1) then
           LeadLow(st) && st.rx.asm == TakeAll(f.rx.asm, Heard(bits)[..j + 1])
         else
           BeforeMid(st, bits[j]) && st.rx.asm == TakeAll(f.rx.asm, Heard(bits)[..j])
  }

  /** Entering the first half of bit j. */
  lemma FirstHalfStep(f: Station, bits: seq<bool>, j: nat, st: Station, q: seq<Quiet>)
    requires f.rx.Valid() && j < |bits| && Unseen(bits) <= 2 * j
    requires InStep(f, bits, 2 * j, st) && Tolerable(q)
    ensures InStep(f, bits, 2 * j + 1, Hold(st, !bits[j], q))
  {
    hide Hold, TakeAll;
    assert (2 * j + 1) / 2 == j;
    TakeNext(f.rx.asm, Heard(bits), j);
    if !AllOnes(bits, j) {
      FirstHalf(st, bits[j - 1], bits[j], q);
    } else if bits[j] {
      LeadingOneFirstHalf(st, q);
    } else {
      FirstZeroFirstHalf(st, q);
    }
  }

  /** Entering the second half of bit j. */
  lemma SecondHalfStep(f: Station, bits: seq<bool>, j: nat, st: Station, q: seq<Quiet>)
    requires f.rx.Valid() && j < |bits| && Unseen(bits) <= 2 * j + 1
    requires InStep(f, bits, 2 * j + 1, st) && Tolerable(q)
    ensures InStep(f, bits, 2 * j + 2, Hold(st, bits[j], q))
  {
    hide Hold, TakeAll;
    assert (2 * j + 1) / 2 == j && (2 * j + 2) / 2 == j + 1;
    TakeNext(f.rx.asm, Heard(bits), j);
    if AllOnes(bits, j + 1) {
      LeadingOneSecondHalf(st, q);
    } else {
      SecondHalf(st, bits[j], q);
    }
  }

  lemma HalfBitStep(f: Station, bits: seq<bool>, k: nat, st: Station, level: bool, q: seq<Quiet>)
    requires f.rx.Valid() && bits != [] && Unseen(bits) < k <= 2 * |bits|
    requires InStep(f, bits, k - 1, st) && Tolerable(q)
    requires level == Line(bits)[k - 1]
    ensures InStep(f, bits, k, Hold(st, level, q))
  {
    hide Hold, InStep;
    var j := (k - 1) / 2;
    if k - 1 == 2 * j {
      FirstHalfStep(f, bits, j, st, q);
    } else {
      SecondHalfStep(f, bits, j, st, q);
    }
  }

  lemma {:induction false} TakeNext(a: Assembly, bits: seq<bool>, j: nat)
    requires a.Valid() && j < |bits|
    ensures TakeAll(a, bits[..j + 1]) == TakeAll(a, bits[..j]).Take(bits[j])
    ensures TakeAll(a, bits[..0]) == a
  {
    assert bits[..j + 1][..j] == bits[..j];
  }

  /** What goes by before the first edge is only more resting. */
  lemma UnseenHalfBit(st: Station, bits: seq<bool>, qs: seq<seq<Quiet>>)
    requires Ready(st) && bits != [] && |qs| >= 2 * |bits|
    ensures var f := After(st, Line(bits), qs, Unseen(bits));
            Ready(f) && Decoded(f.rx) == Decoded(st.rx) && |f.rx.asm.queue| <= |st.rx.asm.queue|
  {
    SettleResting(st, qs[0]);
    assert After(st, Line(bits), qs, 0) == st;
  }

  /** The receiver follows the line through any number of half-bits, each of any tolerable
      length, with main-loop passes anywhere. */
  lemma {:induction false} FollowFrame(st: Station, f: Station, bits: seq<bool>, qs: seq<seq<Quiet>>, k: nat)
    requires st.rx.Valid() && bits != [] && Unseen(bits) <= k <= 2 * |bits| <= |qs|
    requires f == After(st, Line(bits), qs, Unseen(bits)) && Poised(f)
    requires forall i | 0 <= i < 2 * |bits| :: Tolerable(qs[i])
    ensures InStep(f, bits, k, After(st, Line(bits), qs, k))
  {
    hide Hold, TakeAll, MidBit, BeforeMid, LeadLow, LeadHigh;
    if k > Unseen(bits) {
      FollowFrame(st, f, bits, qs, k - 1);
      HalfBitStep(f, bits, k, After(st, Line(bits), qs, k - 1), Line(bits)[k - 1], qs[k - 1]);
    }
  }

  // ---- Bits into bytes ----

  lemma {:induction false} TakeConcat(a: Assembly, x: seq<bool>, y: seq<bool>)
    requires a.Valid()
    ensures TakeAll(a, x + y) == TakeAll(TakeAll(a, x), y)
  {
    if y == [] {
      assert x + y == x;
    } else {
      TakeConcat(a, x, y[..|y| - 1]);
      assert (x + y)[..|x + y| - 1] == x + y[..|y| - 1];
    }
  }

  lemma {:induction false} TakeCounts(a: Assembly, bits: seq<bool>)
    requires a.Valid()
    ensures TakeAll(a, bits).currBit == (a.currBit + |bits|) % 8
  {
    if bits != [] {
      TakeCounts(a, bits[..|bits| - 1]);
    }
  }

  lemma {:induction false} TakeSome(a: Assembly, b: Octet, n: nat)
    requires a.Valid() && a.currBit == 0 && n < 8
    ensures var a' := TakeAll(a, b[..n]);
            a'.currBit == n && a'.queue == a.queue && a'.dataByte[..n] == b[..n]
  {
    if n > 0 {
      TakeSome(a, b, n - 1);
      assert b[..n][..n - 1] == b[..n - 1];
    }
  }

  lemma TakeByte(a: Assembly, b: Byte)
    requires a.Valid() && a.currBit == 0
    ensures var a' := TakeAll(a, Bits(b));
            a'.currBit == 0 && a'.queue == Enqueue(a.queue, b)
  {
    var o := Bits(b);
    TakeSome(a, o, 7);
    var a7 := TakeAll(a, o[..7]);
    assert a7.dataByte[7 := o[7]] == o by {
      assert forall i | 0 <= i < 7 :: a7.dataByte[i] == a7.dataByte[..7][i] == o[..7][i] == o[i];
    }
    ByteOfBits(b);
  }

  /** Whole bytes enter the ring one after the other, and nothing is left over. */
  lemma {:induction false} TakeAnyBytes(a: Assembly, bs: seq<Byte>)
    requires a.Valid() && a.currBit == 0
    ensures var a' := TakeAll(a, BitsOf(bs));
            a'.currBit == 0 && a'.queue == EnqueueAll(a.queue, bs)
  {
    if bs == [] {
      assert BitsOf(bs) == [];
    } else {
      var front, last := bs[..|bs| - 1], bs[|bs| - 1];
      TakeAnyBytes(a, front);
      BitsOfLast(bs);
      TakeConcat(a, BitsOf(front), Bits(last));
      TakeByte(TakeAll(a, BitsOf(front)), last);
    }
  }

  /** If there is room, in order and all of them. */
  lemma TakeBytes(a: Assembly, bs: seq<Byte>)
    requires a.Valid() && a.currBit == 0 && |a.queue| + |bs| < BUF_SIZE
    ensures var a' := TakeAll(a, BitsOf(bs));
            a'.currBit == 0 && a'.queue == a.queue + bs
  {
    hide TakeAll, BitsOf;
    TakeAnyBytes(a, bs);
    EnqueueAllFits(a.queue, bs);
  }

  lemma BitsOfLast(bs: seq<Byte>)
    requires bs != []
    ensures BitsOf(bs) == BitsOf(bs[..|bs| - 1]) + Bits(bs[|bs| - 1])
  {
    var front, last := bs[..|bs| - 1], bs[|bs| - 1];
    assert bs == front + [last];
    BitsOfConcat(front, [last]);
    BitsOfOne(last);
  }

  // ---- Whole frames ----

  /** The levels of a frame, each held for a while, then the line high for `gap`. */
  function Frame(st: Station, bits: seq<bool>, qs: seq<seq<Quiet>>, gap: seq<Quiet>): (st': Station)
    requires st.rx.Valid() && |qs| == 2 * |bits|
    ensures st'.rx.Valid()
  {
    Hold(After(st, Line(bits), qs, 2 * |bits|), true, gap)
  }

  predicate AllTolerable(qs: seq<seq<Quiet>>) {
    forall i | 0 <= i < |qs| :: Tolerable(qs[i])
  }

  /** A frame has ended: the line is high, and a half-bit timeout left over has little to go. */
  predicate Over(high: Station) {
    && Consistent(high) && high.line && high.mon.state == MS_BUSY
    && (!high.rx.sample ==> high.rx.tim4.count >= 4054)
  }

  /** Once a frame has been held, the line's return to high, with an edge or without, is no bit. */
  lemma FrameEnds(f: Station, bits: seq<bool>, st: Station)
    requires f.rx.Valid() && bits != [] && InStep(f, bits, 2 * |bits|, st)
    ensures var high := Drive(st, true);
            Over(high) && SameDesk(high.rx, f.rx) && high.rx.asm == TakeAll(f.rx.asm, Heard(bits))
  {
    hide TakeAll;
    assert Heard(bits)[..|bits|] == Heard(bits);
  }

  /** What a station that awaits a bit takes in of a frame. */
  lemma {:induction false} FrameReceived(st: Station, f: Station, bits: seq<bool>, qs: seq<seq<Quiet>>)
    requires st.rx.Valid() && bits != [] && |qs| == 2 * |bits| && AllTolerable(qs)
    requires f == After(st, Line(bits), qs, Unseen(bits)) && Poised(f)
    ensures var high := Drive(After(st, Line(bits), qs, 2 * |bits|), true);
            Over(high) && SameDesk(high.rx, f.rx) && high.rx.asm == TakeAll(f.rx.asm, Heard(bits))
  {
    hide Hold, Drive, After, InStep, TakeAll, Busy;
    FollowFrame(st, f, bits, qs, 2 * |bits|);
    FrameEnds(f, bits, After(st, Line(bits), qs, 2 * |bits|));
  }

  /** The bytes a listener makes of a frame of bytes. */
  function HeardBytes(bs: seq<Byte>): (h: seq<Byte>)
    ensures |h| == |bs|
  {
    BytesOf(Heard(BitsOf(bs)))
  }

  /** A byte string whose first bit is 0, as the synch byte 0x55 ensures. */
  predicate StartsLow(bs: seq<Byte>) {
    bs != [] && !BitsOf(bs)[0]
  }

  lemma HeardExactly(bs: seq<Byte>)
    requires bs != []
    ensures BitsOf(HeardBytes(bs)) == Heard(BitsOf(bs))
    ensures HeardBytes(bs) == bs <==> StartsLow(bs)
  {
    var bits := BitsOf(bs);
    BitsOfBytesOf(Heard(bits));
    if StartsLow(bs) {
      assert Heard(bits) == bits;
      BitsOfInjective(HeardBytes(bs), bs);
    } else {
      assert AllOnes(bits, 0);
      assert !Heard(bits)[0] && bits[0];
    }
  }

  /** Line round trip. A station that is ready, any byte string that fits in the ring, any
      tolerable timing, main-loop passes anywhere: as many bytes are decoded as were sent, and
      they are the bytes sent exactly when the first bit is 0. After a gap that completes the
      half-bit timeout the station is ready again. */
  lemma {:induction false} FrameDecoded(st: Station, bs: seq<Byte>, qs: seq<seq<Quiet>>, gap: seq<Quiet>)
    requires Ready(st) && bs != [] && |st.rx.asm.queue| + |bs| < BUF_SIZE
    requires |qs| == 16 * |bs| && AllTolerable(qs)
    ensures var st' := Frame(st, BitsOf(bs), qs, gap);
            && Decoded(st'.rx) == Decoded(st.rx) + HeardBytes(bs)
            && (Decoded(st'.rx) == Decoded(st.rx) + bs <==> StartsLow(bs))
            && |st'.rx.asm.queue| <= |st.rx.asm.queue| + |bs|
            && (4054 + Duration(gap) >= HALFBIT_TIMEOUT_TICKS ==> Ready(st'))
  {
    hide Drive, After, Settle, Line, Busy, BitsOf, HeardBytes, StartsLow, TakeAll, Unseen;
    var bits, h := BitsOf(bs), HeardBytes(bs);
    var f := After(st, Line(bits), qs, Unseen(bits));
    UnseenHalfBit(st, bits, qs);
    HeardExactly(bs);
    TakeBytes(f.rx.asm, h);
    FrameReceived(st, f, bits, qs);
    var high := Drive(After(st, Line(bits), qs, 2 * |bits|), true);
    SettleResting(high, gap);
    assert Shipped(high.rx.inbox) + (f.rx.asm.queue + h) == Decoded(f.rx) + h;
    SameLengthConcat(Decoded(st.rx), h, Decoded(st.rx), bs);
  }

  // ---- Recovery ----

  /** What one drain leaves of n bytes in the ring. */
  function Left(n: nat): nat {
    if n <= SIZEOF_PACKET then 0 else n - SIZEOF_PACKET
  }

  /** Self-stabilisation. Whatever state the receiver is in, one main-loop pass while the monitor
      is idle makes it ready, and quiet time afterwards keeps it so: a half-bit timeout left over
      from before may still fire before the first edge of the next frame. */
  lemma {:induction false} Stabilises(st: Station, q: seq<Quiet>)
    requires st.rx.Valid() && st.line && st.mon.state == MS_IDLE && !st.mon.stk.running
    ensures var st' := Settle(QuietStep(st, Pass), q);
            Ready(st') && |st'.rx.asm.queue| <= Left(|st.rx.asm.queue|)
  {
    SettleResting(QuietStep(st, Pass), q);
  }

  /** So the next frame is decoded as by any ready station: exactly, if it starts with a 0 bit. */
  lemma FrameAfterIdlePass(st: Station, q: seq<Quiet>, bs: seq<Byte>, qs: seq<seq<Quiet>>, gap: seq<Quiet>)
    requires st.rx.Valid() && st.line && st.mon.state == MS_IDLE && !st.mon.stk.running
    requires bs != [] && Left(|st.rx.asm.queue|) + |bs| < BUF_SIZE && |qs| == 16 * |bs| && AllTolerable(qs)
    ensures var ready := Settle(QuietStep(st, Pass), q);
            var st' := Frame(ready, BitsOf(bs), qs, gap);
            && Decoded(st'.rx) == Decoded(ready.rx) + HeardBytes(bs)
            && (Decoded(st'.rx) == Decoded(ready.rx) + bs <==> StartsLow(bs))
  {
    hide Frame, Decoded, BitsOf, HeardBytes, StartsLow, Tolerable, QuietStep;
    Stabilises(st, q);
    FrameDecoded(Settle(QuietStep(st, Pass), q), bs, qs, gap);
  }

  /** The monitor's fate between edges depends on nothing but time. */
  lemma {:induction false} SettleMonitor(st: Station, q: seq<Quiet>)
    requires st.rx.Valid() && (st.mon.stk.running ==> st.mon.stk.count < st.mon.stk.limit)
    ensures Settle(st, q).mon == MonAfter(st.mon, Duration(q)) && Settle(st, q).line == st.line
  {
    hide RxMain, RxAfter;
    if q != [] {
      SettleMonitor(st, q[..|q| - 1]);
      MonAfterAdds(st.mon, Duration(q[..|q| - 1]), Duration(q) - Duration(q[..|q| - 1]));
    }
  }

  /** So whatever passes run meanwhile. */
  lemma TimeoutAtStation(st: Station, level: bool, q: seq<Quiet>)
    requires st.rx.Valid() && level != st.line
    ensures var st' := Hold(st, level, q);
            && st'.line == level
            && st'.mon.state == if Duration(q) < 17760 then MS_BUSY else if level then MS_IDLE else MS_COLLISION
  {
    hide Settle, RxOnEdge, MonAfter;
    SettleMonitor(Drive(st, level), q);
    TimeoutAfterEdge(st.mon, level, Duration(q));
  }

  lemma {:induction false} SettleQueue(st: Station, q: seq<Quiet>)
    requires st.rx.Valid()
    ensures |Settle(st, q).rx.asm.queue| <= |st.rx.asm.queue|
  {
    hide Parsed, Terminated, Buffered, MonAfter;
    if q != [] {
      SettleQueue(st, q[..|q| - 1]);
    }
  }

  /** The line goes high, or is high already, and stays so while q happens; then a main-loop pass. */
  function Released(st: Station, q: seq<Quiet>): (st': Station)
    requires st.rx.Valid()
    ensures st'.rx.Valid()
  {
    QuietStep(Hold(st, true, q), Pass)
  }

  /** Recovery from anything: noise, a collision, a torn frame. However the receiver was left, once the
      line has been high and quiet for the monitor's timeout, one main-loop pass makes the station
      ready. If the line is low, nothing is asked of the monitor either: the edge sets it right. */
  lemma {:induction false} RecoversOnceQuiet(st: Station, q: seq<Quiet>, later: seq<Quiet>)
    requires st.rx.Valid() && Duration(q) >= SYSTICK_TICKS
    requires st.line ==> Busy(st.mon, true) || (st.mon.state == MS_IDLE && !st.mon.stk.running)
    ensures Hold(st, true, q).mon.state == MS_IDLE
    ensures var st' := Settle(Released(st, q), later);
            Ready(st') && |st'.rx.asm.queue| <= Left(|st.rx.asm.queue| + 1)
  {
    hide RxMain, RxAfter;
    SettleMonitor(Drive(st, true), q);
    SettleQueue(Drive(st, true), q);
    Stabilises(Hold(st, true, q), later);
  }

  /** So after any disturbance the next frame is decoded exactly, if it starts with a 0 bit. */
  lemma FrameAfterRecovery(st: Station, q: seq<Quiet>, later: seq<Quiet>,
                           bs: seq<Byte>, qs: seq<seq<Quiet>>, gap: seq<Quiet>)
    requires Consistent(st) && Duration(q) >= SYSTICK_TICKS
    requires bs != [] && Left(|st.rx.asm.queue| + 1) + |bs| < BUF_SIZE && |qs| == 16 * |bs| && AllTolerable(qs)
    ensures var ready := Settle(Released(st, q), later);
            var st' := Frame(ready, BitsOf(bs), qs, gap);
            && Decoded(st'.rx) == Decoded(ready.rx) + HeardBytes(bs)
            && (Decoded(st'.rx) == Decoded(ready.rx) + bs <==> StartsLow(bs))
  {
    hide Frame, Decoded, BitsOf, HeardBytes, StartsLow, Tolerable, Released, Settle;
    RecoversOnceQuiet(st, q, later);
    FrameDecoded(Settle(Released(st, q), later), bs, qs, gap);
  }

  // ---- Frame after frame ----

  datatype Sent = Sent(bytes: seq<Byte>, halfBits: seq<seq<Quiet>>, gap: seq<Quiet>) {
    /** A frame sent within tolerance, and long enough a pause behind it. */
    predicate Valid() {
      && bytes != [] && |halfBits| == 16 * |bytes| && AllTolerable(halfBits)
      && Duration(gap) >= HALFBIT_TIMEOUT_TICKS
    }
  }

  predicate AllValid(frames: seq<Sent>) {
    forall i | 0 <= i < |frames| :: frames[i].Valid()
  }

  function Frames(st: Station, frames: seq<Sent>): (st': Station)
    requires st.rx.Valid() && AllValid(frames)
    ensures st'.rx.Valid()
  {
    if frames == [] then st
    else
      var last := frames[|frames| - 1];
      Frame(Frames(st, frames[..|frames| - 1]), BitsOf(last.bytes), last.halfBits, last.gap)
  }

  function AllBytes(frames: seq<Sent>): seq<Byte> {
    if frames == [] then [] else AllBytes(frames[..|frames| - 1]) + frames[|frames| - 1].bytes
  }

  function AllHeard(frames: seq<Sent>): (h: seq<Byte>)
    ensures |h| == |AllBytes(frames)|
  {
    if frames == [] then [] else AllHeard(frames[..|frames| - 1]) + HeardBytes(frames[|frames| - 1].bytes)
  }

  lemma SentDecoded(st: Station, f: Sent)
    requires Ready(st) && f.Valid() && |st.rx.asm.queue| + |f.bytes| < BUF_SIZE
    ensures var st' := Frame(st, BitsOf(f.bytes), f.halfBits, f.gap);
            && Ready(st') && Decoded(st'.rx) == Decoded(st.rx) + HeardBytes(f.bytes)
            && |st'.rx.asm.queue| <= |st.rx.asm.queue| + |f.bytes|
  {
    hide Frame, Decoded, BitsOf, HeardBytes, StartsLow, Tolerable, Busy;
    FrameDecoded(st, f.bytes, f.halfBits, f.gap);
  }

  /** Any number of frames that together fit in the ring decode, one after the other, to what is heard
      of each, with or without main-loop passes between and during them. */
  lemma {:induction false} FramesDecoded(st: Station, frames: seq<Sent>)
    requires Ready(st) && AllValid(frames) && |st.rx.asm.queue| + |AllBytes(frames)| < BUF_SIZE
    ensures var st' := Frames(st, frames);
            && Ready(st') && Decoded(st'.rx) == Decoded(st.rx) + AllHeard(frames)
            && |st'.rx.asm.queue| <= |st.rx.asm.queue| + |AllBytes(frames)|
  {
    hide Frame, Decoded, BitsOf, HeardBytes, Sent.Valid, Busy;
    if frames == [] {
      assert Decoded(st.rx) + AllHeard(frames) == Decoded(st.rx);
    } else {
      var front, last := frames[..|frames| - 1], frames[|frames| - 1];
      FramesDecoded(st, front);
      SentDecoded(Frames(st, front), last);
      assert Decoded(st.rx) + AllHeard(frames) == (Decoded(st.rx) + AllHeard(front)) + HeardBytes(last.bytes);
    }
  }

  /** That is their concatenation exactly when every frame starts with a 0 bit. */
  lemma {:induction false} AllHeardExactly(frames: seq<Sent>)
    requires AllValid(frames)
    ensures AllHeard(frames) == AllBytes(frames) <==> forall i | 0 <= i < |frames| :: StartsLow(frames[i].bytes)
  {
    hide HeardBytes, StartsLow, Tolerable;
    if frames != [] {
      var front, last := frames[..|frames| - 1], frames[|frames| - 1];
      AllHeardExactly(front);
      HeardExactly(last.bytes);
      SameLengthConcat(AllHeard(front), HeardBytes(last.bytes), AllBytes(front), last.bytes);
      assert forall i | 0 <= i < |front| :: front[i] == frames[i];
    }
  }

  lemma SameLengthConcat(a: seq<Byte>, b: seq<Byte>, c: seq<Byte>, d: seq<Byte>)
    requires |a| == |c|
    ensures a + b == c + d <==> a == c && b == d
  {
    assert (a + b)[..|a|] == a && (a + b)[|a|..] == b;
    assert (c + d)[..|a|] == c && (c + d)[|a|..] == d;
  }
}
