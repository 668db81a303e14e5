/** How a message can appear twice, or never. */
module Endings {
  import opened Bytes
  import opened Crc8
  import opened RingBuffers
  import opened Packets
  import opened Manchester
  import opened Monitors
  import opened Receivers
  import opened Transmitters
  import opened TransmissionRuns
  import opened Link
  import opened Deliveries
  import opened Collisions
  import opened Messages
  import opened Network
  import opened Retries
  import opened Tears
  import opened Tales

  // ---- Undisturbed half-bits ----

  /** The first k half-bits of bits, at the code's rate, on a line that nobody else drives. */
  function Halves(bits: seq<bool>, k: nat): seq<Happening>
    requires k <= 2 * |bits|
  {
    if k == 0 then []
    else
      Halves(bits, k - 1)
      + [Interrupt(Line(bits)[k - 1]), Here(Ticks(TRANSMISSION_TICKS)), There(Wait(TRANSMISSION_TICKS))]
  }

  function Rate(n: nat): (ess: seq<seq<Interlude>>)
    ensures |ess| == n && forall i | 0 <= i < n :: ess[i] == [Ticks(TRANSMISSION_TICKS)]
  {
    seq(n, _ => [Ticks(TRANSMISSION_TICKS)])
  }

  /** A packet is about to be sent to a listener that is ready. */
  predicate AboutTo(t: Tale, m: Message) {
    && t.Valid() && m.Valid() && AboutToSend(t.now.card, m.Packet(), Rate(16 * |m.Packet()|))
    && Ready(t.now.b) && t.now.b.rx.asm.queue == [] && t.now.b.rx.packetMode
  }

  lemma MeanwhileOne(card: Card, n: nat)
    requires card.Valid()
    ensures Meanwhile(card, [Ticks(n)]) == card.(st := QuietStep(card.st, Wait(n)))
  {
    hide QuietStep;
    assert [Ticks(n)][..0] == [];
  }

  /** Both cards follow: the sender as a sole sender does, the listener as one that hears the half-bits. */
  lemma {:induction false} TellHalves(t: Tale, m: Message, k: nat)
    requires AboutTo(t, m) && k <= 16 * |m.Packet()|
    ensures var bits, ess := BitsOf(m.Packet()), Rate(16 * |m.Packet()|);
            var t' := TellAll(t, Halves(bits, k));
            && Sending(t.now.card, bits, ess, k, t'.now.card) && t'.now.card.st.mon.state != MS_COLLISION
            && t'.now.b == After(t.now.b, Line(bits), Uniform(TRANSMISSION_TICKS, 16 * |m.Packet()|), k)
  {
    hide Line, BitsOf, Tell, Message.Packet, Crc, Tolerable, QuietStep, Encoded, Busy, Sending, Drive, Rate, Uniform,
         Invariant;
    var bits, ess, n := BitsOf(m.Packet()), Rate(16 * |m.Packet()|), 16 * |m.Packet()|;
    PacketFits(m);
    EncodedBits(m.Packet());
    NoCollision(t.now.card.st, bits, SeenAll(ess), k);
    if k == 0 {
      SendingRun(t.now.card, bits, ess, 0);
    } else {
      TellHalves(t, m, k - 1);
      var t1 := TellAll(t, Halves(bits, k - 1));
      HalfBitTold(t, t1, m, k - 1);
      TellConcat(t, Halves(bits, k - 1),
                 [Interrupt(Line(bits)[k - 1]), Here(Ticks(TRANSMISSION_TICKS)), There(Wait(TRANSMISSION_TICKS))]);
    }
    SendingStation(t.now.card, bits, ess, k, TellAll(t, Halves(bits, k)).now.card);
  }

  lemma SendingStation(card: Card, bits: seq<bool>, ess: seq<seq<Interlude>>, k: nat, now: Card)
    requires card.Valid() && k <= 2 * |bits| <= |ess| && Sending(card, bits, ess, k, now)
    ensures now.st == After(card.st, Line(bits), SeenAll(ess), k)
  {
  }

  lemma HalfBitTold(t: Tale, t1: Tale, m: Message, k: nat)
    requires AboutTo(t, m) && k < 16 * |m.Packet()| && t1.Valid()
    requires Sending(t.now.card, BitsOf(m.Packet()), Rate(16 * |m.Packet()|), k, t1.now.card)
    ensures var bits, ess := BitsOf(m.Packet()), Rate(16 * |m.Packet()|);
            var level := Line(bits)[k];
            var t' := TellAll(t1, [Interrupt(level), Here(Ticks(TRANSMISSION_TICKS)), There(Wait(TRANSMISSION_TICKS))]);
            && Sending(t.now.card, bits, ess, k + 1, t'.now.card)
            && t'.now.b == Hold(t1.now.b, level, [Wait(TRANSMISSION_TICKS)])
  {
    hide Line, BitsOf, Tell, Message.Packet, Crc, Tolerable, QuietStep, Encoded, Busy, Sending, Drive, Next, Invariant;
    var bits, ess := BitsOf(m.Packet()), Rate(16 * |m.Packet()|);
    var level, n := Line(bits)[k], TRANSMISSION_TICKS;
    EncodedBits(m.Packet());
    TellThree(t1, Interrupt(level), Here(Ticks(n)), There(Wait(n)));
    TellInterrupt(t1, level);
    var t2 := Tell(t1, Interrupt(level));
    TellTicks(t2, n);
    TellThere(Tell(t2, Here(Ticks(n))), Wait(n));
    SendingStep(t.now.card, bits, ess, k, t1.now.card);
    MeanwhileOne(Tick(t1.now.card), n);
    SettleSnoc(Drive(t1.now.b, level), [], Wait(n));
    assert [] + [Wait(n)] == [Wait(n)];
  }

  lemma SettleSnoc(st: Station, q: seq<Quiet>, e: Quiet)
    requires st.rx.Valid()
    ensures Settle(st, q + [e]) == QuietStep(Settle(st, q), e)
  {
    hide QuietStep;
    assert (q + [e])[..|q|] == q;
  }

  // ---- A message that never appears ----

  /** The whole packet, then the line held low by somebody else while the sender finishes and until the
      listener's pass finds the collision; then the release, quiet, and a pass. */
  function LostRun(m: Message): seq<Happening>
    requires m.Valid()
  {
    Halves(BitsOf(m.Packet()), 16 * |m.Packet()|)
    + [Interrupt(false), There(Wait(SYSTICK_TICKS)), There(Pass)]
    + [Disturb(true), There(Wait(SYSTICK_TICKS)), There(Pass)]
  }

  lemma SettleTwo(st: Station, a: Quiet, b: Quiet)
    requires st.rx.Valid()
    ensures Settle(st, [a, b]) == QuietStep(QuietStep(st, a), b) && Settle(st, [a]) == QuietStep(st, a)
    ensures Duration([a, b]) == Duration([a]) + Duration([b])
  {
    hide QuietStep;
    SettleSnoc(st, [], a);
    SettleSnoc(st, [a], b);
    assert [] + [a] == [a] && [a] + [b] == [a, b];
    DurationConcat([a], [b]);
  }

  /** A pass behind the monitor's timeout finds the collision. */
  lemma CollisionFound(st: Station)
    requires Consistent(st) && !st.line
    ensures CollisionPasses(st, [Wait(SYSTICK_TICKS), Pass]) > 0
  {
    hide RxAfter;
    var w := Wait(SYSTICK_TICKS);
    assert [w, Pass][..1] == [w];
    SettleTwo(st, w, Pass);
  }

  /** What the release and the last pass of such a run are at the listener. */
  lemma TellRelease(t: Tale)
    requires t.Valid() && !t.now.b.line
    ensures var t' := TellAll(t, [Disturb(true), There(Wait(SYSTICK_TICKS)), There(Pass)]);
            t'.now.b == Released(t.now.b, [Wait(SYSTICK_TICKS)]) && t'.now.card.tx == t.now.card.tx
  {
    hide Tell, QuietStep, Drive;
    var w := Wait(SYSTICK_TICKS);
    TellThree(t, Disturb(true), There(w), There(Pass));
    TellDisturb(t, true);
    var t1 := Tell(t, Disturb(true));
    TellThere(t1, w);
    TellThere(Tell(t1, There(w)), Pass);
    SettleTwo(Drive(t.now.b, true), w, Pass);
  }

  /** The interrupt after the last half-bit completes the attempt, whatever the line does. */
  lemma CompletesAnyway(tx: Tx, buf: seq<Byte>, ms: MonitorState)
    requires SendingAt(tx, buf, 8 * |buf|)
    ensures var tx' := Next(tx, Timer2(ms)); !tx'.inTransmission && tx'.transmissionComplete
  {
  }

  lemma SendingIsSendingAt(card: Card, bits: seq<bool>, ess: seq<seq<Interlude>>, k: nat, now: Card)
    requires card.Valid() && k <= 2 * |bits| <= |ess| && Sending(card, bits, ess, k, now)
    ensures SendingAt(now.tx, card.tx.buf, k) && SameConfig(card.tx, now.tx)
  {
  }

  /** Completion is tested before collision, so a collision that begins with the last half-bits goes
      unnoticed by the sender: the attempt is complete, nothing will be sent again, and the listener, whose
      pass has found the collision, has shown nothing of the packet. */
  lemma {:induction false} CompletedButLost(t: Tale, m: Message)
    requires AboutTo(t, m)
    ensures var t' := TellAll(t, LostRun(m));
            && !Engaged(t'.now.card.tx)
            && SameDesk(t'.now.b.rx, t.now.b.rx) && Ready(t'.now.b) && t'.now.b.rx.asm.queue == []
  {
    hide Line, BitsOf, Tell, Message.Packet, Crc, Tolerable, QuietStep, Encoded, Busy, Sending, Drive, Next, Invariant,
         SendingAt, Halves, Released, CollisionPasses, TakeAll, Rate, Uniform;
    var n, bits := 16 * |m.Packet()|, BitsOf(m.Packet());
    var w, qs := Wait(SYSTICK_TICKS), Uniform(TRANSMISSION_TICKS, n);
    var x0, x1 := Halves(bits, n), [Interrupt(false), There(w), There(Pass)];
    PacketFits(m);
    TellHalves(t, m, n);
    var t1 := TellAll(t, x0);
    SendingIsSendingAt(t.now.card, bits, Rate(n), n, t1.now.card);
    CompletesAnyway(t1.now.card.tx, t.now.card.tx.buf, t1.now.card.st.mon.state);
    TellThree(t1, Interrupt(false), There(w), There(Pass));
    TellInterrupt(t1, false);
    var t2 := Tell(t1, Interrupt(false));
    TellThere(t2, w);
    TellThere(Tell(t2, There(w)), Pass);
    TellConcat(t, x0, x1);
    UniformIsTolerable(TRANSMISSION_TICKS, n);
    var torn := TornAfter(t.now.b, m, qs, 8 * |m.Packet()|);
    var a := TornState(t.now.b, m, qs, 8 * |m.Packet()|);
    SettleTwo(torn, w, Pass);
    DurationOne(w);
    CollisionFound(torn);
    WholeBytes(a, m);
    ConsistentSettles(torn, [w, Pass]);
    HeldLow(torn, [w, Pass], [w]);
    TellRelease(TellAll(t1, x1));
    TellConcat(t, x0 + x1, [Disturb(true), There(w), There(Pass)]);
  }

  lemma WholeBytes(a: Assembly, m: Message)
    requires a.Valid() && a.currBit == 0 && a.queue == [] && m.Valid()
    ensures var bits := BitsOf(m.Packet());
            var a' := TakeAll(a, bits[..8 * |m.Packet()|]);
            a'.queue == m.Packet() && |a'.queue| < SIZEOF_PACKET && Completed(a') == []
  {
    hide TakeAll, BitsOf, Message.Packet;
    PacketFits(m);
    TakePrefix(a, m.Packet(), 8 * |m.Packet()|);
  }

  // ---- A message that appears twice ----

  /** All but the last two bits of the packet; then somebody else pulls the line low in the first half of the
      last but one, just before its middle, and holds it until the sender, one half-bit short of the end,
      gives up. No pass of the listener comes before the release; then quiet, a pass, and the sender's
      back-off. */
  function TwiceRun(m: Message): seq<Happening>
    requires m.Valid()
  {
    Halves(BitsOf(m.Packet()), 16 * |m.Packet()| - 4)
    + [Interrupt(true), Here(Ticks(4060)), There(Wait(4060))]
    + [Disturb(false), Here(Ticks(3940)), There(Wait(3940)), Interrupt(false)]
    + [Here(Ticks(TRANSMISSION_TICKS)), There(Wait(200)), There(Wait(7800)), Interrupt(false)]
    + [Here(Ticks(TRANSMISSION_TICKS)), There(Wait(4000)), There(Wait(4000)), Interrupt(false)]
    + [Here(Ticks(4000)), There(Wait(4000)), Disturb(true)]
    + Retry()
  }

  /** The half-bits of that packet as the listener times them. */
  function TwiceTimes(n: nat): (qs: seq<seq<Quiet>>)
    requires n >= 4
    ensures |qs| == n
  {
    Uniform(TRANSMISSION_TICKS, n - 4) + [[Wait(4060)], [Wait(3940), Wait(200)]] + Uniform(TRANSMISSION_TICKS, 2)
  }

  lemma TwiceTimesFront(n: nat)
    requires n >= 4
    ensures forall i | 0 <= i < n - 4 :: TwiceTimes(n)[i] == Uniform(TRANSMISSION_TICKS, n)[i]
  {
  }

  lemma TwiceTimesTolerable(n: nat)
    requires n >= 4
    ensures AllTolerable(TwiceTimes(n))
  {
    UniformIsTolerable(TRANSMISSION_TICKS, n - 4);
    UniformIsTolerable(TRANSMISSION_TICKS, 2);
    DurationOne(Wait(4060));
    DurationOne(Wait(3940));
    DurationOne(Wait(200));
    assert [Wait(3940)] + [Wait(200)] == [Wait(3940), Wait(200)];
    DurationConcat([Wait(3940)], [Wait(200)]);
  }

  lemma {:induction false} AfterAlike(st: Station, levels: seq<bool>, qs: seq<seq<Quiet>>, qs': seq<seq<Quiet>>, k: nat)
    requires st.rx.Valid() && k <= |levels| && |levels| <= |qs| && |levels| <= |qs'|
    requires forall i | 0 <= i < k :: qs[i] == qs'[i]
    ensures After(st, levels, qs, k) == After(st, levels, qs', k)
  {
    hide Hold;
    if k > 0 {
      AfterAlike(st, levels, qs, qs', k - 1);
    }
  }

  /** The last two bits of a packet whose checksum is one more than a multiple of four. */
  lemma LastTwoBits(m: Message)
    requires m.Valid() && Crc(m.text) % 4 == 1
    ensures var bits, j := BitsOf(m.Packet()), 8 * |m.Packet()| - 2;
            !bits[j] && Line(bits)[2 * j] && !Line(bits)[2 * j + 1]
  {
    hide BitsOf, Crc, Bits, Line;
    var n := |m.Packet()|;
    BitAt(m.Packet(), n - 1, 6);
    LastButOneBit(Crc(m.text));
    LinePair(BitsOf(m.Packet()), 8 * n - 2);
  }

  lemma LastButOneBit(b: Byte)
    requires b % 4 == 1
    ensures !Bits(b)[6]
  {
    assert Word(b / 2, 7) == Word(b / 2 / 2, 6) + [b / 2 % 2 == 1];
    assert Bits(b) == Word(b / 2, 7) + [b % 2 == 1];
  }

  /** The byte 3 after k shifts, as long as no bit leaves the register. */
  lemma {:induction false} ThreeShifted(k: nat)
    requires k <= 6
    ensures Shifts(Bits(3), k) == seq(8, j requires 0 <= j < 8 => j == 6 - k || j == 7 - k)
  {
    if k == 0 {
      WordOfZero(0, 6);
      assert Bits(3) == Word(0, 6) + [true] + [true];
    } else {
      ThreeShifted(k - 1);
    }
  }

  /** Such checksums there are: that of the byte 3 is 9. */
  lemma SuchAMessage(src: Byte, dest: Byte)
    ensures Message(src, dest, [3]).Valid() && Crc([3]) % 4 == 1
  {
    hide Bits;
    var o := Bits(3);
    ThreeShifted(6);
    assert Shifts(o, 7) == seq(8, j requires 0 <= j < 8 => j == 0 || j >= 5);
    assert Shifts(o, 8) == seq(8, j requires 0 <= j < 8 => j == 4 || j == 7);
    assert Register([3]) == Shifts(Xor(Register([]), o), 8);
    assert Xor(Register([]), o) == o;
    NineIs();
    ByteOfBits(9);
  }

  lemma NineIs()
    ensures Bits(9) == seq(8, j requires 0 <= j < 8 => j == 4 || j == 7)
  {
    WordOfZero(0, 4);
    assert Word(2, 6) == Word(0, 4) + [true] + [false];
    assert Bits(9) == Word(2, 6) + [false] + [true];
  }

  /** The sender's half of such a run, and the listener's. */
  lemma TellTwice(t: Tale, m: Message)
    requires AboutTo(t, m) && Crc(m.text) % 4 == 1
    ensures var t', n := TellAll(t, TwiceRun(m)), 16 * |m.Packet()|;
            && Ready(t'.now.card.st) && Loaded(t'.rec.tx)
            && t'.rec.tx.buf == t.rec.tx.buf && SameConfig(t.rec.tx, t'.rec.tx)
            && t'.now.b == Released(Settle(TornAfter(t.now.b, m, TwiceTimes(n), 8 * |m.Packet()| - 1),
                                           [Wait(7800), Wait(4000)] + [Wait(4000), Wait(4000)]), [Wait(SYSTICK_TICKS)])
  {
    hide TellAll, Halves, Line, BitsOf, Message.Packet, SendingAt, Encoded, Crc, Invariant, Busy, RxMain, RxAfter,
         RxOnEdge, Sending, Loaded, QuietStep, Drive, Rate, After, Released, TornAfter;
    var n, bits, buf := 16 * |m.Packet()|, BitsOf(m.Packet()), t.now.card.tx.buf;
    PacketFits(m);
    var x0 := Halves(bits, n - 4);
    TellHalves(t, m, n - 4);
    var t0 := TellAll(t, x0);
    SendingIsSendingAt(t.now.card, bits, Rate(n), n - 4, t0.now.card);
    var x1 := [Interrupt(true), Here(Ticks(4060)), There(Wait(4060))];
    TellHigh(t0, 4060, buf, n - 4);
    TellConcat(t, x0, x1);
    var t1 := TellAll(t0, x1);
    var x2 := [Disturb(false), Here(Ticks(3940)), There(Wait(3940)), Interrupt(false)];
    TellPulled(t1, 3940, buf, n - 3);
    TellConcat(t, x0 + x1, x2);
    var t2 := TellAll(t1, x2);
    var x3 := [Here(Ticks(TRANSMISSION_TICKS)), There(Wait(200)), There(Wait(7800)), Interrupt(false)];
    DriveKeepsLine(t1.now.b, 3940);
    TellLow(t2, Wait(200), Wait(7800), 3940, buf, n - 2);
    TellConcat(t, x0 + x1 + x2, x3);
    var t3 := TellAll(t2, x3);
    var x4 := [Here(Ticks(TRANSMISSION_TICKS)), There(Wait(4000)), There(Wait(4000)), Interrupt(false)];
    TellLow(t3, Wait(4000), Wait(4000), 11940, buf, n - 1);
    TellConcat(t, x0 + x1 + x2 + x3, x4);
    var t4 := TellAll(t3, x4);
    var x5 := [Here(Ticks(4000)), There(Wait(4000)), Disturb(true)];
    TellReleased(t4, Wait(4000));
    TellConcat(t, x0 + x1 + x2 + x3 + x4, x5);
    var t5 := TellAll(t4, x5);
    TellRetry(t5);
    TellConcat(t, x0 + x1 + x2 + x3 + x4 + x5, Retry());
    assert TwiceRun(m) == x0 + x1 + x2 + x3 + x4 + x5 + Retry();
    TwiceListener(t.now.b, m, Line(bits), n);
    TwiceReleased(TwiceHeld(t0.now.b));
  }

  lemma DriveKeepsLine(st: Station, x: nat)
    requires st.rx.Valid()
    ensures !QuietStep(Drive(st, false), Wait(x)).line
  {
  }

  /** The steps of the listener in such a run, from the last half-bit but four until the line is low. */
  function TwiceHeld(b0: Station): (st: Station)
    requires b0.rx.Valid()
    ensures st.rx.Valid()
  {
    QuietStep(QuietStep(Drive(QuietStep(Drive(b0, true), Wait(4060)), false), Wait(3940)), Wait(200))
  }

  lemma HoldSteps(b0: Station)
    requires b0.rx.Valid()
    ensures Hold(Hold(b0, true, [Wait(4060)]), false, [Wait(3940), Wait(200)]) == TwiceHeld(b0) && !TwiceHeld(b0).line
  {
    hide RxOnEdge, RxAfter, Settle;
    SettleTwo(Drive(b0, true), Wait(4060), Pass);
    SettleTwo(Drive(Hold(b0, true, [Wait(4060)]), false), Wait(3940), Wait(200));
  }

  lemma FourWaits(st: Station, w: Quiet, w': Quiet)
    requires st.rx.Valid()
    ensures Settle(st, [w, w'] + [w', w']) == QuietStep(QuietStep(QuietStep(QuietStep(st, w), w'), w'), w')
  {
    hide QuietStep, Settle;
    SettleTwo(st, w, w');
    SettleTwo(Settle(st, [w, w']), w', w');
    SettleConcat(st, [w, w'], [w', w']);
  }

  lemma TwiceFront(b: Station, levels: seq<bool>, n: nat)
    requires b.rx.Valid() && |levels| == n >= 4
    ensures After(b, levels, Uniform(TRANSMISSION_TICKS, n), n - 4) == After(b, levels, TwiceTimes(n), n - 4)
  {
    hide TwiceTimes, Uniform, After;
    TwiceTimesFront(n);
    AfterAlike(b, levels, Uniform(TRANSMISSION_TICKS, n), TwiceTimes(n), n - 4);
  }

  lemma TwiceFollowed(b: Station, levels: seq<bool>, n: nat)
    requires b.rx.Valid() && |levels| == n >= 4 && levels[n - 4] && !levels[n - 3]
    ensures var held := TwiceHeld(After(b, levels, Uniform(TRANSMISSION_TICKS, n), n - 4));
            After(b, levels, TwiceTimes(n), n - 2) == held == Drive(held, false) && !held.line
  {
    hide Hold, Uniform, TwiceHeld;
    TwiceFront(b, levels, n);
    HoldSteps(After(b, levels, TwiceTimes(n), n - 4));
  }

  lemma TwiceListener(b: Station, m: Message, levels: seq<bool>, n: nat)
    requires b.rx.Valid() && m.Valid() && Crc(m.text) % 4 == 1 && levels == Line(BitsOf(m.Packet()))
    requires n == 16 * |m.Packet()| == |levels| && n >= 4
    ensures TornAfter(b, m, TwiceTimes(n), 8 * |m.Packet()| - 1)
         == TwiceHeld(After(b, levels, Uniform(TRANSMISSION_TICKS, n), n - 4))
  {
    hide Line, BitsOf, Message.Packet, Crc, TwiceHeld, TwiceTimes, Uniform, After, Drive;
    LastTwoBits(m);
    TwiceFollowed(b, levels, n);
  }

  lemma TwiceReleased(st: Station)
    requires st.rx.Valid()
    ensures QuietStep(QuietStep(Drive(QuietStep(QuietStep(QuietStep(QuietStep(st, Wait(7800)), Wait(4000)), Wait(4000)),
                                                Wait(4000)), true), Wait(SYSTICK_TICKS)), Pass)
         == Released(Settle(st, [Wait(7800), Wait(4000)] + [Wait(4000), Wait(4000)]), [Wait(SYSTICK_TICKS)])
  {
    hide QuietStep, Drive, Settle;
    FourWaits(st, Wait(7800), Wait(4000));
    var held := Settle(st, [Wait(7800), Wait(4000)] + [Wait(4000), Wait(4000)]);
    SettleTwo(Drive(held, true), Wait(SYSTICK_TICKS), Pass);
  }

  lemma TwiceHold(st: Station)
    requires Consistent(st) && !st.line
    ensures var hold := [Wait(7800), Wait(4000)] + [Wait(4000), Wait(4000)];
            Duration(hold) >= SYSTICK_TICKS && CollisionPasses(st, hold) == 0
  {
    hide Settle;
    var w, w' := Wait(7800), Wait(4000);
    SettleTwo(st, w, w');
    SettleTwo(st, w', w');
    DurationConcat([w, w'], [w', w']);
    DurationOne(w);
    DurationOne(w');
    NoPassNoCollisionPass(st, [w, w'] + [w', w']);
  }

  lemma {:induction false} NoPassNoCollisionPass(st: Station, q: seq<Quiet>)
    requires st.rx.Valid() && Pass !in q
    ensures CollisionPasses(st, q) == 0
  {
    hide Settle;
    if q != [] {
      assert q[|q| - 1] in q;
      NoPassNoCollisionPass(st, q[..|q| - 1]);
    }
  }

  /** The listener takes the release for the one bit that is missing, and shows the packet, accepted; the
      sender has given up, and tries again; and the message is shown again. So a message can appear twice,
      if its checksum ends in 0, 1. */
  lemma {:induction false} MessageAppearsTwice(t: Tale, m: Message, ess: seq<seq<Interlude>>,
                                               qs: seq<seq<Quiet>>, gap: seq<Quiet>)
    requires AboutTo(t, m) && Crc(m.text) % 4 == 1 && t.now.card.tx.packetMode
    requires m.src == t.now.card.tx.src && m.dest == t.now.card.tx.dest
    requires |ess| == |qs| == 16 * |m.Packet()| && AllTolerable(SeenAll(ess)) && AllTolerable(qs)
    requires Duration(gap) >= SYSTICK_TICKS
    ensures var now := TellAll(t, TwiceRun(m)).now;
            && Engaged(now.card.tx) && ShowsNow(now.b.rx, t.now.b.rx, m)
            && ShowsNow(Listener(now.b, now.card, ess, qs, gap).rx, now.b.rx, m)
  {
    hide Tell, TellAll, TwiceRun, Crc, Tolerable, Encoded, Busy, Released, Settle, TornAfter, TwiceTimes,
         CollisionPasses, ShowsMessage, Listener, Rate, BitsOf;
    var n, j := 16 * |m.Packet()|, 8 * |m.Packet()| - 1;
    var hold := [Wait(7800), Wait(4000)] + [Wait(4000), Wait(4000)];
    PacketFits(m);
    TellTwice(t, m);
    TwiceTimesTolerable(n);
    DurationOne(Wait(SYSTICK_TICKS));
    var a := TornState(t.now.b, m, TwiceTimes(n), j);
    TwiceHold(TornAfter(t.now.b, m, TwiceTimes(n), j));
    TornShownIff(t.now.b, m, TwiceTimes(n), j, hold, [Wait(SYSTICK_TICKS)]);
    var now := TellAll(t, TwiceRun(m)).now;
    ReleasedModeNow(TornAfter(t.now.b, m, TwiceTimes(n), j), hold, [Wait(SYSTICK_TICKS)]);
    assert m.Packet() == Payload(now.card.tx, m.text);
    EndToEnd(now.card, m.text, ess, now.b, qs, gap);
  }

  lemma ReleasedModeNow(st: Station, hold: seq<Quiet>, q: seq<Quiet>)
    requires st.rx.Valid()
    ensures Released(Settle(st, hold), q).rx.packetMode == st.rx.packetMode
  {
    hide Settle, Released;
    SettleMode(st, hold);
    ReleasedMode(Settle(st, hold), q, []);
    SettleNothing(Released(Settle(st, hold), q));
  }

  lemma SettleNothing(st: Station)
    requires st.rx.Valid()
    ensures Settle(st, []) == st
  {
  }
}
