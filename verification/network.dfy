/** A sending card, its own pin looped back to its monitor and receiver, and a card that listens
    to it with a clock of its own. No third card drives the line. */
module Network {
  import opened Bytes
  import opened Crc8
  import opened RingBuffers
  import opened Packets
  import opened Manchester
  import opened Monitors
  import opened Receivers
  import opened Transmitters
  import opened TransmissionRuns
  import opened Link
  import opened Deliveries
  import opened Messages

  datatype Card = Card(tx: Tx, st: Station) {
    predicate Valid() {
      tx.Valid() && st.rx.Valid()
    }
  }

  /** Between timer interrupts: time passes, or the main loop of main.c goes round once. */
  datatype Interlude = Ticks(n: nat) | Loop(c: Byte, rand: nat)

  function InterludeStep(card: Card, e: Interlude): (card': Card)
    requires card.Valid()
    ensures card'.Valid()
  {
    match e
    case Ticks(n) => card.(st := QuietStep(card.st, Wait(n)))
    case Loop(c, rand) => Card(TxMain(card.tx, card.st.mon.state, c, rand), QuietStep(card.st, Pass))
  }

  function Meanwhile(card: Card, es: seq<Interlude>): (card': Card)
    requires card.Valid()
    ensures card'.Valid()
  {
    if es == [] then card else InterludeStep(Meanwhile(card, es[..|es| - 1]), es[|es| - 1])
  }

  /** What the station sees of it. */
  function Seen(es: seq<Interlude>): (q: seq<Quiet>)
    ensures |q| == |es|
  {
    seq(|es|, i requires 0 <= i < |es| => match es[i] { case Ticks(n) => Wait(n) case Loop(_, _) => Pass })
  }

  function SeenAll(ess: seq<seq<Interlude>>): (qs: seq<seq<Quiet>>)
    ensures |qs| == |ess|
  {
    seq(|ess|, i requires 0 <= i < |ess| => Seen(ess[i]))
  }

  /** TIM2 fires, if it runs, and the pin drives the line. */
  function Tick(card: Card): (card': Card)
    requires card.Valid()
    ensures card'.Valid()
  {
    var tx := Next(card.tx, Timer2(card.st.mon.state));
    Card(tx, Drive(card.st, tx.pin))
  }

  /** The state after k interrupts, each followed by what ess says. */
  function Ticked(card: Card, ess: seq<seq<Interlude>>, k: nat): (card': Card)
    requires card.Valid() && k <= |ess|
    ensures card'.Valid()
  {
    if k == 0 then card else Meanwhile(Tick(Ticked(card, ess, k - 1)), ess[k - 1])
  }

  lemma {:induction false} MeanwhileStation(card: Card, es: seq<Interlude>)
    requires card.Valid()
    ensures Meanwhile(card, es).st == Settle(card.st, Seen(es))
  {
    if es != [] {
      MeanwhileStation(card, es[..|es| - 1]);
      assert Seen(es)[..|es| - 1] == Seen(es[..|es| - 1]);
    }
  }

  /** While a frame is being sent the main loop leaves the transmitter alone. */
  lemma {:induction false} MeanwhileSending(card: Card, es: seq<Interlude>)
    requires card.Valid() && card.tx.inTransmission
    ensures Meanwhile(card, es).tx == card.tx
  {
    if es != [] {
      MeanwhileSending(card, es[..|es| - 1]);
    }
  }

  /** A station following a frame never sees a collision. */
  lemma NoCollision(st: Station, bits: seq<bool>, qs: seq<seq<Quiet>>, k: nat)
    requires Ready(st) && bits != [] && |qs| >= 2 * |bits| && k <= 2 * |bits| && AllTolerable(qs)
    ensures var m := After(st, Line(bits), qs, k).mon; m.state != MS_COLLISION
  {
    hide Hold, TakeAll;
    if k >= Unseen(bits) {
      UnseenHalfBit(st, bits, qs);
      FollowFrame(st, After(st, Line(bits), qs, Unseen(bits)), bits, qs, k);
    }
  }

  /** Not at any point while a level is held. */
  lemma {:induction false} NoCollisionWithin(st: Station, bits: seq<bool>, qs: seq<seq<Quiet>>, k: nat, i: nat)
    requires Ready(st) && bits != [] && |qs| >= 2 * |bits| && k < 2 * |bits| && AllTolerable(qs) && i <= |qs[k]|
    ensures Hold(After(st, Line(bits), qs, k), Line(bits)[k], qs[k][..i]).mon.state != MS_COLLISION
  {
    hide Line, Settle, Tolerable, RxOnEdge;
    NoCollision(st, bits, qs, k);
    NoCollision(st, bits, qs, k + 1);
    NoCollisionBefore(Drive(After(st, Line(bits), qs, k), Line(bits)[k]), qs[k], i);
  }

  /** The k-th interrupt of a sole sender has driven the k-th half-bit. */
  predicate Sending(card: Card, bits: seq<bool>, ess: seq<seq<Interlude>>, k: nat, now: Card)
    requires card.Valid() && k <= 2 * |bits| <= |ess|
  {
    && now.Valid() && Invariant(now.tx)
    && now.tx.inTransmission && !now.tx.retransmissionTimeoutActive && now.tx.buf == card.tx.buf
    && Position(now.tx) == k && now.tx.transmissionComplete == card.tx.transmissionComplete
    && (k > 0 ==> now.tx.pin == Line(bits)[k - 1])
    && now.tx.gotMessage == card.tx.gotMessage && now.tx.dataCur == card.tx.dataCur && SameConfig(card.tx, now.tx)
    && now.st == After(card.st, Line(bits), SeenAll(ess), k)
  }

  lemma SenderTicks(tx: Tx, ms: MonitorState)
    requires Invariant(tx) && tx.inTransmission && !tx.retransmissionTimeoutActive && ms != MS_COLLISION
    requires Position(tx) < 8 * |tx.buf|
    ensures var tx' := Next(tx, Timer2(ms));
            && Invariant(tx') && tx'.inTransmission && !tx'.retransmissionTimeoutActive && tx'.buf == tx.buf
            && Position(tx') == Position(tx) + 1 && tx'.pin == BitsOf(tx.buf)[Position(tx)]
            && tx'.transmissionComplete == tx.transmissionComplete && SameConfig(tx, tx')
            && tx'.gotMessage == tx.gotMessage && tx'.dataCur == tx.dataCur
  {
    hide BitsOf, Bits, Position;
    InvariantKept(tx, Timer2(ms));
    DrivenPin(tx);
    DrivenPosition(tx);
  }

  lemma SendingStep(card: Card, bits: seq<bool>, ess: seq<seq<Interlude>>, k: nat, now: Card)
    requires Ready(card.st) && card.Valid() && bits != [] && |ess| >= 2 * |bits| && AllTolerable(SeenAll(ess))
    requires BitsOf(card.tx.buf) == Line(bits)
    requires k < 2 * |bits| && Sending(card, bits, ess, k, now)
    ensures Sending(card, bits, ess, k + 1, Meanwhile(Tick(now), ess[k]))
    ensures Tick(now).st == Drive(now.st, Line(bits)[k])
  {
    hide Line, BitsOf, Drive, Settle, Bits, Seen, Next, Invariant;
    NoCollision(card.st, bits, SeenAll(ess), k);
    SenderTicks(now.tx, now.st.mon.state);
    MeanwhileSending(Tick(now), ess[k]);
    MeanwhileStation(Tick(now), ess[k]);
  }

  lemma {:induction false} SendingRun(card: Card, bits: seq<bool>, ess: seq<seq<Interlude>>, k: nat)
    requires card.Valid() && Ready(card.st) && Loaded(card.tx) && bits != []
    requires |ess| >= 2 * |bits| && AllTolerable(SeenAll(ess))
    requires BitsOf(card.tx.buf) == Line(bits) && k <= 2 * |bits|
    ensures Sending(card, bits, ess, k, Ticked(card, ess, k))
  {
    hide Line, BitsOf, Tick, Meanwhile, Tolerable, Invariant;
    if k > 0 {
      SendingRun(card, bits, ess, k - 1);
      SendingStep(card, bits, ess, k - 1, Ticked(card, ess, k - 1));
    }
  }

  /** A card about to send the frame of bs, its station ready, and what happens between the
      interrupts, which come at any tolerable distance (8000 ticks by the code). */
  predicate AboutToSend(card: Card, bs: seq<Byte>, ess: seq<seq<Interlude>>) {
    && card.Valid() && Ready(card.st) && Loaded(card.tx) && bs != [] && card.tx.buf == Encoded(bs)
    && |ess| == 16 * |bs| && AllTolerable(SeenAll(ess))
  }

  lemma NominalRateIsTolerable(es: seq<Interlude>)
    requires Duration(Seen(es)) == TRANSMISSION_TICKS
    ensures Tolerable(Seen(es)) && 2 * 1000 * Duration(Seen(es)) == 16_000_000
  {
  }

  /** The interrupt after the last half-bit. */
  function Done(card: Card, ess: seq<seq<Interlude>>): (done: Card)
    requires card.Valid()
    ensures done.Valid()
  {
    Tick(Ticked(card, ess, |ess|))
  }

  lemma DoneStops(card: Card, bs: seq<Byte>, ess: seq<seq<Interlude>>)
    requires AboutToSend(card, bs, ess)
    ensures var done := Done(card, ess);
            && !done.tx.inTransmission && done.tx.transmissionComplete && done.tx.pin
            && Invariant(done.tx) && SameConfig(card.tx, done.tx)
            && done.tx.gotMessage == card.tx.gotMessage && done.tx.dataCur == card.tx.dataCur
            && done.st == Drive(After(card.st, Line(BitsOf(bs)), SeenAll(ess), 16 * |bs|), true)
  {
    hide Line, BitsOf, After, Drive, Tolerable;
    EncodedBits(bs);
    SendingRun(card, BitsOf(bs), ess, 16 * |bs|);
    var last := Ticked(card, ess, |ess|);
    InvariantKept(last.tx, Timer2(last.st.mon.state));
  }

  /** The state of a sole sender's monitor when its frame is over. */
  lemma {:induction false} FrameOver(st: Station, bs: seq<Byte>, qs: seq<seq<Quiet>>)
    requires Ready(st) && bs != [] && |qs| == 16 * |bs| && AllTolerable(qs)
    ensures var high := Drive(After(st, Line(BitsOf(bs)), qs, 16 * |bs|), true);
            Resting(high) && high.mon.state == MS_BUSY
  {
    hide Line, BitsOf, Drive, Hold, TakeAll, After;
    var bits := BitsOf(bs);
    UnseenHalfBit(st, bits, qs);
    var f := After(st, Line(bits), qs, Unseen(bits));
    TakeCounts(f.rx.asm, Heard(bits));
    FrameReceived(st, f, bits, qs);
  }

  /** The station of a sole sender at any point between two interrupts. */
  lemma SendingWithin(card: Card, bs: seq<Byte>, ess: seq<seq<Interlude>>, k: nat, i: nat)
    requires AboutToSend(card, bs, ess) && k < 16 * |bs| && i <= |ess[k]|
    ensures Meanwhile(Tick(Ticked(card, ess, k)), ess[k][..i]).st.mon.state != MS_COLLISION
  {
    hide Line, BitsOf, Drive, TakeAll, After, Tolerable, Settle, Meanwhile, Next, Invariant;
    EncodedBits(bs);
    SendingRun(card, BitsOf(bs), ess, k);
    SendingStep(card, BitsOf(bs), ess, k, Ticked(card, ess, k));
    MeanwhileStation(Tick(Ticked(card, ess, k)), ess[k][..i]);
    assert Seen(ess[k][..i]) == SeenAll(ess)[k][..i];
    NoCollisionWithin(card.st, BitsOf(bs), SeenAll(ess), k, i);
  }

  /** Sole sender. With nobody else on the line and the pin looped back, the monitor reports no
      collision at any point, so no attempt is abandoned; every one of the 8 * put interrupts
      drives its half-bit; the next one ends the transmission; and once the line has been quiet for
      the timeout the monitor is idle again, whatever is typed meanwhile. */
  lemma {:induction false} SoleSender(card: Card, bs: seq<Byte>, ess: seq<seq<Interlude>>, k: nat, gap: seq<Interlude>)
    requires AboutToSend(card, bs, ess) && k <= 16 * |bs|
    ensures var now := Ticked(card, ess, k);
            && now.tx.inTransmission && now.tx.buf == card.tx.buf && 8 * now.tx.currByte + now.tx.currBit == k
            && now.st.mon.state != MS_COLLISION
            && (k > 0 ==> now.tx.pin == BitsOf(card.tx.buf)[k - 1])
            && (k < 16 * |bs| ==>
                  forall i | 0 <= i <= |ess[k]| :: Meanwhile(Tick(now), ess[k][..i]).st.mon.state != MS_COLLISION)
    ensures var done := Done(card, ess);
            && !done.tx.inTransmission && done.tx.transmissionComplete && done.tx.pin
            && done.st.mon.state == MS_BUSY
            && (Duration(Seen(gap)) >= SYSTICK_TICKS ==> Meanwhile(done, gap).st.mon.state == MS_IDLE)
  {
    hide Line, BitsOf, Drive, Hold, TakeAll, After, Tolerable, Settle, Tick, Driven, Started, Seen, Ticked;
    EncodedBits(bs);
    SendingRun(card, BitsOf(bs), ess, k);
    NoCollision(card.st, BitsOf(bs), SeenAll(ess), k);
    if k < 16 * |bs| {
      forall i | 0 <= i <= |ess[k]|
        ensures Meanwhile(Tick(Ticked(card, ess, k)), ess[k][..i]).st.mon.state != MS_COLLISION
      {
        SendingWithin(card, bs, ess, k, i);
      }
    }
    DoneStops(card, bs, ess);
    FrameOver(card.st, bs, SeenAll(ess));
    MeanwhileStation(Done(card, ess), gap);
    SettleResting(Done(card, ess).st, Seen(gap));
  }

  // ---- End to end ----

  /** The levels the sender's pin takes, interrupt by interrupt. */
  function Pins(card: Card, ess: seq<seq<Interlude>>): (pins: seq<bool>)
    requires card.Valid()
    ensures |pins| == |ess|
  {
    seq(|ess|, k requires 0 <= k < |ess| => Ticked(card, ess, k + 1).tx.pin)
  }

  lemma PinsAreTheFrame(card: Card, bs: seq<Byte>, ess: seq<seq<Interlude>>)
    requires AboutToSend(card, bs, ess)
    ensures Pins(card, ess) == Line(BitsOf(bs))
  {
    hide Line, BitsOf, Tick, Meanwhile, Tolerable, Invariant, Ticked;
    EncodedBits(bs);
    forall k | 0 <= k < |ess|
      ensures Pins(card, ess)[k] == Line(BitsOf(bs))[k]
    {
      SendingRun(card, BitsOf(bs), ess, k + 1);
    }
  }

  /** The listener hears the pin's levels for as long as qs says, then the released line for `gap`,
      and then its main loop goes round. */
  function Listener(b: Station, card: Card, ess: seq<seq<Interlude>>,
                    qs: seq<seq<Quiet>>, gap: seq<Quiet>): (b': Station)
    requires b.rx.Valid() && card.Valid() && |qs| == |ess|
    ensures b'.rx.Valid()
  {
    QuietStep(Hold(After(b, Pins(card, ess), qs, |ess|), Done(card, ess).tx.pin, gap), Pass)
  }

  lemma ListenerHears(card: Card, bs: seq<Byte>, ess: seq<seq<Interlude>>,
                      b: Station, qs: seq<seq<Quiet>>, gap: seq<Quiet>)
    requires AboutToSend(card, bs, ess) && b.rx.Valid() && |qs| == |ess|
    ensures Listener(b, card, ess, qs, gap) == QuietStep(Frame(b, BitsOf(bs), qs, gap), Pass)
  {
    hide Line, BitsOf, Drive, After, Tolerable, QuietStep, Done, Pins, Encoded, Invariant;
    PinsAreTheFrame(card, bs, ess);
    DoneStops(card, bs, ess);
  }

  /** End to end. Any message of 1 to 254 bytes loaded into a card in packet mode, sent by its timer
      interrupts, is shown by a listening card's main loop as one accepted packet with the same source,
      destination, length, message and checksum; each card's main loop may run at any point, and the
      two clocks may disagree within tolerance on every single half-bit. */
  lemma {:induction false} EndToEnd(card: Card, text: seq<Byte>, ess: seq<seq<Interlude>>,
                                    b: Station, qs: seq<seq<Quiet>>, gap: seq<Quiet>)
    requires 0 < |text| < PH_MSG_SIZE && card.tx.packetMode && AboutToSend(card, Payload(card.tx, text), ess)
    requires Ready(b) && b.rx.asm.queue == [] && b.rx.packetMode
    requires |qs| == |ess| && AllTolerable(qs) && Duration(gap) >= SYSTICK_TICKS
    ensures var b' := Listener(b, card, ess, qs, gap);
            && ShowsOneMore(b'.rx, b.rx)
            && ShowsMessage(b'.rx.inbox[|b.rx.inbox|], Message(card.tx.src, card.tx.dest, text))
            && Ready(b') && b'.rx.asm.queue == [] && b'.rx.packetMode
  {
    hide BitsOf, Tolerable, QuietStep, Frame, Listener, ShowsMessage, Encoded, Invariant, Crc;
    ListenerHears(card, Payload(card.tx, text), ess, b, qs, gap);
    PacketHeard(b, Message(card.tx.src, card.tx.dest, text), qs, gap);
  }

  // ---- Plain text ----

  /** What a listener in text mode hears is the text exactly when its first character is below 128. */
  lemma TextHeard(bs: seq<Byte>)
    requires bs != []
    ensures HeardBytes(bs) == bs <==> bs[0] < 128
    ensures HeardBytes(bs)[0] < 128
  {
    hide HeardBytes;
    HeardExactly(bs);
    FirstBit(bs);
    FirstBit(HeardBytes(bs));
    assert AllOnes(BitsOf(bs), 0);
  }

  /** What is printed of a text: the text, exactly when it has no NUL, was heard right, and a terminator
      came with it or happens to be behind it in the buffer. */
  lemma TextPrinted(r: Rx, tx: Tx, text: seq<Byte>)
    requires r.Valid() && !r.packetMode && !tx.packetMode && 0 < |text| < PH_MSG_SIZE
    ensures var heard := HeardBytes(Payload(tx, text));
            CString(Buffered(r, heard)) == text <==>
            text[0] < 128 && 0 !in text && (|text| < PH_MSG_SIZE - 1 || r.msgBuf[PH_MSG_SIZE - 1] == 0)
  {
    hide HeardBytes;
    var bs, n := Payload(tx, text), |text|;
    var buf := Buffered(r, HeardBytes(bs));
    TextHeard(bs);
    CStringPrefix(buf);
    if text[0] < 128 && 0 !in text {
      assert buf == text + buf[n..];
      CStringOf(text, buf[n..]);
    }
    if CString(buf) == text {
      assert buf[0] == text[0];
    }
  }

  /** End to end in text mode: the characters, and the terminator if there was room for it, arrive as one
      delivery; they are the ones sent exactly when the first is below 128, and what is printed is the
      text under the conditions of TextPrinted. */
  lemma {:induction false} TextEndToEnd(card: Card, text: seq<Byte>, ess: seq<seq<Interlude>>,
                                        b: Station, qs: seq<seq<Quiet>>, gap: seq<Quiet>)
    requires 0 < |text| < PH_MSG_SIZE && !card.tx.packetMode && AboutToSend(card, Payload(card.tx, text), ess)
    requires Ready(b) && b.rx.asm.queue == [] && !b.rx.packetMode
    requires |qs| == |ess| && AllTolerable(qs) && Duration(gap) >= SYSTICK_TICKS
    ensures var b' := Listener(b, card, ess, qs, gap);
            && ShowsOneMore(b'.rx, b.rx) && Ready(b') && b'.rx.asm.queue == [] && !b'.rx.packetMode
            && var d := b'.rx.inbox[|b.rx.inbox|];
               && d.Text? && (d.bytes == Payload(card.tx, text) <==> text[0] < 128)
               && (d.printed == text <==>
                     text[0] < 128 && 0 !in text && (|text| < PH_MSG_SIZE - 1 || b.rx.msgBuf[PH_MSG_SIZE - 1] == 0))
  {
    hide BitsOf, HeardBytes, Tolerable, QuietStep, Frame, Listener, Encoded, Invariant, Buffered;
    var bs := Payload(card.tx, text);
    ListenerHears(card, bs, ess, b, qs, gap);
    FrameDelivered(b, Sent(bs, qs, gap));
    TextHeard(bs);
    TextPrinted(b.rx, card.tx, text);
  }

  // ---- A terminator that is not there ----

  /** Texts drained together leave what they were in the buffer. */
  lemma TextsLeftBehind(st: Station, frames: seq<Sent>, q: seq<Quiet>)
    requires Ready(st) && st.rx.asm.queue == [] && !st.rx.packetMode && frames != [] && AllValid(frames)
    requires PH_MSG_SIZE <= |AllBytes(frames)| <= SIZEOF_PACKET && IdlePasses(Last(st, frames), q) > 0
    requires forall i: nat | i + 1 < |frames| :: !Separated(st, frames, i)
    ensures var st' := Settle(Last(st, frames), q);
            && Ready(st') && st'.rx.asm.queue == [] && !st'.rx.packetMode
            && st'.rx.msgBuf[PH_MSG_SIZE - 1] == AllHeard(frames)[PH_MSG_SIZE - 1]
  {
    hide Settle, Last, Passes, AllBytes, Sent.Valid, IdlePasses, Shelved, Busy;
    var s := Shelf(st.rx, AllHeard(frames));
    ShelvedTogether(st, frames);
    FramesHeld(st, frames);
    FramesShown(st, frames, q);
    ReadyAfterIdlePass(Last(st, frames), q);
    DrainedAtOnce(s, IdlePasses(Last(st, frames), q));
  }

  /** A text of 130 times the letter A, in a frame at the code's rate and with only just a pause behind. */
  function LongLine(): (f: Sent)
    ensures |f.bytes| == 131 && f.bytes[0] == 65 && f.bytes[123] == 65
  {
    Sent(seq(130, _ => 65) + [0], Uniform(TRANSMISSION_TICKS, 16 * 131), [Wait(HALFBIT_TIMEOUT_TICKS)])
  }

  lemma UniformIsTolerable(ticks: nat, n: nat)
    requires 4054 <= ticks <= 8106
    ensures AllTolerable(Uniform(ticks, n))
  {
    DurationOne(Wait(ticks));
  }

  lemma LongLineIsValid()
    ensures LongLine().Valid() && LongLine().gap == [Wait(HALFBIT_TIMEOUT_TICKS)]
    ensures LongLine().halfBits[0] == [Wait(TRANSMISSION_TICKS)]
  {
    hide Tolerable, Uniform;
    UniformIsTolerable(TRANSMISSION_TICKS, 16 * 131);
    DurationOne(Wait(HALFBIT_TIMEOUT_TICKS));
  }

  /** Two such lines, without a pass between them, and then any text of 254 characters: it arrives as it was
      sent, and something else is printed. */
  lemma StaleText(st: Station, tx: Tx, f: Sent)
    requires Ready(st) && st.rx.asm.queue == [] && !st.rx.packetMode && !tx.packetMode
    requires f.Valid() && |f.bytes| == PH_MSG_SIZE - 1 && f.bytes[0] < 128 && Duration(f.gap) >= SYSTICK_TICKS
    ensures var lines := [LongLine(), LongLine()];
            && AllValid(lines)
            && var b := Settle(Last(st, lines), [Wait(SYSTICK_TICKS), Pass]);
               var b' := QuietStep(Frame(b, BitsOf(f.bytes), f.halfBits, f.gap), Pass);
               && Payload(tx, f.bytes) == f.bytes && ShowsOneMore(b'.rx, b.rx)
               && var d := b'.rx.inbox[|b.rx.inbox|]; d.Text? && d.bytes == f.bytes && d.printed != f.bytes
  {
    hide Settle, Last, Sent.Valid, IdlePasses, Busy, LongLine, Frame, BitsOf, HeardBytes, Buffered, QuietStep;
    LongLineIsValid();
    TwoLongLines(st);
    var b := Settle(Last(st, [LongLine(), LongLine()]), [Wait(SYSTICK_TICKS), Pass]);
    FrameDelivered(b, f);
    TextHeard(f.bytes);
    TextPrinted(b.rx, tx, f.bytes);
  }

  lemma TwoLongLines(st: Station)
    requires Ready(st) && st.rx.asm.queue == [] && !st.rx.packetMode && LongLine().Valid()
    ensures var b := Settle(Last(st, [LongLine(), LongLine()]), [Wait(SYSTICK_TICKS), Pass]);
            Ready(b) && b.rx.asm.queue == [] && !b.rx.packetMode && b.rx.msgBuf[PH_MSG_SIZE - 1] == 65
  {
    hide Settle, Last, Sent.Valid, IdlePasses, Busy, LongLine, BitsOf, HeardBytes, Passes, AllBytes, AllHeard;
    var lines := [LongLine(), LongLine()];
    NotSeparated(st);
    LongLinesHeard();
    FramesHeld(st, lines);
    TimeoutThenPass(Last(st, lines));
    TextsLeftBehind(st, lines, [Wait(SYSTICK_TICKS), Pass]);
  }

  lemma LongLinesHeard()
    ensures var lines := [LongLine(), LongLine()];
            |AllBytes(lines)| == SIZEOF_PACKET && AllHeard(lines)[PH_MSG_SIZE - 1] == 65
  {
    hide LongLine, HeardBytes;
    var f, lines := LongLine(), [LongLine(), LongLine()];
    TextHeard(f.bytes);
    assert lines[..1] == [f] && [f][..0] == [];
    assert AllBytes([f]) == f.bytes && AllHeard([f]) == f.bytes;
  }

  lemma NotSeparated(st: Station)
    requires st.rx.Valid() && LongLine().Valid()
    ensures !Separated(st, [LongLine(), LongLine()], 0)
  {
    hide Last, Sent.Valid, IdlePasses, LongLine, StartsLow;
    var f, lines := LongLine(), [LongLine(), LongLine()];
    LongLineIsValid();
    NoPasses(Last(st, lines[..1]), f.gap + Lead(f));
  }

  lemma TimeoutThenPass(st: Station)
    requires Consistent(st) && st.line
    ensures IdlePasses(st, [Wait(SYSTICK_TICKS), Pass]) > 0
  {
    hide Settle, IdlePasses;
    DurationOne(Wait(SYSTICK_TICKS));
    QuietPass(st, [Wait(SYSTICK_TICKS)]);
    assert [Wait(SYSTICK_TICKS)] + [Pass] == [Wait(SYSTICK_TICKS), Pass];
  }
}
