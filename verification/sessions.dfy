/** Whole sessions: lines typed at one card, shown by another. */
module Sessions {
  import opened Bytes
  import opened Crc8
  import opened RingBuffers
  import opened Packets
  import opened Manchester
  import opened Monitors
  import opened Receivers
  import opened Transmitters
  import opened TransmissionRuns
  import opened Link
  import opened Deliveries
  import opened Messages
  import opened Network

  /** The characters typed in a stretch, one for each round of the main loop. */
  function Characters(es: seq<Interlude>): seq<Byte> {
    if es == [] then []
    else Characters(es[..|es| - 1]) + match es[|es| - 1] { case Ticks(_) => [] case Loop(c, _) => [c] }
  }

  /** One line from keyboard to screen. The sender: a line is typed, a carriage return follows, and
      after a pause the interrupts come. The listener: it waits, hears the half-bits for as long as
      its clock says, waits again, and its main loop goes round. */
  datatype Round = Round(typing: seq<Interlude>, rand: nat, pause: seq<Interlude>, ess: seq<seq<Interlude>>,
                         lead: seq<Quiet>, qs: seq<seq<Quiet>>, gap: seq<Quiet>) {
    function Keyed(): seq<Byte> {
      Characters(typing)
    }

    /** The card when the interrupts start. */
    function Sender(card: Card): (card': Card)
      requires card.Valid()
      ensures card'.Valid()
    {
      Meanwhile(InterludeStep(Meanwhile(card, typing), Loop(CR, rand)), pause)
    }

    /** The line does not start with a NUL, the carriage return comes on an idle line, and all
        timing is within tolerance. */
    predicate Valid(card: Card)
      requires card.Valid()
    {
      && CR !in Keyed() && Keyed() != [] && Keyed()[0] != 0
      && Meanwhile(card, typing).st.mon.state == MS_IDLE
      && |ess| == |qs| == 16 * (7 + |Kept(Keyed())|) && AllTolerable(SeenAll(ess)) && AllTolerable(qs)
      && Duration(gap) >= SYSTICK_TICKS
    }
  }

  /** A card at rest, with nothing typed yet. */
  predicate AtRest(card: Card) {
    card.Valid() && Collecting(card.tx, []) && card.tx.packetMode && Resting(card.st)
  }

  lemma {:induction false} LineCollected(card: Card, es: seq<Interlude>)
    requires AtRest(card) && CR !in Characters(es)
    ensures var card' := Meanwhile(card, es); Collecting(card'.tx, Characters(es)) && SameConfig(card.tx, card'.tx)
  {
    hide Collecting, Resting, TxMain;
    if es != [] {
      var front, e := es[..|es| - 1], es[|es| - 1];
      assert forall c | c in Characters(front) :: c in Characters(es);
      LineCollected(card, front);
      if e.Ticks? {
        assert Characters(es) == Characters(front);
      } else {
        var before := Meanwhile(card, front);
        CharacterCollected(before.tx, Characters(front), before.st.mon.state, e.c, e.rand);
      }
    }
  }

  lemma {:induction false} SenderLoads(card: Card, r: Round)
    requires AtRest(card) && r.Valid(card)
    ensures var s := r.Sender(card);
            && AboutToSend(s, Payload(card.tx, Kept(r.Keyed())), r.ess) && SameConfig(card.tx, s.tx)
            && !s.tx.gotMessage && s.tx.dataCur == 0
  {
    hide Encoded, Crc, TxMain, Invariant, Settle, Tolerable;
    var typed := Meanwhile(card, r.typing);
    LineCollected(card, r.typing);
    CarriageReturn(typed.tx, r.Keyed(), r.rand);
    var loaded := InterludeStep(typed, Loop(CR, r.rand));
    MeanwhileSending(loaded, r.pause);
    MeanwhileStation(card, r.typing);
    SettleResting(card.st, Seen(r.typing));
    MeanwhileStation(loaded, r.pause);
    Stabilises(typed.st, Seen(r.pause));
  }

  datatype Pair = Pair(card: Card, listener: Station) {
    predicate Valid() {
      AtRest(card) && Ready(listener) && listener.rx.asm.queue == [] && listener.rx.packetMode
    }
  }

  function PlayRound(p: Pair, r: Round): (p': Pair)
    requires p.card.Valid() && p.listener.rx.Valid() && |r.ess| == |r.qs|
    ensures p'.card.Valid() && p'.listener.rx.Valid()
  {
    var s := r.Sender(p.card);
    Pair(Done(s, r.ess), Listener(Settle(p.listener, r.lead), s, r.ess, r.qs, r.gap))
  }

  lemma {:induction false} RoundShown(p: Pair, r: Round)
    requires p.Valid() && r.Valid(p.card)
    ensures var p' := PlayRound(p, r);
            && p'.Valid() && SameConfig(p.card.tx, p'.card.tx)
            && ShowsOneMore(p'.listener.rx, p.listener.rx)
            && ShowsMessage(p'.listener.rx.inbox[|p.listener.rx.inbox|],
                            Message(p.card.tx.src, p.card.tx.dest, Kept(r.Keyed())))
  {
    hide Listener, ShowsMessage, Encoded, Crc, TxMain, Settle, Drive, After, Tolerable;
    var s, text := r.Sender(p.card), Kept(r.Keyed());
    SenderLoads(p.card, r);
    EmptySettles(p.listener, r.lead);
    SettleResting(p.listener, r.lead);
    EndToEnd(s, text, r.ess, Settle(p.listener, r.lead), r.qs, r.gap);
    DoneStops(s, Payload(s.tx, text), r.ess);
    FrameOver(s.st, Payload(s.tx, text), SeenAll(r.ess));
  }

  function Play(p: Pair, rounds: seq<Round>): (p': Pair)
    requires p.card.Valid() && p.listener.rx.Valid() && forall r | r in rounds :: |r.ess| == |r.qs|
    ensures p'.card.Valid() && p'.listener.rx.Valid()
  {
    if rounds == [] then p else PlayRound(Play(p, rounds[..|rounds| - 1]), rounds[|rounds| - 1])
  }

  /** Every round is valid for the card as the rounds before it left it. */
  predicate AllRoundsValid(p: Pair, rounds: seq<Round>)
    requires p.card.Valid() && p.listener.rx.Valid()
  {
    && (forall r | r in rounds :: |r.ess| == |r.qs|)
    && forall i | 0 <= i < |rounds| :: rounds[i].Valid(Play(p, rounds[..i]).card)
  }

  lemma {:induction false} FrontRounds(p: Pair, rounds: seq<Round>)
    requires p.Valid() && rounds != [] && AllRoundsValid(p, rounds)
    ensures var front, r := rounds[..|rounds| - 1], rounds[|rounds| - 1];
            AllRoundsValid(p, front) && r.Valid(Play(p, front).card)
  {
    hide Play, AtRest, Ready, Round.Valid;
    var front := rounds[..|rounds| - 1];
    forall i | 0 <= i < |front|
      ensures front[..i] == rounds[..i]
    {
    }
  }

  /** The messages of the rounds. */
  function AllTyped(tx: Tx, rounds: seq<Round>): (ms: seq<Message>)
    ensures |ms| == |rounds|
  {
    seq(|rounds|, i requires 0 <= i < |rounds| => Message(tx.src, tx.dest, Kept(rounds[i].Keyed())))
  }

  /** From keyboard to screen, over a whole session: any number of lines typed at one card are shown
      by the other, each once, each whole, in order, whatever the two main loops do meanwhile and
      however the clocks drift within tolerance. */
  lemma {:induction false} SessionShown(p: Pair, rounds: seq<Round>)
    requires p.Valid() && AllRoundsValid(p, rounds)
    ensures var p' := Play(p, rounds);
            && p'.Valid() && SameConfig(p.card.tx, p'.card.tx)
            && ShownInOrder(p'.listener.rx.inbox, p.listener.rx.inbox, AllTyped(p.card.tx, rounds))
  {
    hide PlayRound, ShowsMessage, Kept, Round.Valid, Round.Keyed, Collecting, Busy;
    if rounds != [] {
      var front, r := rounds[..|rounds| - 1], rounds[|rounds| - 1];
      FrontRounds(p, rounds);
      SessionShown(p, front);
      var q := Play(p, front);
      RoundShown(q, r);
      assert AllTyped(p.card.tx, rounds)[..|rounds| - 1] == AllTyped(p.card.tx, front);
      ShownOneMore(q.listener.rx.inbox, PlayRound(q, r).listener.rx.inbox, p.listener.rx.inbox,
                   AllTyped(p.card.tx, rounds));
    }
  }

  // ---- Where sessions start ----

  /** The modules of a card as their initialisation leaves them. */
  method Initialise(src: Byte, dest: Byte, packetMode: bool)
    returns (monitor: Monitor, transmitter: Transmitter, receiver: Receiver)
    ensures transmitter.monitor == monitor == receiver.monitor && transmitter.Valid() && receiver.Valid()
    ensures fresh(monitor) && fresh(transmitter) && fresh(receiver)
    ensures fresh(receiver.receiveBuf) && fresh(receiver.receiveBuf.buffer)
    ensures receiver.receiveBuf != transmitter.transBuf
    ensures receiver.receiveBuf.buffer !in {transmitter.codec.table, transmitter.transBuf.buffer,
                                            transmitter.pkt.msg, transmitter.dataBuf}
    ensures Initial(transmitter.State()) && transmitter.packetMode == packetMode
    ensures transmitter.src == src && transmitter.dest == dest
    ensures Unused(receiver.State()) && receiver.packetMode == packetMode
  {
    var codec := new PacketCodec();
    monitor := new Monitor();
    transmitter := new Transmitter(monitor, codec, src, dest, packetMode);
    receiver := new Receiver(monitor, codec, packetMode);
  }

  predicate Initial(tx: Tx) {
    && tx.Valid() && tx.buf == [] && tx.currBit == 0 && tx.currByte == 0 && !tx.inTransmission
    && tx.transmissionComplete && !tx.retransmissionTimeoutActive && !tx.gotMessage && tx.dataCur == 0
    && tx.tim2 == Tim2(true, 0, TRANSMISSION_TICKS) && tx.pkt == NoPacket()
  }

  predicate Unused(r: Rx) {
    && r.Valid() && r.sample && r.asm.currBit == 0 && r.asm.queue == [] && r.inbox == []
    && r.pkt == NoPacket() && r.msgBuf[254] == 0
  }

  /** Initialisation, and the first interrupt of the transmission timer: it finds nothing to send, stops
      the timer and raises the pin, which the card's own receiver takes for the middle of a bit. */
  method PowerUp(src: Byte, dest: Byte, packetMode: bool)
    returns (monitor: Monitor, transmitter: Transmitter, receiver: Receiver)
    ensures transmitter.monitor == monitor == receiver.monitor && transmitter.Valid() && receiver.Valid()
    ensures Fresh(transmitter.State()) && transmitter.packetMode == packetMode
    ensures transmitter.src == src && transmitter.dest == dest && transmitter.pkt.State() == NoPacket()
    ensures PoweredUp(Station(transmitter.pin, monitor.State(), receiver.State()), packetMode)
  {
    hide OnTim2, OnEdge, RxOnEdge, Fresh, PoweredUp, Initial, Unused;
    monitor, transmitter, receiver := Initialise(src, dest, packetMode);
    FirstInterrupt(transmitter.State(), monitor.State(), receiver.State());
    transmitter.Tim2Handler();
    receiver.ExtiHandler(transmitter.pin);
  }

  lemma FirstInterrupt(tx: Tx, m: Mon, r: Rx)
    requires Initial(tx) && Unused(r)
    ensures var tx' := OnTim2(tx, m.state);
            Fresh(tx') && tx'.packetMode == tx.packetMode && tx'.pin && tx'.pkt == NoPacket()
    ensures PoweredUp(Station(true, OnEdge(m, true), RxOnEdge(r, true)), r.packetMode)
  {
  }

  /** A station that has seen nothing but the line's first rise. */
  predicate PoweredUp(st: Station, packetMode: bool) {
    && Consistent(st) && st.line && st.mon.state == MS_BUSY && st.rx.asm.currBit == 1 && st.rx.asm.queue == []
    && st.rx.inbox == [] && st.rx.packetMode == packetMode
    && st.rx.pkt == NoPacket() && st.rx.msgBuf[254] == 0
  }

  /** Once the line has been quiet for the monitor's timeout, one pass forgets that bit: the card is where
      sessions and runs start, with nothing shown. */
  lemma PowerUpSettles(tx: Tx, st: Station, q: seq<Quiet>, packetMode: bool)
    requires Fresh(tx) && tx.packetMode == packetMode && PoweredUp(st, packetMode) && Duration(q) >= SYSTICK_TICKS
    ensures var st' := QuietStep(Settle(st, q), Pass);
            && Ready(st') && st'.rx.asm.queue == [] && st'.rx.inbox == [] && st'.rx.packetMode == packetMode
            && st'.rx.pkt == NoPacket() && st'.rx.msgBuf[254] == 0
            && Sound(Record(tx, [], [], [])) && (packetMode ==> AtRest(Card(tx, st')))
  {
    hide Settle, QuietStep, IdlePasses, Busy;
    QuietPass(st, q);
    EmptySettles(st, q + [Pass]);
    RunsAreSound(tx, []);
  }

  /** A round at the code's own rate: one letter, after the line has been quiet. */
  function OneLetter(): Round {
    Round([Ticks(SYSTICK_TICKS), Loop(65, 0)], 0, [], seq(16 * 8, _ => [Ticks(TRANSMISSION_TICKS)]),
          [], Uniform(TRANSMISSION_TICKS, 16 * 8), [Wait(SYSTICK_TICKS)])
  }

  /** So there is a session of any length between any two cards at rest. */
  lemma {:induction false} SessionExists(p: Pair, n: nat)
    requires p.Valid()
    ensures AllRoundsValid(p, seq(n, _ => OneLetter()))
  {
    hide PlayRound, OneLetter, Round.Valid, Busy, Collecting;
    var rounds := seq(n, _ => OneLetter());
    OneLetterIsValid(p);
    forall i: nat | i < n
      ensures rounds[i].Valid(Play(p, rounds[..i]).card)
    {
      var front := seq(i, _ => OneLetter());
      assert rounds[..i] == front;
      SessionExists(p, i);
      SessionShown(p, front);
      OneLetterIsValid(Play(p, front));
    }
  }

  lemma OneLetterIsValid(p: Pair)
    requires p.Valid()
    ensures OneLetter().Valid(p.card) && |OneLetter().ess| == |OneLetter().qs|
  {
    hide Settle, QuietStep, InterludeStep, Busy, Collecting, IdlePasses;
    var r := OneLetter();
    LetterTyped();
    DurationOne(Wait(SYSTICK_TICKS));
    DurationOne(Wait(TRANSMISSION_TICKS));
    forall i | 0 <= i < |r.ess|
      ensures Tolerable(SeenAll(r.ess)[i])
    {
      assert Seen(r.ess[i]) == [Wait(TRANSMISSION_TICKS)];
      NominalRateIsTolerable(r.ess[i]);
    }
    NominalRateIsTolerable([Ticks(TRANSMISSION_TICKS)]);
    MeanwhileStation(p.card, r.typing);
    assert Seen(r.typing) == [Wait(SYSTICK_TICKS)] + [Pass];
    QuietPass(p.card.st, [Wait(SYSTICK_TICKS)]);
  }

  lemma LetterTyped()
    ensures OneLetter().Keyed() == [65]
  {
    var typing := OneLetter().typing;
    assert typing[..1] == [Ticks(SYSTICK_TICKS)] && typing[..1][..0] == [];
    assert Characters(typing[..1]) == [];
  }
}
