/** The transmitter over whole runs: any interleaving of timer interrupts and main-loop passes,
    whatever the monitor reports and whatever is typed. */
module TransmissionRuns {
  import opened Bytes
  import opened Crc8
  import opened Packets
  import opened Manchester
  import opened Monitors
  import opened Transmitters

  datatype Event = Timer2(ms: MonitorState) | Main(ms: MonitorState, c: Byte, rand: nat)

  /** The timer interrupt happens only while the timer runs. */
  function Next(tx: Tx, e: Event): (tx': Tx)
    requires tx.Valid()
    ensures tx'.Valid()
  {
    match e
    case Timer2(ms) => if tx.tim2.running then OnTim2(tx, ms) else tx
    case Main(ms, c, rand) => TxMain(tx, ms, c, rand)
  }

  /** A message is being sent, or waits to be sent again. */
  predicate Engaged(tx: Tx) {
    tx.inTransmission || !tx.transmissionComplete
  }

  /** What every step keeps. */
  predicate Invariant(tx: Tx) {
    && tx.Valid() && |tx.buf| <= 522
    && tx.tim2.running == tx.inTransmission
    && (tx.retransmissionTimeoutActive ==>
          tx.inTransmission && !tx.transmissionComplete && tx.currByte == 0 && tx.currBit == 0)
    && (tx.currByte == |tx.buf| ==> tx.currBit == 0)
    && (!Engaged(tx) ==> tx.currBit == 0 && tx.currByte == |tx.buf|)
    && (Engaged(tx) ==> tx.buf != [])
    && (tx.retransmissionTimeoutActive ==> tx.tim2.prescaler == 16000 && tx.tim2.reload < 1000)
    && (!tx.retransmissionTimeoutActive ==> tx.tim2.prescaler == 0 && tx.tim2.reload == TRANSMISSION_TICKS)
    && (!tx.inTransmission ==> tx.pin)
    && (tx.gotMessage ==> tx.dataCur > 0)
  }

  /** The state after the first timer interrupt has found nothing to send. */
  predicate Fresh(tx: Tx) {
    && tx.Valid() && tx.buf == [] && tx.currBit == 0 && tx.currByte == 0
    && !tx.inTransmission && tx.transmissionComplete && !tx.retransmissionTimeoutActive
    && tx.tim2 == Tim2(false, 0, TRANSMISSION_TICKS) && tx.pin && !tx.gotMessage && tx.dataCur == 0
  }

  /** The bytes that go on the line for a message. */
  function Payload(tx: Tx, text: seq<Byte>): (p: seq<Byte>)
    requires |text| < PH_MSG_SIZE
  {
    if tx.packetMode then [0x55, 0x01, tx.src, tx.dest, |text|, 1] + text + [Crc(text)]
    else if |text| < PH_MSG_SIZE - 1 then text + [0]
    else text
  }

  lemma {:induction false} LaunchSendsPayload(tx: Tx)
    requires tx.Valid()
    ensures var tx' := Launched(tx);
            && tx'.buf == Encoded(Payload(tx, tx.Collected())) && tx'.inTransmission && tx'.tim2.running
            && tx' == tx.(buf := tx'.buf, currByte := 0, gotMessage := false, inTransmission := true,
                          tim2 := tx.tim2.(running := true), dataBuf := tx'.dataBuf, dataCur := 0, pkt := tx'.pkt)
            && tx'.dataBuf[0] == 0 && (!tx.packetMode ==> tx'.pkt == tx.pkt)
  {
    hide Encoded, Crc, Wire;
    if tx.packetMode {
      var p := Created(tx.pkt, tx.src, tx.dest, true, tx.Collected());
      TerminatedSameWire(p);
      WireOfCreate(tx.pkt, tx.src, tx.dest, true, tx.Collected());
    }
  }

  lemma {:induction false} InvariantKept(tx: Tx, e: Event)
    requires Invariant(tx)
    ensures Invariant(Next(tx, e))
  {
    hide Launched;
    if e.Main? && !Engaged(tx) {
      var t := Typed(tx, e.c);
      if e.ms == MS_IDLE && t.gotMessage {
        LaunchSendsPayload(t);
      }
    }
  }

  // ---- What an observer of the pin records ----

  /** Which of the kinds of step a transmitter can take. */
  datatype Kind = Accepts | Completes | Aborts | Drives | Rests

  function KindOf(tx: Tx, e: Event): Kind
    requires tx.Valid()
  {
    var tx' := Next(tx, e);
    if e.Main? && !Engaged(tx) && Engaged(tx') then Accepts
    else if tx.inTransmission && !tx'.inTransmission then
      if tx'.transmissionComplete then Completes else Aborts
    else if e.Timer2? && tx.inTransmission && !tx.retransmissionTimeoutActive then Drives
    else Rests
  }

  /** One attempt at sending: what was in the buffer, the half-bits driven, and how it ended. */
  datatype Attempt = Attempt(frame: seq<Byte>, halfBits: seq<bool>, completed: bool)

  /** The transmitter, the half-bits of the current attempt, the attempts that have ended, and the
      messages accepted from the UART. */
  datatype Record = Record(tx: Tx, aired: seq<bool>, log: seq<Attempt>, accepted: seq<seq<Byte>>)

  function Observe(rec: Record, e: Event): (rec': Record)
    requires rec.tx.Valid()
    ensures rec'.tx == Next(rec.tx, e) && rec'.tx.Valid()
  {
    var tx' := Next(rec.tx, e);
    match KindOf(rec.tx, e)
    case Accepts => Record(tx', [], rec.log, rec.accepted + [Typed(rec.tx, e.c).Collected()])
    case Completes => Record(tx', [], rec.log + [Attempt(rec.tx.buf, rec.aired, true)], rec.accepted)
    case Aborts => Record(tx', [], rec.log + [Attempt(rec.tx.buf, rec.aired, false)], rec.accepted)
    case Drives => Record(tx', rec.aired + [tx'.pin], rec.log, rec.accepted)
    case Rests => Record(tx', rec.aired, rec.log, rec.accepted)
  }

  function Run(rec: Record, events: seq<Event>): (rec': Record)
    requires rec.tx.Valid()
    ensures rec'.tx.Valid()
  {
    if events == [] then rec else Observe(Run(rec, events[..|events| - 1]), events[|events| - 1])
  }

  /** How many attempts of a log ran to the end. */
  function Completions(log: seq<Attempt>): nat {
    if log == [] then 0
    else Completions(log[..|log| - 1]) + if log[|log| - 1].completed then 1 else 0
  }

  /** The cursors as one count of half-bits. */
  function Position(tx: Tx): (p: nat)
    requires tx.Valid() && (tx.currByte == |tx.buf| ==> tx.currBit == 0)
    ensures p <= 8 * |tx.buf| && (p == 8 * |tx.buf| <==> tx.currByte == |tx.buf|)
  {
    8 * tx.currByte + tx.currBit
  }

  /** The half-bits of the buffer up to the cursors. */
  function Driving(tx: Tx): seq<bool>
    requires tx.Valid() && (tx.currByte == |tx.buf| ==> tx.currBit == 0)
  {
    BitsOf(tx.buf)[..Position(tx)]
  }

  /** An ended attempt drove a prefix of its frame, and all of it exactly when it completed. */
  predicate AttemptSound(a: Attempt) {
    a.halfBits <= BitsOf(a.frame) && (a.completed <==> a.halfBits == BitsOf(a.frame))
  }

  /** The i-th attempt sends the message whose turn it is: the first one not yet completed. */
  predicate LogSound(tx: Tx, log: seq<Attempt>, accepted: seq<seq<Byte>>)
    requires TextsSound(accepted)
  {
    forall i | 0 <= i < |log| ::
      && AttemptSound(log[i])
      && Completions(log[..i]) < |accepted|
      && log[i].frame == Encoded(Payload(tx, accepted[Completions(log[..i])]))
  }

  predicate TextsSound(accepted: seq<seq<Byte>>) {
    forall t | t in accepted :: 0 < |t| < PH_MSG_SIZE
  }

  predicate Sound(rec: Record) {
    && rec.tx.Valid() && Invariant(rec.tx) && TextsSound(rec.accepted) && LogSound(rec.tx, rec.log, rec.accepted)
    && rec.aired == (if rec.tx.inTransmission then Driving(rec.tx) else [])
    && |rec.accepted| == Completions(rec.log) + (if Engaged(rec.tx) then 1 else 0)
    && (Engaged(rec.tx) ==> rec.tx.buf == Encoded(Payload(rec.tx, rec.accepted[|rec.accepted| - 1])))
  }

  lemma CompletionsSnoc(log: seq<Attempt>, a: Attempt)
    ensures Completions(log + [a]) == Completions(log) + if a.completed then 1 else 0
  {
    assert (log + [a])[..|log|] == log;
  }

  lemma {:induction false} CompletionsGrow(log: seq<Attempt>, i: nat)
    requires i <= |log|
    ensures Completions(log[..i]) <= Completions(log)
  {
    if i == |log| {
      assert log[..i] == log;
    } else {
      CompletionsGrow(log[..|log| - 1], i);
      assert log[..|log| - 1][..i] == log[..i];
    }
  }

  lemma LogSoundSameConfig(tx: Tx, tx': Tx, log: seq<Attempt>, accepted: seq<seq<Byte>>)
    requires TextsSound(accepted) && LogSound(tx, log, accepted) && SameConfig(tx, tx')
    ensures LogSound(tx', log, accepted)
  {
    hide AttemptSound, Encoded, Completions;
  }

  /** Accepting another message does not disturb the log. */
  lemma LogSoundMore(tx: Tx, log: seq<Attempt>, accepted: seq<seq<Byte>>, text: seq<Byte>)
    requires TextsSound(accepted) && LogSound(tx, log, accepted) && 0 < |text| < PH_MSG_SIZE
    ensures TextsSound(accepted + [text]) && LogSound(tx, log, accepted + [text])
  {
    hide AttemptSound, Encoded, Completions;
  }

  lemma {:induction false} LogSoundEnds(tx: Tx, log: seq<Attempt>, accepted: seq<seq<Byte>>, a: Attempt)
    requires TextsSound(accepted) && LogSound(tx, log, accepted) && AttemptSound(a)
    requires Completions(log) < |accepted| && a.frame == Encoded(Payload(tx, accepted[Completions(log)]))
    ensures LogSound(tx, log + [a], accepted)
  {
    hide AttemptSound, Encoded, Completions;
    forall i | 0 <= i < |log| + 1
      ensures (log + [a])[..i] == log[..i]
    {
    }
    assert log[..|log|] == log;
  }

  predicate SameConfig(tx: Tx, tx': Tx) {
    tx'.packetMode == tx.packetMode && tx'.src == tx.src && tx'.dest == tx.dest
  }

  lemma {:induction false} StepAccepts(tx: Tx, e: Event)
    requires Invariant(tx) && KindOf(tx, e) == Accepts
    ensures e.Main? && 0 < |Typed(tx, e.c).Collected()| < PH_MSG_SIZE
    ensures var tx' := Next(tx, e);
            && !Engaged(tx) && tx'.inTransmission && SameConfig(tx, tx')
            && (tx'.currByte == |tx'.buf| ==> tx'.currBit == 0) && Driving(tx') == []
            && tx'.buf == Encoded(Payload(tx, Typed(tx, e.c).Collected()))
  {
    hide Launched, Encoded;
    var t := Typed(tx, e.c);
    if t.gotMessage {
      LaunchSendsPayload(t);
    }
  }

  lemma StepEnds(tx: Tx, e: Event)
    requires Invariant(tx) && KindOf(tx, e) in {Completes, Aborts}
    ensures var tx' := Next(tx, e);
            && AttemptSound(Attempt(tx.buf, Driving(tx), KindOf(tx, e) == Completes))
            && tx.inTransmission && !tx'.inTransmission && (Engaged(tx') <==> KindOf(tx, e) == Aborts)
            && tx'.buf == tx.buf && SameConfig(tx, tx')
  {
    hide Launched, BitsOf, Position;
    assert tx.currByte == |tx.buf| ==> BitsOf(tx.buf)[..Position(tx)] == BitsOf(tx.buf);
  }

  lemma DrivenPosition(tx: Tx)
    requires tx.Valid() && tx.currByte < |tx.buf|
    ensures var tx' := Driven(tx);
            (tx'.currByte == |tx'.buf| ==> tx'.currBit == 0) && Position(tx') == Position(tx) + 1
  {
    hide Bits;
  }

  lemma DrivenPin(tx: Tx)
    requires tx.Valid() && tx.currByte < |tx.buf|
    ensures Driven(tx).pin == BitsOf(tx.buf)[Position(tx)]
  {
    hide Bits, BitsOf;
    BitAt(tx.buf, tx.currByte, tx.currBit);
  }

  lemma StepDrives(tx: Tx, e: Event)
    requires Invariant(tx) && KindOf(tx, e) == Drives
    ensures var tx' := Next(tx, e);
            && tx' == Driven(tx) && (tx'.currByte == |tx'.buf| ==> tx'.currBit == 0)
            && Driving(tx') == Driving(tx) + [tx'.pin] && Engaged(tx) && Engaged(tx') && tx'.inTransmission
            && tx'.buf == tx.buf && SameConfig(tx, tx')
  {
    hide BitsOf, Bits, Position;
    DrivenPin(tx);
    DrivenPosition(tx);
    var bits, p := BitsOf(tx.buf), Position(tx);
    assert bits[..p + 1] == bits[..p] + [bits[p]];
  }

  lemma StepRests(tx: Tx, e: Event)
    requires Invariant(tx) && KindOf(tx, e) == Rests
    ensures var tx' := Next(tx, e);
            && (Engaged(tx) <==> Engaged(tx')) && (Engaged(tx) ==> tx'.buf == tx.buf) && SameConfig(tx, tx')
            && (tx'.inTransmission ==> tx'.currByte == |tx'.buf| ==> tx'.currBit == 0)
            && (tx'.inTransmission ==> Driving(tx') == if tx.inTransmission then Driving(tx) else [])
            && (!tx'.inTransmission ==> !tx.inTransmission)
  {
    hide Launched, BitsOf;
    if e.Main? && !Engaged(tx) {
      var t := Typed(tx, e.c);
      if e.ms == MS_IDLE && t.gotMessage {
        LaunchSendsPayload(t);
      }
    }
  }

  lemma {:induction false} SoundAfterEnd(rec: Record, e: Event)
    requires Sound(rec) && KindOf(rec.tx, e) in {Completes, Aborts}
    ensures Sound(Observe(rec, e))
  {
    hide Next, LogSound, AttemptSound, Completions, Encoded, BitsOf, Invariant, Crc, Driving, KindOf, Typed, TextsSound;
    var tx, tx', rec' := rec.tx, Next(rec.tx, e), Observe(rec, e);
    var a := rec'.log[|rec.log|];
    InvariantKept(tx, e);
    StepEnds(tx, e);
    LogSoundEnds(tx, rec.log, rec.accepted, a);
    LogSoundSameConfig(tx, tx', rec'.log, rec.accepted);
    CompletionsSnoc(rec.log, a);
  }

  lemma {:induction false} SoundAfterOther(rec: Record, e: Event)
    requires Sound(rec) && KindOf(rec.tx, e) !in {Completes, Aborts}
    ensures Sound(Observe(rec, e))
  {
    hide Next, LogSound, Completions, Encoded, BitsOf, Invariant, Crc, Driving, KindOf, Typed, TextsSound;
    var tx, tx' := rec.tx, Next(rec.tx, e);
    InvariantKept(tx, e);
    match KindOf(tx, e)
    case Accepts =>
      StepAccepts(tx, e);
      LogSoundMore(tx, rec.log, rec.accepted, Typed(tx, e.c).Collected());
      LogSoundSameConfig(tx, tx', rec.log, rec.accepted + [Typed(tx, e.c).Collected()]);
    case Drives =>
      StepDrives(tx, e);
      LogSoundSameConfig(tx, tx', rec.log, rec.accepted);
    case Rests =>
      StepRests(tx, e);
      LogSoundSameConfig(tx, tx', rec.log, rec.accepted);
  }

  /** Retransmission over whole runs. From the fresh transmitter, whatever happens: every aborted
      attempt has driven a proper prefix of its frame and every completed one all of it; each attempt
      sends the first message not yet completed, so messages are sent in the order they were
      accepted, none twice, none skipped; and the buffer holds that message until it is done. */
  lemma {:induction false} RunsAreSound(tx: Tx, events: seq<Event>)
    requires Fresh(tx)
    ensures Sound(Run(Record(tx, [], [], []), events))
  {
    hide Run;
    assert BitsOf(tx.buf) == [];
    SoundRun(Record(tx, [], [], []), events);
  }

  lemma {:induction false} SoundRun(rec: Record, events: seq<Event>)
    requires Sound(rec)
    ensures Sound(Run(rec, events))
  {
    hide Observe, LogSound, Encoded, Payload, Driving, Invariant, TextsSound;
    if events != [] {
      SoundRun(rec, events[..|events| - 1]);
      SoundStep(Run(rec, events[..|events| - 1]), events[|events| - 1]);
    }
  }

  lemma {:induction false} SoundStep(rec: Record, e: Event)
    requires Sound(rec)
    ensures Sound(Observe(rec, e))
  {
    hide Next, LogSound, Completions, Encoded, BitsOf, Invariant, Payload, Driving, KindOf, TextsSound;
    if KindOf(rec.tx, e) in {Completes, Aborts} {
      SoundAfterEnd(rec, e);
    } else {
      SoundAfterOther(rec, e);
    }
  }

  /** The frames that went out whole, in order. */
  function Delivered(log: seq<Attempt>): (frames: seq<seq<Byte>>)
    ensures |frames| == Completions(log)
  {
    if log == [] then []
    else Delivered(log[..|log| - 1]) + if log[|log| - 1].completed then [log[|log| - 1].frame] else []
  }

  /** What has gone out whole is what was accepted, message by message. */
  lemma {:induction false} DeliveredInOrder(tx: Tx, log: seq<Attempt>, accepted: seq<seq<Byte>>)
    requires TextsSound(accepted) && LogSound(tx, log, accepted)
    ensures Completions(log) <= |accepted|
    ensures forall i | 0 <= i < Completions(log) :: Delivered(log)[i] == Encoded(Payload(tx, accepted[i]))
  {
    hide LogSound, AttemptSound, Encoded, Payload;
    if log != [] {
      LogSoundFront(tx, log, accepted);
      DeliveredInOrder(tx, log[..|log| - 1], accepted);
    }
  }

  lemma {:induction false} LogSoundFront(tx: Tx, log: seq<Attempt>, accepted: seq<seq<Byte>>)
    requires log != [] && TextsSound(accepted) && LogSound(tx, log, accepted)
    ensures var n := |log| - 1;
            && LogSound(tx, log[..n], accepted) && Completions(log[..n]) < |accepted|
            && log[n].frame == Encoded(Payload(tx, accepted[Completions(log[..n])]))
  {
    hide AttemptSound, Encoded, Crc, Completions;
    var front := log[..|log| - 1];
    forall i | 0 <= i < |front|
      ensures front[..i] == log[..i]
    {
    }
  }

  lemma {:induction false} RunKeepsConfig(rec: Record, events: seq<Event>)
    requires rec.tx.Valid()
    ensures SameConfig(rec.tx, Run(rec, events).tx)
  {
    hide Next, KindOf, Typed;
    if events != [] {
      RunKeepsConfig(rec, events[..|events| - 1]);
      StepKeepsConfig(Run(rec, events[..|events| - 1]).tx, events[|events| - 1]);
    }
  }

  lemma StepKeepsConfig(tx: Tx, e: Event)
    requires tx.Valid()
    ensures SameConfig(tx, Next(tx, e))
  {
    hide Launched, Driven;
    if e.Main? {
      LaunchKeepsConfig(Typed(tx, e.c));
    } else if tx.currByte < |tx.buf| {
      DriveKeepsConfig(tx);
    }
  }

  lemma DriveKeepsConfig(tx: Tx)
    requires tx.Valid() && tx.currByte < |tx.buf|
    ensures SameConfig(tx, Driven(tx))
  {
    hide Bits;
  }

  lemma LaunchKeepsConfig(tx: Tx)
    requires tx.Valid()
    ensures SameConfig(tx, Launched(tx))
  {
    hide Encoded, Created, Terminated;
  }

  /** So, from the fresh transmitter on and whatever happens: the frames that have gone out whole encode
      the messages accepted from the UART, in order, each once, all but the one now engaged. */
  lemma RunDelivers(tx: Tx, events: seq<Event>)
    requires Fresh(tx)
    ensures var rec := Run(Record(tx, [], [], []), events);
            && TextsSound(rec.accepted)
            && |Delivered(rec.log)| == |rec.accepted| - (if Engaged(rec.tx) then 1 else 0)
            && (forall i | 0 <= i < |Delivered(rec.log)| ::
                  Delivered(rec.log)[i] == Encoded(Payload(rec.tx, rec.accepted[i])))
            && (Engaged(rec.tx) ==> rec.accepted != [] && rec.tx.buf == Encoded(Payload(rec.tx, Current(rec))))
  {
    hide Run, LogSound, Encoded, Payload, Driving, Invariant, TextsSound;
    RunsAreSound(tx, events);
    var rec := Run(Record(tx, [], [], []), events);
    DeliveredInOrder(rec.tx, rec.log, rec.accepted);
  }

  /** The message accepted last, which is the one engaged if any is. */
  function Current(rec: Record): (text: seq<Byte>)
    requires rec.accepted != [] && TextsSound(rec.accepted)
    ensures 0 < |text| < PH_MSG_SIZE
  {
    rec.accepted[|rec.accepted| - 1]
  }

  /** After an aborted attempt, a pass that finds the line idle and the end of the back-off put the same
      frame back to its start, whatever the monitor reports at that interrupt. */
  lemma RetryLoads(tx: Tx, ms: MonitorState, c: Byte, rand: nat)
    requires Invariant(tx) && Engaged(tx) && !tx.inTransmission
    ensures var tx' := Next(Next(tx, Main(MS_IDLE, c, rand)), Timer2(ms));
            && Loaded(tx') && tx'.buf == tx.buf && SameConfig(tx, tx') && Engaged(tx') && !tx'.transmissionComplete
            && tx'.gotMessage == tx.gotMessage && tx'.dataBuf == tx.dataBuf && tx'.dataCur == tx.dataCur
  {
    InvariantKept(tx, Main(MS_IDLE, c, rand));
    InvariantKept(Next(tx, Main(MS_IDLE, c, rand)), Timer2(ms));
  }

  // ---- Typing ----

  /** A transmitter that is collecting a line. */
  predicate Collecting(tx: Tx, line: seq<Byte>) {
    Invariant(tx) && !Engaged(tx) && !tx.gotMessage && tx.Collected() == Kept(line)
  }

  /** What of a line is kept: all but one byte of the buffer. */
  function Kept(line: seq<Byte>): seq<Byte> {
    if |line| < PH_MSG_SIZE then line else line[..PH_MSG_SIZE - 1]
  }

  /** A frame is in the buffer, none of it driven yet, and the timer runs at the half-bit rate. */
  predicate Loaded(tx: Tx) {
    Invariant(tx) && tx.inTransmission && !tx.retransmissionTimeoutActive && tx.currByte == 0 && tx.currBit == 0
  }

  /** A character is collected while there is room, whatever the monitor says. */
  lemma {:induction false} CharacterCollected(tx: Tx, line: seq<Byte>, ms: MonitorState, c: Byte, rand: nat)
    requires Collecting(tx, line) && c != CR
    ensures var tx' := TxMain(tx, ms, c, rand); Collecting(tx', line + [c]) && SameConfig(tx, tx')
  {
    InvariantKept(tx, Main(ms, c, rand));
  }

  /** A carriage return on an idle line: nothing happens if the line is empty or starts with a NUL,
      else its first 254 bytes start to be sent. */
  lemma {:induction false} CarriageReturn(tx: Tx, line: seq<Byte>, rand: nat)
    requires Collecting(tx, line)
    ensures var tx' := TxMain(tx, MS_IDLE, CR, rand);
            && SameConfig(tx, tx') && !tx'.gotMessage && tx'.dataCur == 0
            && if line == [] || line[0] == 0 then Collecting(tx', [])
               else Loaded(tx') && tx'.transmissionComplete && tx'.buf == Encoded(Payload(tx, Kept(line)))
  {
    hide Launched, Encoded, Crc;
    InvariantKept(tx, Main(MS_IDLE, CR, rand));
    var typed := Typed(tx, CR);
    if typed.gotMessage {
      LaunchSendsPayload(typed);
      assert typed.Collected() == tx.Collected();
    }
  }

  // ---- When an attempt starts ----

  /** A pass makes a message pend: it reads the carriage return of a line that does not start with a NUL, or
      such a line has been ended before and waits. */
  predicate Pends(tx: Tx, c: Byte)
    requires tx.Valid()
  {
    if c == 13 then tx.dataCur > 0 && tx.dataBuf[0] != 0 else tx.gotMessage
  }

  /** A pass starts something exactly when the monitor is idle and an attempt has been given up or a message
      pends: never into somebody else's frame, never during a collision, and never later than the first
      idle pass. */
  lemma StartsIffIdle(tx: Tx, ms: MonitorState, c: Byte, rand: nat)
    requires tx.Valid() && !tx.inTransmission
    ensures TxMain(tx, ms, c, rand).inTransmission
            <==> ms == MS_IDLE && (!tx.transmissionComplete || Pends(tx, c))
  {
    hide PacketLoaded, TextLoaded;
  }

  /** After an attempt was given up: no character is read, an idle pass sets the timer to a random number of
      milliseconds, from 0 to 995 in steps of 5, and any other pass does nothing. */
  lemma RetryStarts(tx: Tx, ms: MonitorState, c: Byte, rand: nat)
    requires tx.Valid() && !tx.inTransmission && !tx.transmissionComplete
    ensures TxMain(tx, ms, c, rand)
         == if ms != MS_IDLE then tx
            else tx.(currByte := 0, currBit := 0, inTransmission := true, retransmissionTimeoutActive := true,
                     tim2 := Tim2(true, 16000, 5 * (rand % 200)))
  {
  }

  /** An interrupt that finds a collision before the frame is complete leaves everything but the flags, the pin
      and the timer: the message, and where it got to. */
  lemma GivesUp(tx: Tx)
    requires Invariant(tx) && tx.inTransmission && !tx.retransmissionTimeoutActive && Position(tx) < 8 * |tx.buf|
    ensures var tx' := Next(tx, Timer2(MS_COLLISION));
            && tx' == tx.(inTransmission := false, transmissionComplete := false, pin := true, tim2 := tx'.tim2)
            && !tx'.tim2.running && Position(tx') == Position(tx)
  {
  }

  /** A line being entered: what has been typed of it, and whether a carriage return has ended it. */
  datatype Entry = Entry(line: seq<Byte>, ended: bool) {
    /** A carriage return ends a line that has something before its first NUL, and drops any other. */
    function Type(c: Byte): Entry {
      if c != 13 then Entry(line + [c], ended)
      else if line == [] || line[0] == 0 then Entry([], false)
      else Entry(line, true)
    }

    function TypeAll(cs: seq<Byte>): Entry {
      if cs == [] then this else TypeAll(cs[..|cs| - 1]).Type(cs[|cs| - 1])
    }
  }

  predicate Entered(tx: Tx, e: Entry) {
    && Invariant(tx) && !Engaged(tx) && tx.Collected() == Kept(e.line) && tx.gotMessage == e.ended
    && (e.ended ==> e.line != [] && e.line[0] != 0)
  }

  /** One pass of a transmitter with nothing engaged: the character joins the line, even one that was ended
      before, and an ended line is sent as it then is if the monitor is idle. */
  lemma {:induction false} PassEnters(tx: Tx, e: Entry, ms: MonitorState, c: Byte, rand: nat)
    requires Entered(tx, e)
    ensures var tx', e' := TxMain(tx, ms, c, rand), e.Type(c);
            && SameConfig(tx, tx')
            && if ms == MS_IDLE && e'.ended then
                 && Loaded(tx') && tx'.transmissionComplete && !tx'.gotMessage && tx'.dataCur == 0
                 && tx'.buf == Encoded(Payload(tx, Kept(e'.line)))
               else Entered(tx', e')
  {
    hide Launched, Encoded, Crc, Entry.Type;
    InvariantKept(tx, Main(ms, c, rand));
    var t := Typed(tx, c);
    TypedEnters(tx, e, c);
    if ms == MS_IDLE && t.gotMessage {
      LaunchSendsPayload(t);
    }
  }

  lemma TypedEnters(tx: Tx, e: Entry, c: Byte)
    requires Entered(tx, e)
    ensures var t, e' := Typed(tx, c), e.Type(c);
            && t.Collected() == Kept(e'.line) && t.gotMessage == e'.ended && SameConfig(tx, t)
            && (e'.ended ==> e'.line != [] && e'.line[0] != 0)
            && (c == 13 ==> t.dataBuf[tx.dataCur] == 0)
  {
    assert tx.dataCur > 0 ==> tx.dataBuf[0] == tx.Collected()[0];
  }

  /** While the line is busy: everything typed joins the one line that waits, however many carriage returns
      are among it. */
  lemma {:induction false} BusyPasses(rec: Record, e: Entry, events: seq<Event>, cs: seq<Byte>)
    requires Entered(rec.tx, e) && |events| == |cs|
    requires forall i | 0 <= i < |events| :: events[i].Main? && events[i].ms != MS_IDLE && events[i].c == cs[i]
    ensures Entered(Run(rec, events).tx, e.TypeAll(cs)) && SameConfig(rec.tx, Run(rec, events).tx)
  {
    hide Observe, Entry.Type, Kept;
    if events != [] {
      var n := |events| - 1;
      BusyPasses(rec, e, events[..n], cs[..n]);
      BusyPass(Run(rec, events[..n]), e.TypeAll(cs[..n]), events[n]);
    }
  }

  lemma BusyPass(rec: Record, e: Entry, event: Event)
    requires Entered(rec.tx, e) && event.Main? && event.ms != MS_IDLE
    ensures Entered(Observe(rec, event).tx, e.Type(event.c)) && SameConfig(rec.tx, Observe(rec, event).tx)
  {
    hide TxMain, Entry.Type;
    PassEnters(rec.tx, e, event.ms, event.c, event.rand);
  }

  // ---- What the sender prints ----

  /** The packet as the sender displays it when it launches a message: the message, under the same conditions
      as at a receiver. */
  lemma EchoPrinted(tx: Tx)
    requires tx.Valid() && tx.packetMode
    ensures var p, text := Launched(tx).pkt, tx.Collected();
            && p.src == tx.src && p.dest == tx.dest && p.length == |text| && p.fcs == Crc(text)
            && (CString(p.msg) == text <==> 0 !in text && (|text| < 254 || tx.pkt.msg[254] == 0))
  {
    hide Encoded, Crc, Wire, CString;
    var text := tx.Collected();
    CreatedTail(tx.pkt, tx.src, tx.dest, true, text);
    CStringIs(text, Launched(tx).pkt.msg);
  }
}
