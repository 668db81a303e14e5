/** Runs of both cards on one line, told step by step, and a run in which a message is sent again. */
module Tales {
  import opened Bytes
  import opened Crc8
  import opened Packets
  import opened Manchester
  import opened Monitors
  import opened Receivers
  import opened Transmitters
  import opened TransmissionRuns
  import opened Link
  import opened Deliveries
  import opened Collisions
  import opened Network
  import opened Retries
  import opened Sessions

  // ---- Runs, told step by step ----

  /** Both cards, the transmitter's record, and what the listener has seen of the line. */
  datatype Tale = Tale(now: Both, rec: Record, heard: seq<LineEvent>) {
    predicate Valid() {
      now.Valid() && rec.tx == now.card.tx && now.card.st.line == now.b.line
    }
  }

  function Tell(t: Tale, h: Happening): (t': Tale)
    requires t.Valid()
    ensures t'.Valid()
  {
    var events := EventOf(t.now, h);
    BothStepIsTxStep(t.now, h, t.rec);
    Tale(BothStep(t.now, h), if events == [] then t.rec else Observe(t.rec, events[0]), t.heard + LineEventOf(t.now, h))
  }

  function TellAll(t: Tale, hs: seq<Happening>): (t': Tale)
    requires t.Valid()
    ensures t'.Valid()
    decreases |hs|
  {
    if hs == [] then t else TellAll(Tell(t, hs[0]), hs[1..])
  }

  lemma {:induction false} TellConcat(t: Tale, x: seq<Happening>, y: seq<Happening>)
    requires t.Valid()
    ensures TellAll(t, x + y) == TellAll(TellAll(t, x), y)
    decreases |x|
  {
    hide Tell;
    if x == [] {
      assert x + y == y;
    } else {
      TellConcat(Tell(t, x[0]), x[1..], y);
      assert (x + y)[1..] == x[1..] + y;
    }
  }

  lemma TellOne(t: Tale, h: Happening)
    requires t.Valid()
    ensures TellAll(t, [h]) == Tell(t, h)
  {
    hide Tell;
    assert [h][1..] == [];
  }

  /** The tale of a run is the run. */
  lemma {:induction false} TaleOfRun(p: Both, rec0: Record, hs: seq<Happening>)
    requires p.Valid() && rec0.tx == p.card.tx && p.card.st.line == p.b.line
    ensures TellAll(Tale(p, rec0, []), hs) == Tale(BothRun(p, hs), Run(rec0, TxEvents(p, hs)), ListenerEvents(p, hs))
  {
    hide Tell;
    if hs != [] {
      var front, h := hs[..|hs| - 1], hs[|hs| - 1];
      assert hs == front + [h];
      TaleOfRun(p, rec0, front);
      TellConcat(Tale(p, rec0, []), front, [h]);
      TellOne(TellAll(Tale(p, rec0, []), front), h);
      TaleStep(p, rec0, hs);
    }
  }

  /** The run, its record, and what the listener sees of it. */
  function Told(p: Both, rec0: Record, hs: seq<Happening>): (t: Tale)
    requires p.Valid() && rec0.tx == p.card.tx
  {
    Tale(BothRun(p, hs), Run(rec0, TxEvents(p, hs)), ListenerEvents(p, hs))
  }

  lemma TaleStep(p: Both, rec0: Record, hs: seq<Happening>)
    requires p.Valid() && rec0.tx == p.card.tx && hs != [] && Told(p, rec0, hs[..|hs| - 1]).Valid()
    ensures Tell(Told(p, rec0, hs[..|hs| - 1]), hs[|hs| - 1]) == Told(p, rec0, hs)
  {
    hide BothStep, Observe, EventOf, LineEventOf;
    var front := hs[..|hs| - 1];
    RunSnoc(rec0, TxEvents(p, front), EventOf(BothRun(p, front), hs[|hs| - 1]));
  }

  lemma RunSnoc(rec: Record, events: seq<Event>, more: seq<Event>)
    requires rec.tx.Valid() && |more| <= 1
    ensures Run(rec, events + more) == if more == [] then Run(rec, events) else Observe(Run(rec, events), more[0])
  {
    hide Observe;
    if more == [] {
      assert events + more == events;
    } else {
      assert (events + more)[..|events|] == events;
    }
  }

  lemma TellThree(t: Tale, a: Happening, b: Happening, c: Happening)
    requires t.Valid()
    ensures TellAll(t, [a, b, c]) == Tell(Tell(Tell(t, a), b), c)
  {
    hide Tell;
    assert [a, b, c][1..] == [b, c] && [b, c][1..] == [c];
    TellOne(Tell(Tell(t, a), b), c);
  }

  lemma TellFour(t: Tale, a: Happening, b: Happening, c: Happening, d: Happening)
    requires t.Valid()
    ensures TellAll(t, [a, b, c, d]) == Tell(Tell(Tell(Tell(t, a), b), c), d)
  {
    hide Tell;
    assert [a, b, c, d][1..] == [b, c, d];
    TellThree(Tell(t, a), b, c, d);
  }

  // ---- Sending, step by step ----

  /** A frame is being sent, k half-bits of it driven. */
  predicate SendingAt(tx: Tx, buf: seq<Byte>, k: nat) {
    && Invariant(tx) && tx.inTransmission && !tx.retransmissionTimeoutActive && tx.buf == buf && Position(tx) == k
  }

  /** What a stretch of a tale leaves as it was. */
  predicate SameLog(r: Record, r': Record) {
    r'.accepted == r.accepted && r'.log == r.log && SameConfig(r.tx, r'.tx)
  }

  lemma TellTicks(t: Tale, n: nat)
    requires t.Valid()
    ensures var t' := Tell(t, Here(Ticks(n)));
            && t'.now.card == t.now.card.(st := QuietStep(t.now.card.st, Wait(n))) && t'.now.b == t.now.b
            && t'.rec == t.rec && t'.heard == t.heard
  {
    hide QuietStep;
  }

  lemma TellThere(t: Tale, e: Quiet)
    requires t.Valid()
    ensures var t' := Tell(t, There(e));
            && t'.now == t.now.(b := QuietStep(t.now.b, e)) && t'.rec == t.rec && t'.heard == t.heard + [Still(e)]
  {
    hide QuietStep;
  }

  lemma TellDisturb(t: Tale, level: bool)
    requires t.Valid() && t.now.b.line != level
    ensures var t' := Tell(t, Disturb(level));
            && t'.now.card == t.now.card.(st := Drive(t.now.card.st, level)) && t'.now.b == Drive(t.now.b, level)
            && t'.rec == t.rec && t'.heard == t.heard + [Level(level)]
  {
    hide Drive;
  }

  lemma TellInterrupt(t: Tale, level: bool)
    requires t.Valid()
    ensures var t', ms := Tell(t, Interrupt(level)), t.now.card.st.mon.state;
            && t'.now == Both(Card(Next(t.now.card.tx, Timer2(ms)), Drive(t.now.card.st, level)), Drive(t.now.b, level))
            && t'.rec == Observe(t.rec, Timer2(ms))
            && t'.heard == t.heard + if level == t.now.b.line then [] else [Level(level)]
  {
    hide Next, Observe, OnEdge, RxOnEdge;
  }

  lemma ObserveDrives(rec: Record, ms: MonitorState, buf: seq<Byte>, k: nat)
    requires SendingAt(rec.tx, buf, k) && k < 8 * |buf| && ms != MS_COLLISION
    ensures var rec' := Observe(rec, Timer2(ms));
            SendingAt(rec'.tx, buf, k + 1) && SameLog(rec, rec')
  {
    hide Position, Bits, BitsOf;
    SenderTicks(rec.tx, ms);
  }

  lemma ObserveAborts(rec: Record, buf: seq<Byte>, k: nat)
    requires SendingAt(rec.tx, buf, k) && k < 8 * |buf|
    ensures var rec' := Observe(rec, Timer2(MS_COLLISION));
            && Invariant(rec'.tx) && Engaged(rec'.tx) && !rec'.tx.inTransmission && rec'.tx.buf == buf
            && SameConfig(rec.tx, rec'.tx) && rec'.accepted == rec.accepted
            && rec'.log == rec.log + [Attempt(buf, rec.aired, false)]
  {
    InvariantKept(rec.tx, Timer2(MS_COLLISION));
  }

  /** A half-bit that leaves the line high. */
  lemma TellHigh(t: Tale, x: nat, buf: seq<Byte>, k: nat)
    requires t.Valid() && t.now.card.st.mon.state != MS_COLLISION
    requires SendingAt(t.rec.tx, buf, k) && k < 8 * |buf|
    ensures var t' := TellAll(t, [Interrupt(true), Here(Ticks(x)), There(Wait(x))]);
            && t'.now.b == QuietStep(Drive(t.now.b, true), Wait(x)) && t'.now.b.line
            && t'.heard == t.heard + (if t.now.b.line then [] else [Level(true)]) + [Still(Wait(x))]
            && SendingAt(t'.rec.tx, buf, k + 1) && SameLog(t.rec, t'.rec)
  {
    hide Tell, Observe, RxAfter, RxOnEdge, MonAfter, SendingAt, Next;
    TellThree(t, Interrupt(true), Here(Ticks(x)), There(Wait(x)));
    TellInterrupt(t, true);
    ObserveDrives(t.rec, t.now.card.st.mon.state, buf, k);
    TellTicks(Tell(t, Interrupt(true)), x);
    TellThere(Tell(Tell(t, Interrupt(true)), Here(Ticks(x))), Wait(x));
  }

  /** The own monitor, ticks after the line was pulled low. */
  predicate LowFor(st: Station, ticks: nat) {
    !st.line && ticks < SYSTICK_TICKS && st.mon == Mon(MS_BUSY, false, Timer(true, ticks, SYSTICK_TICKS))
  }

  lemma LowWaits(st: Station, ticks: nat, more: nat)
    requires LowFor(st, ticks) && st.rx.Valid()
    ensures var st' := QuietStep(st, Wait(more));
            if ticks + more < SYSTICK_TICKS then LowFor(st', ticks + more)
            else !st'.line && st'.mon.state == MS_COLLISION && !st'.mon.stk.running
  {
    hide RxAfter;
  }

  /** Somebody else pulls the line low, and the next half-bit is driven in vain. */
  lemma TellPulled(t: Tale, x: nat, buf: seq<Byte>, k: nat)
    requires t.Valid() && t.now.b.line && x < SYSTICK_TICKS && SendingAt(t.rec.tx, buf, k) && k < 8 * |buf|
    ensures var t' := TellAll(t, [Disturb(false), Here(Ticks(x)), There(Wait(x)), Interrupt(false)]);
            && t'.now.b == QuietStep(Drive(t.now.b, false), Wait(x))
            && t'.heard == t.heard + [Level(false), Still(Wait(x))]
            && LowFor(t'.now.card.st, x) && SendingAt(t'.rec.tx, buf, k + 1) && SameLog(t.rec, t'.rec)
  {
    hide Tell, Observe, RxAfter, RxOnEdge, MonAfter, SendingAt, Next;
    TellFour(t, Disturb(false), Here(Ticks(x)), There(Wait(x)), Interrupt(false));
    TellDisturb(t, false);
    var t1 := Tell(t, Disturb(false));
    TellTicks(t1, x);
    LowWaits(t1.now.card.st, 0, x);
    TellThere(Tell(t1, Here(Ticks(x))), Wait(x));
    var t3 := Tell(Tell(t1, Here(Ticks(x))), There(Wait(x)));
    TellInterrupt(t3, false);
    ObserveDrives(t3.rec, MS_BUSY, buf, k);
  }

  /** The line stays low for another half-bit, in which the listener does what w says. */
  lemma TellLow(t: Tale, w: Quiet, w': Quiet, ticks: nat, buf: seq<Byte>, k: nat)
    requires t.Valid() && !t.now.b.line && LowFor(t.now.card.st, ticks) && SendingAt(t.rec.tx, buf, k) && k < 8 * |buf|
    ensures var t' := TellAll(t, [Here(Ticks(TRANSMISSION_TICKS)), There(w), There(w'), Interrupt(false)]);
            && t'.now.b == QuietStep(QuietStep(t.now.b, w), w') && t'.heard == t.heard + [Still(w), Still(w')]
            && !t'.now.card.st.line && SameConfig(t.rec.tx, t'.rec.tx) && t'.rec.accepted == t.rec.accepted
            && if ticks + TRANSMISSION_TICKS < SYSTICK_TICKS then
                 && LowFor(t'.now.card.st, ticks + TRANSMISSION_TICKS)
                 && SendingAt(t'.rec.tx, buf, k + 1) && SameLog(t.rec, t'.rec)
               else
                 && Invariant(t'.rec.tx) && Engaged(t'.rec.tx) && !t'.rec.tx.inTransmission && t'.rec.tx.buf == buf
                 && t'.rec.log == t.rec.log + [Attempt(buf, t.rec.aired, false)]
  {
    hide Tell, Observe, RxAfter, RxMain, MonAfter, SendingAt, Next, Invariant;
    var h := Here(Ticks(TRANSMISSION_TICKS));
    TellFour(t, h, There(w), There(w'), Interrupt(false));
    TellTicks(t, TRANSMISSION_TICKS);
    LowWaits(t.now.card.st, ticks, TRANSMISSION_TICKS);
    TellThere(Tell(t, h), w);
    TellThere(Tell(Tell(t, h), There(w)), w');
    var t3 := Tell(Tell(Tell(t, h), There(w)), There(w'));
    TellInterrupt(t3, false);
    if ticks + TRANSMISSION_TICKS < SYSTICK_TICKS {
      ObserveDrives(t3.rec, MS_BUSY, buf, k);
    } else {
      ObserveAborts(t3.rec, buf, k);
    }
  }

  /** The line is held low a little longer, and released. */
  lemma TellReleased(t: Tale, w: Quiet)
    requires t.Valid() && !t.now.b.line
    ensures var t' := TellAll(t, [Here(Ticks(4000)), There(w), Disturb(true)]);
            && t'.now.b == Drive(QuietStep(t.now.b, w), true) && t'.heard == t.heard + [Still(w), Level(true)]
            && t'.now.card.st.line && t'.now.card.st.mon == Mon(MS_BUSY, true, Timer(true, 0, SYSTICK_TICKS))
            && t'.rec == t.rec
  {
    hide Tell, RxAfter, RxMain, RxOnEdge, MonAfter;
    TellThree(t, Here(Ticks(4000)), There(w), Disturb(true));
    TellTicks(t, 4000);
    TellThere(Tell(t, Here(Ticks(4000))), w);
    TellDisturb(Tell(Tell(t, Here(Ticks(4000))), There(w)), true);
  }

  /** Quiet, and the sender's pass that starts the back-off; then the interrupt that ends it. */
  function Retry(): seq<Happening> {
    [Here(Ticks(SYSTICK_TICKS)), There(Wait(SYSTICK_TICKS)), There(Pass)] + [Here(Loop(0, 0))] + [Interrupt(true)]
  }

  lemma TellRetry(t: Tale)
    requires t.Valid() && t.now.b.line && t.now.card.st.mon == Mon(MS_BUSY, true, Timer(true, 0, SYSTICK_TICKS))
    requires Invariant(t.rec.tx) && Engaged(t.rec.tx) && !t.rec.tx.inTransmission
    ensures var t' := TellAll(t, Retry());
            && t'.now.b == QuietStep(QuietStep(t.now.b, Wait(SYSTICK_TICKS)), Pass)
            && t'.heard == t.heard + [Still(Wait(SYSTICK_TICKS)), Still(Pass)]
            && Ready(t'.now.card.st) && Loaded(t'.rec.tx) && t'.rec.tx.buf == t.rec.tx.buf && SameLog(t.rec, t'.rec)
  {
    hide Tell, Observe, RxAfter, RxMain, Next, Invariant, Busy;
    var x := [Here(Ticks(SYSTICK_TICKS)), There(Wait(SYSTICK_TICKS)), There(Pass)];
    TellConcat(t, x + [Here(Loop(0, 0))], [Interrupt(true)]);
    TellConcat(t, x, [Here(Loop(0, 0))]);
    TellThree(t, Here(Ticks(SYSTICK_TICKS)), There(Wait(SYSTICK_TICKS)), There(Pass));
    TellTicks(t, SYSTICK_TICKS);
    var t1 := Tell(t, Here(Ticks(SYSTICK_TICKS)));
    TellThere(t1, Wait(SYSTICK_TICKS));
    var t2 := Tell(t1, There(Wait(SYSTICK_TICKS)));
    TellThere(t2, Pass);
    var t3 := Tell(t2, There(Pass));
    TellOne(t3, Here(Loop(0, 0)));
    TellPass(t3);
    var t4 := Tell(t3, Here(Loop(0, 0)));
    TellOne(t4, Interrupt(true));
    TellInterrupt(t4, true);
    RetryLoads(t.rec.tx, MS_IDLE, 0, 0);
    ObserveQuietly(t3.rec, Main(MS_IDLE, 0, 0));
    ObserveQuietly(t4.rec, Timer2(MS_IDLE));
  }

  lemma TellPass(t: Tale)
    requires t.Valid() && t.now.card.st.line && t.now.card.st.mon.state == MS_IDLE && !t.now.card.st.mon.stk.running
    ensures var t' := Tell(t, Here(Loop(0, 0)));
            && t'.now.b == t.now.b && t'.heard == t.heard && t'.rec == Observe(t.rec, Main(MS_IDLE, 0, 0))
            && Ready(t'.now.card.st) && t'.now.card.st.mon.state == MS_IDLE
  {
    hide Observe, TxMain, RxMain, Busy;
    Stabilises(t.now.card.st, []);
  }

  /** What happens between attempts is no entry in the log. */
  lemma ObserveQuietly(rec: Record, e: Event)
    requires Invariant(rec.tx) && Engaged(rec.tx)
    requires !rec.tx.inTransmission || rec.tx.retransmissionTimeoutActive
    ensures SameLog(rec, Observe(rec, e)) && Invariant(Observe(rec, e).tx) && Engaged(Observe(rec, e).tx)
    ensures e.Main? && e.ms == MS_IDLE && !rec.tx.inTransmission ==> Observe(rec, e).tx.retransmissionTimeoutActive
  {
    InvariantKept(rec.tx, e);
  }

  // ---- A run with a retry ----

  /** A letter and a carriage return on an idle line. */
  function Typing(): seq<Happening> {
    [Here(Ticks(SYSTICK_TICKS)), Here(Loop(65, 0)), Here(Loop(CR, 0))]
  }

  /** Somebody else pulls the line low during the first bits, the sender gives up, the listener's pass finds
      the collision, the line is released, and after quiet and a back-off the sender is about to try again. */
  function RetriedRun(): seq<Happening> {
    Typing()
    + [Interrupt(true), Here(Ticks(TRANSMISSION_TICKS)), There(Wait(TRANSMISSION_TICKS))]
    + [Disturb(false), Here(Ticks(TRANSMISSION_TICKS)), There(Wait(TRANSMISSION_TICKS)), Interrupt(false)]
    + [Here(Ticks(TRANSMISSION_TICKS)), There(Wait(4000)), There(Wait(4000)), Interrupt(false)]
    + [Here(Ticks(TRANSMISSION_TICKS)), There(Wait(4000)), There(Wait(4000)), Interrupt(false)]
    + [Here(Ticks(4000)), There(Pass), Disturb(true)]
    + Retry()
  }

  /** The collision as the listener meets it. */
  function Meeting(): Torn {
    Torn([Level(false), Still(Wait(TRANSMISSION_TICKS))]
         + [Still(Wait(4000)), Still(Wait(4000))] + [Still(Wait(4000)), Still(Wait(4000))],
         [], [Wait(SYSTICK_TICKS)], [])
  }

  lemma ObserveTyped(rec: Record, ms: MonitorState)
    requires Collecting(rec.tx, [])
    ensures var rec' := Observe(rec, Main(ms, 65, 0)); Collecting(rec'.tx, [65]) && SameLog(rec, rec')
  {
    hide Launched;
    CharacterCollected(rec.tx, [], ms, 65, 0);
    assert [] + [65] == [65];
  }

  lemma ObserveAccepts(rec: Record)
    requires Collecting(rec.tx, [65])
    ensures var rec' := Observe(rec, Main(MS_IDLE, CR, 0));
            && SendingAt(rec'.tx, Encoded(Payload(rec.tx, [65])), 0) && SameConfig(rec.tx, rec'.tx)
            && |rec'.accepted| == |rec.accepted| + 1 && rec'.log == rec.log
  {
    hide Launched, Encoded, Payload, TxMain;
    CarriageReturn(rec.tx, [65], 0);
  }

  lemma TellLoop(t: Tale, c: Byte)
    requires t.Valid()
    ensures var t', ms := Tell(t, Here(Loop(c, 0))), t.now.card.st.mon.state;
            && t'.now.b == t.now.b && t'.heard == t.heard && t'.rec == Observe(t.rec, Main(ms, c, 0))
            && t'.now.card.st == QuietStep(t.now.card.st, Pass)
  {
    hide Observe, TxMain, RxMain;
  }

  lemma TellTyping(t: Tale)
    requires t.Valid() && Collecting(t.rec.tx, []) && Consistent(t.now.card.st) && t.now.card.st.line
    ensures var t' := TellAll(t, Typing());
            && t'.now.b == t.now.b && t'.heard == t.heard && t'.now.card.st.mon.state == MS_IDLE
            && SendingAt(t'.rec.tx, Encoded(Payload(t.rec.tx, [65])), 0) && SameConfig(t.rec.tx, t'.rec.tx)
            && |t'.rec.accepted| == |t.rec.accepted| + 1 && t'.rec.log == t.rec.log
  {
    hide Tell, Observe, RxAfter, RxMain, Collecting, SendingAt, Encoded, Crc;
    TellThree(t, Here(Ticks(SYSTICK_TICKS)), Here(Loop(65, 0)), Here(Loop(CR, 0)));
    TellTicks(t, SYSTICK_TICKS);
    var t1 := Tell(t, Here(Ticks(SYSTICK_TICKS)));
    TellLoop(t1, 65);
    ObserveTyped(t1.rec, MS_IDLE);
    var t2 := Tell(t1, Here(Loop(65, 0)));
    TellLoop(t2, CR);
    ObserveAccepts(t2.rec);
  }

  lemma PayloadLength(tx: Tx)
    requires tx.packetMode
    ensures |Encoded(Payload(tx, [65]))| == 16
  {
    hide Encoded, Crc;
  }

  /** The tale of that run. */
  lemma TellRetriedRun(t: Tale)
    requires t.Valid() && Collecting(t.rec.tx, []) && t.rec.tx.packetMode && Consistent(t.now.card.st) && t.now.b.line
    ensures var t' := TellAll(t, RetriedRun());
            && t'.heard == t.heard + [Still(Wait(TRANSMISSION_TICKS))] + Meeting().es + [Still(Pass), Level(true)]
                         + [Still(Wait(SYSTICK_TICKS)), Still(Pass)]
            && Ready(t'.now.card.st) && Loaded(t'.rec.tx)
            && |t'.rec.accepted| == |t.rec.accepted| + 1
            && |t'.rec.log| == |t.rec.log| + 1 && t'.rec.log[..|t.rec.log|] == t.rec.log
            && !t'.rec.log[|t.rec.log|].completed
  {
    hide TellAll, Typing, Observe, Collecting, SendingAt, Encoded, Crc, Invariant, Busy, RxMain, RxAfter, RxOnEdge,
         Payload, Engaged, Loaded;
    var buf := Encoded(Payload(t.rec.tx, [65]));
    PayloadLength(t.rec.tx);
    TellTyping(t);
    var h1 := Typing();
    var t1 := TellAll(t, h1);
    var x1 := [Interrupt(true), Here(Ticks(TRANSMISSION_TICKS)), There(Wait(TRANSMISSION_TICKS))];
    TellHigh(t1, TRANSMISSION_TICKS, buf, 0);
    TellConcat(t, h1, x1);
    var t2 := TellAll(t1, x1);
    var x2 := [Disturb(false), Here(Ticks(TRANSMISSION_TICKS)), There(Wait(TRANSMISSION_TICKS)), Interrupt(false)];
    TellPulled(t2, TRANSMISSION_TICKS, buf, 1);
    TellConcat(t, h1 + x1, x2);
    var t3 := TellAll(t2, x2);
    var x3 := [Here(Ticks(TRANSMISSION_TICKS)), There(Wait(4000)), There(Wait(4000)), Interrupt(false)];
    TellLow(t3, Wait(4000), Wait(4000), TRANSMISSION_TICKS, buf, 2);
    TellConcat(t, h1 + x1 + x2, x3);
    var t4 := TellAll(t3, x3);
    TellLow(t4, Wait(4000), Wait(4000), 2 * TRANSMISSION_TICKS, buf, 3);
    TellConcat(t, h1 + x1 + x2 + x3, x3);
    var t5 := TellAll(t4, x3);
    var x5 := [Here(Ticks(4000)), There(Pass), Disturb(true)];
    TellReleased(t5, Pass);
    TellConcat(t, h1 + x1 + x2 + x3 + x3, x5);
    var t6 := TellAll(t5, x5);
    TellRetry(t6);
    TellConcat(t, h1 + x1 + x2 + x3 + x3 + x5, Retry());
    assert RetriedRun() == h1 + x1 + x2 + x3 + x3 + x5 + Retry();
  }

  lemma LineRunSnoc(b: Station, es: seq<LineEvent>, e: LineEvent)
    requires b.rx.Valid()
    ensures LineRun(b, es + [e]) == LineStep(LineRun(b, es), e)
  {
    hide LineStep;
    assert (es + [e])[..|es|] == es;
  }

  lemma LowForMore(b: Station, es: seq<LineEvent>, ticks: nat, more: nat)
    requires b.rx.Valid() && LowFor(LineRun(b, es), ticks)
    ensures var st' := LineRun(b, es + [Still(Wait(more))]);
            if ticks + more < SYSTICK_TICKS then LowFor(st', ticks + more)
            else !st'.line && st'.mon.state == MS_COLLISION && !st'.mon.stk.running
  {
    hide LineRun, QuietStep;
    LineRunSnoc(b, es, Still(Wait(more)));
    LowWaits(LineRun(b, es), ticks, more);
  }

  lemma MeetingIsTorn(b: Station)
    requires Consistent(b) && b.line
    ensures Meeting().Valid(b)
  {
    hide LineRun, RxOnEdge, RxAfter;
    var w, w' := Still(Wait(TRANSMISSION_TICKS)), Still(Wait(4000));
    LineRunOne(b, Level(false));
    LowForMore(b, [Level(false)], 0, TRANSMISSION_TICKS);
    assert [Level(false)] + [w] == [Level(false), w];
    LowForMore(b, [Level(false), w], TRANSMISSION_TICKS, 4000);
    LowForMore(b, [Level(false), w] + [w'], TRANSMISSION_TICKS + 4000, 4000);
    LowForMore(b, [Level(false), w] + [w'] + [w'], TRANSMISSION_TICKS + 8000, 4000);
    var es := [Level(false), w] + [w'] + [w'] + [w'];
    LineRunSnoc(b, es, w');
    assert Meeting().es == es + [w'];
    assert forall i | 0 <= i < |Meeting().es| :: Meeting().es[i] != Still(Pass);
    DurationOne(Wait(SYSTICK_TICKS));
  }

  /** It is a run that MessageAppearsOnce speaks of: from any two cards at rest, one message is accepted, one
      attempt at it is given up, the listener meets one collision, and the next attempt is about to start. */
  lemma RetriedRunMeets(p: Both, rec0: Record)
    requires AtRest(p.card) && Ready(p.b) && p.b.rx.asm.queue == [] && Sound(rec0) && rec0.tx == p.card.tx
    ensures var hs, before, cs := RetriedRun(), [Wait(TRANSMISSION_TICKS)], [Meeting()];
            var rec := Run(rec0, TxEvents(p, hs));
            && !Engaged(rec0.tx) && ListenerEvents(p, hs) == Stills(before) + AllEvents(cs)
            && AllTorn(Settle(p.b, before), cs) && |rec.accepted| == |rec0.accepted| + 1
            && Loaded(BothRun(p, hs).card.tx) && Ready(BothRun(p, hs).card.st)
            && |rec.log| == |rec0.log| + 1 && !rec.log[|rec0.log|].completed
  {
    hide TellAll, Busy, Settle, Meeting, RetriedRun, Run, BothRun, TxEvents, ListenerEvents, Stills, AllEvents, AllTorn,
         LogSound, TextsSound, Driving, Encoded, Payload, Completions;
    var t := Tale(p, rec0, []);
    TellRetriedRun(t);
    TaleOfRun(p, rec0, RetriedRun());
    MeetingAlone(p.b);
    MeetingEvents();
    assert [] + [Still(Wait(TRANSMISSION_TICKS))] == [Still(Wait(TRANSMISSION_TICKS))];
  }

  lemma MeetingAlone(b: Station)
    requires Ready(b)
    ensures AllTorn(Settle(b, [Wait(TRANSMISSION_TICKS)]), [Meeting()])
  {
    hide Busy, Decoded, Settle, Meeting, Torn.Valid;
    SettleResting(b, [Wait(TRANSMISSION_TICKS)]);
    MeetingIsTorn(Settle(b, [Wait(TRANSMISSION_TICKS)]));
    assert [Meeting()][..0] == [];
  }

  lemma MeetingEvents()
    ensures Stills([Wait(TRANSMISSION_TICKS)]) + AllEvents([Meeting()])
         == [Still(Wait(TRANSMISSION_TICKS))] + Meeting().es + [Still(Pass), Level(true)]
          + [Still(Wait(SYSTICK_TICKS)), Still(Pass)]
  {
    hide Torn.Events, AllEvents;
    OneStill(Wait(TRANSMISSION_TICKS));
    EventsOfOne(Meeting(), Wait(SYSTICK_TICKS));
  }

  lemma OneStill(e: Quiet)
    ensures Stills([e]) == [Still(e)] && Stills([]) == []
  {
  }

  lemma EventsOfOne(c: Torn, e: Quiet)
    requires c.low == [] && c.q == [e] && c.later == []
    ensures AllEvents([c]) == c.es + [Still(Pass), Level(true)] + [Still(e), Still(Pass)]
  {
    hide Stills;
    OneStill(e);
    assert [c][..0] == [];
    assert AllEvents([c]) == c.Events();
    assert c.Events() == c.es + [Still(Pass)] + [Level(true)] + [Still(e)] + [Still(Pass)];
  }
}
