/** Messages that are sent again: what a listener shows while attempts are given up, and that the one
    that goes through delivers the message. */
module Retries {
  import opened Bytes
  import opened Crc8
  import opened RingBuffers
  import opened Packets
  import opened Manchester
  import opened Monitors
  import opened Receivers
  import opened Transmitters
  import opened TransmissionRuns
  import opened Link
  import opened Deliveries
  import opened Collisions
  import opened Messages
  import opened Network

  // ---- The attempt that goes through ----

  lemma {:induction false} SettleMode(st: Station, q: seq<Quiet>)
    requires st.rx.Valid()
    ensures Settle(st, q).rx.packetMode == st.rx.packetMode
  {
    hide Parsed, Terminated, Buffered, MonAfter;
    if q != [] {
      SettleMode(st, q[..|q| - 1]);
    }
  }

  lemma ReleasedMode(st: Station, q: seq<Quiet>, later: seq<Quiet>)
    requires st.rx.Valid()
    ensures Settle(Released(st, q), later).rx.packetMode == st.rx.packetMode
  {
    hide Settle, Parsed, Terminated, Buffered;
    SettleMode(Drive(st, true), q);
    SettleMode(Released(st, q), later);
  }

  /** What is left in the ring after a release: the passes take 262 bytes each. */
  lemma ReleasedRing(st: Station, q: seq<Quiet>, later: seq<Quiet>)
    requires Consistent(st) && Duration(q) >= SYSTICK_TICKS
    requires |st.rx.asm.queue| + 1 <= SIZEOF_PACKET * (1 + IdlePasses(Released(st, q), later))
    ensures Settle(Released(st, q), later).rx.asm.queue == []
  {
    hide Settle, QuietStep, IdlePasses, Shelf.Drained;
    var high := Drive(st, true);
    var j, k := IdlePasses(high, q + [Pass]), IdlePasses(Released(st, q), later);
    var s := Shelf(high.rx, high.rx.asm.queue);
    QuietPass(high, q);
    SettleDrains(high, q + [Pass], s);
    SettleDrains(Released(st, q), later, s.Drained(j));
    DrainedTwice(s, j, k);
    DrainedRing(s, j + k);
  }

  /** Delivery after any number of aborted attempts. The transmitter has been through any run that leaves
      an attempt about to start. Both stations, whatever state the line and the collisions have left them
      in, have seen the line quiet for the monitor's timeout and made one pass, the listener as many as
      its ring needs. Then this attempt shows the message accepted last, once, and the transmitter has
      nothing left to send. */
  lemma {:induction false} RetriedMessageShown(tx: Tx, events: seq<Event>,
                                               own: Station, b: Station, q: seq<Quiet>, later: seq<Quiet>,
                                               q': seq<Quiet>, later': seq<Quiet>,
                                               ess: seq<seq<Interlude>>, qs: seq<seq<Quiet>>, gap: seq<Quiet>)
    requires Fresh(tx) && tx.packetMode && Loaded(Run(Record(tx, [], [], []), events).tx)
    requires Consistent(own) && Consistent(b) && b.rx.packetMode
    requires Duration(q) >= SYSTICK_TICKS && Duration(q') >= SYSTICK_TICKS && Duration(gap) >= SYSTICK_TICKS
    requires |b.rx.asm.queue| + 1 <= SIZEOF_PACKET * (1 + IdlePasses(Released(b, q'), later'))
    requires |ess| == |qs| == 8 * |Run(Record(tx, [], [], []), events).tx.buf|
    requires AllTolerable(SeenAll(ess)) && AllTolerable(qs)
    ensures var rec := Run(Record(tx, [], [], []), events);
            && rec.accepted != [] && TextsSound(rec.accepted)
            && var card := Card(rec.tx, Settle(Released(own, q), later));
               var b0 := Settle(Released(b, q'), later');
               var b' := Listener(b0, card, ess, qs, gap);
               && ShowsOneMore(b'.rx, b0.rx)
               && ShowsMessage(b'.rx.inbox[|b0.rx.inbox|], Message(tx.src, tx.dest, Current(rec)))
               && !Engaged(Done(card, ess).tx)
  {
    hide Run, Settle, Released, Listener, ShowsMessage, Encoded, Invariant, Crc, TextsSound, Tolerable, Done,
         IdlePasses, Busy;
    var rec := Run(Record(tx, [], [], []), events);
    RunDelivers(tx, events);
    RunKeepsConfig(Record(tx, [], [], []), events);
    RecoversOnceQuiet(own, q, later);
    RecoversOnceQuiet(b, q', later');
    ReleasedMode(b, q', later');
    ReleasedRing(b, q', later');
    AttemptShown(rec, Settle(Released(own, q), later), Settle(Released(b, q'), later'), ess, qs, gap);
  }

  /** An attempt about to start, with both stations ready, shows the message engaged. */
  lemma {:induction false} AttemptShown(rec: Record, own: Station, b: Station,
                                        ess: seq<seq<Interlude>>, qs: seq<seq<Quiet>>, gap: seq<Quiet>)
    requires Loaded(rec.tx) && rec.tx.packetMode && rec.accepted != [] && TextsSound(rec.accepted)
    requires rec.tx.buf == Encoded(Payload(rec.tx, Current(rec)))
    requires Ready(own) && Ready(b) && b.rx.asm.queue == [] && b.rx.packetMode
    requires |ess| == |qs| == 8 * |rec.tx.buf| && AllTolerable(SeenAll(ess)) && AllTolerable(qs)
    requires Duration(gap) >= SYSTICK_TICKS
    ensures var card := Card(rec.tx, own);
            var b' := Listener(b, card, ess, qs, gap);
            && ShowsOneMore(b'.rx, b.rx)
            && ShowsMessage(b'.rx.inbox[|b.rx.inbox|], Message(rec.tx.src, rec.tx.dest, Current(rec)))
            && !Engaged(Done(card, ess).tx)
  {
    hide Listener, ShowsMessage, Encoded, Crc, TextsSound, Tolerable, Done, Busy;
    EndToEnd(Card(rec.tx, own), Current(rec), ess, b, qs, gap);
    DoneStops(Card(rec.tx, own), Payload(rec.tx, Current(rec)), ess);
  }

  // ---- The attempts that are given up ----

  /** A disturbance as a listener sees it: anything on the line up to a collision, found by a pass while
      the line is low; then the release, quiet, a pass, and more quiet. */
  datatype Torn = Torn(es: seq<LineEvent>, low: seq<Quiet>, q: seq<Quiet>, later: seq<Quiet>) {
    predicate Valid(b: Station)
      requires b.rx.Valid()
    {
      NoIdlePass(b, es) && LineRun(b, es).mon.state == MS_COLLISION && Duration(q) >= SYSTICK_TICKS
    }

    function Survived(b: Station): (b': Station)
      requires b.rx.Valid()
      ensures b'.rx.Valid()
    {
      Settle(Released(Settle(QuietStep(LineRun(b, es), Pass), low), q), later)
    }

    /** The same as one history of the line. */
    function Events(): seq<LineEvent> {
      es + [Still(Pass)] + Stills(low) + [Level(true)] + Stills(q) + [Still(Pass)] + Stills(later)
    }
  }

  function Stills(q: seq<Quiet>): (es: seq<LineEvent>)
    ensures |es| == |q|
  {
    seq(|q|, i requires 0 <= i < |q| => Still(q[i]))
  }

  function Survive(b: Station, cs: seq<Torn>): (b': Station)
    requires b.rx.Valid()
    ensures b'.rx.Valid()
  {
    if cs == [] then b else cs[|cs| - 1].Survived(Survive(b, cs[..|cs| - 1]))
  }

  /** Each is a disturbance for the listener as those before left it. */
  predicate AllTorn(b: Station, cs: seq<Torn>)
    requires b.rx.Valid()
  {
    forall i | 0 <= i < |cs| :: cs[i].Valid(Survive(b, cs[..i]))
  }

  function AllEvents(cs: seq<Torn>): seq<LineEvent> {
    if cs == [] then [] else AllEvents(cs[..|cs| - 1]) + cs[|cs| - 1].Events()
  }

  /** Single bytes, at most n of them, none accepted as a packet. */
  predicate OnlyScraps(inbox: seq<Delivery>, before: seq<Delivery>, n: nat) {
    && before <= inbox && |inbox| <= |before| + n
    && forall m: nat | |before| <= m < |inbox| :: |inbox[m].bytes| == 1 && !(inbox[m].Parcel? && inbox[m].accepted)
  }

  lemma ScrapShown(r: Rx, desk: Rx, a: Assembly)
    requires desk.Valid() && SameDesk(r, ShownIf(desk, Completed(a)))
    ensures OnlyScraps(r.inbox, desk.inbox, 1) && r.packetMode == desk.packetMode
  {
    hide Shown;
    if Completed(a) != [] {
      ShownDelivers(desk, Completed(a));
    }
  }

  /** A disturbance leaves the listener ready, with an empty ring, and with one refused byte more at most. */
  lemma SurvivedScraps(b: Station, c: Torn)
    requires Ready(b) && b.rx.asm.queue == [] && c.Valid(b)
    ensures var b' := c.Survived(b);
            && Ready(b') && b'.rx.asm.queue == [] && b'.rx.packetMode == b.rx.packetMode
            && OnlyScraps(b'.rx.inbox, b.rx.inbox, 1)
  {
    hide LineRun, Settle, QuietStep, Released, ShownIf, NoIdlePass, Busy, OnlyScraps, Completed;
    var st' := Released(Settle(QuietStep(LineRun(b, c.es), Pass), c.low), c.q);
    CollisionOutcome(b, c.es, c.low, c.q);
    ScrapShown(st'.rx, b.rx, LineRun(b, c.es).rx.asm);
    EmptySettles(st', c.later);
    SettleResting(st', c.later);
  }

  lemma {:induction false} SurviveScraps(b: Station, cs: seq<Torn>)
    requires Ready(b) && b.rx.asm.queue == [] && AllTorn(b, cs)
    ensures var b' := Survive(b, cs);
            && Ready(b') && b'.rx.asm.queue == [] && b'.rx.packetMode == b.rx.packetMode
            && OnlyScraps(b'.rx.inbox, b.rx.inbox, |cs|)
  {
    hide Torn.Survived, Torn.Valid, Busy;
    if cs != [] {
      var front, c := cs[..|cs| - 1], cs[|cs| - 1];
      forall i | 0 <= i < |front|
        ensures front[..i] == cs[..i]
      {
      }
      SurviveScraps(b, front);
      SurvivedScraps(Survive(b, front), c);
    }
  }

  lemma {:induction false} LineRunConcat(b: Station, x: seq<LineEvent>, y: seq<LineEvent>)
    requires b.rx.Valid()
    ensures LineRun(b, x + y) == LineRun(LineRun(b, x), y)
  {
    hide LineStep;
    if y == [] {
      assert x + y == x;
    } else {
      LineRunConcat(b, x, y[..|y| - 1]);
      assert (x + y)[..|x + y| - 1] == x + y[..|y| - 1];
    }
  }

  lemma {:induction false} LineRunStills(b: Station, q: seq<Quiet>)
    requires b.rx.Valid()
    ensures LineRun(b, Stills(q)) == Settle(b, q)
  {
    hide QuietStep;
    if q != [] {
      LineRunStills(b, q[..|q| - 1]);
      assert Stills(q)[..|q| - 1] == Stills(q[..|q| - 1]);
    }
  }

  lemma LineRunOne(b: Station, e: LineEvent)
    requires b.rx.Valid()
    ensures LineRun(b, [e]) == LineStep(b, e)
  {
    hide LineStep;
    assert [e][..0] == [];
  }

  lemma SurvivedIsRun(b: Station, c: Torn)
    requires b.rx.Valid()
    ensures c.Survived(b) == LineRun(b, c.Events())
  {
    hide LineRun, Settle, QuietStep, Drive, Stills;
    var x1 := c.es + [Still(Pass)];
    var x2 := x1 + Stills(c.low);
    var x3 := x2 + [Level(true)];
    var x4 := x3 + Stills(c.q);
    var x5 := x4 + [Still(Pass)];
    LineRunConcat(b, c.es, [Still(Pass)]);
    LineRunOne(LineRun(b, c.es), Still(Pass));
    LineRunConcat(b, x1, Stills(c.low));
    LineRunStills(LineRun(b, x1), c.low);
    LineRunConcat(b, x2, [Level(true)]);
    LineRunOne(LineRun(b, x2), Level(true));
    LineRunConcat(b, x3, Stills(c.q));
    LineRunStills(LineRun(b, x3), c.q);
    LineRunConcat(b, x4, [Still(Pass)]);
    LineRunOne(LineRun(b, x4), Still(Pass));
    LineRunConcat(b, x5, Stills(c.later));
    LineRunStills(LineRun(b, x5), c.later);
  }

  lemma {:induction false} SurviveIsRun(b: Station, cs: seq<Torn>)
    requires b.rx.Valid()
    ensures Survive(b, cs) == LineRun(b, AllEvents(cs))
  {
    hide Torn.Survived, Torn.Events, LineStep;
    if cs != [] {
      var front, c := cs[..|cs| - 1], cs[|cs| - 1];
      SurviveIsRun(b, front);
      SurvivedIsRun(Survive(b, front), c);
      LineRunConcat(b, AllEvents(front), c.Events());
    }
  }

  // ---- Both cards on one line ----

  datatype Both = Both(card: Card, b: Station) {
    predicate Valid() {
      card.Valid() && b.rx.Valid()
    }
  }

  /** The sender's timer fires, and its pin and whoever else drives the line leave it at a level; the line
      changes without it; something happens between edges at the sender, or at the listener. */
  datatype Happening = Interrupt(level: bool) | Disturb(level: bool) | Here(own: Interlude) | There(quiet: Quiet)

  function BothStep(p: Both, h: Happening): (p': Both)
    requires p.Valid()
    ensures p'.Valid()
  {
    match h
    case Interrupt(level) =>
      Both(Card(Next(p.card.tx, Timer2(p.card.st.mon.state)), Drive(p.card.st, level)), Drive(p.b, level))
    case Disturb(level) => Both(p.card.(st := Drive(p.card.st, level)), Drive(p.b, level))
    case Here(e) => p.(card := InterludeStep(p.card, e))
    case There(e) => p.(b := QuietStep(p.b, e))
  }

  function BothRun(p: Both, hs: seq<Happening>): (p': Both)
    requires p.Valid()
    ensures p'.Valid()
  {
    if hs == [] then p else BothStep(BothRun(p, hs[..|hs| - 1]), hs[|hs| - 1])
  }

  /** The run as the transmitter sees it, its own monitor reporting. */
  function TxEvents(p: Both, hs: seq<Happening>): seq<Event>
    requires p.Valid()
  {
    if hs == [] then []
    else
      var front := hs[..|hs| - 1];
      TxEvents(p, front) + EventOf(BothRun(p, front), hs[|hs| - 1])
  }

  function EventOf(p: Both, h: Happening): (events: seq<Event>)
    ensures |events| <= 1
  {
    match h
    case Interrupt(_) => [Timer2(p.card.st.mon.state)]
    case Here(Loop(c, rand)) => [Main(p.card.st.mon.state, c, rand)]
    case _ => []
  }

  /** The run as the listener sees it. */
  function ListenerEvents(p: Both, hs: seq<Happening>): seq<LineEvent>
    requires p.Valid()
  {
    if hs == [] then []
    else
      var front := hs[..|hs| - 1];
      ListenerEvents(p, front) + LineEventOf(BothRun(p, front), hs[|hs| - 1])
  }

  /** A level that the line already has is nothing to be seen. */
  function LineEventOf(p: Both, h: Happening): (es: seq<LineEvent>)
    ensures |es| <= 1
  {
    match h
    case Interrupt(level) => if level == p.b.line then [] else [Level(level)]
    case Disturb(level) => if level == p.b.line then [] else [Level(level)]
    case Here(_) => []
    case There(e) => [Still(e)]
  }

  lemma {:induction false} BothIsTxRun(p: Both, hs: seq<Happening>, rec: Record)
    requires p.Valid() && rec.tx == p.card.tx
    ensures BothRun(p, hs).card.tx == Run(rec, TxEvents(p, hs)).tx
  {
    hide BothStep, Observe, EventOf;
    if hs != [] {
      var front, h := hs[..|hs| - 1], hs[|hs| - 1];
      BothIsTxRun(p, front, rec);
      var before, more := TxEvents(p, front), EventOf(BothRun(p, front), h);
      BothStepIsTxStep(BothRun(p, front), h, Run(rec, before));
      if more == [] {
        assert before + more == before;
      } else {
        assert (before + more)[..|before|] == before;
      }
    }
  }

  lemma BothStepIsTxStep(p: Both, h: Happening, rec: Record)
    requires p.Valid() && rec.tx == p.card.tx
    ensures var more := EventOf(p, h);
            BothStep(p, h).card.tx == if more == [] then rec.tx else Observe(rec, more[0]).tx
  {
    hide QuietStep, Drive, TxMain, OnTim2, KindOf;
  }

  lemma {:induction false} BothIsLineRun(p: Both, hs: seq<Happening>)
    requires p.Valid()
    ensures BothRun(p, hs).b == LineRun(p.b, ListenerEvents(p, hs))
  {
    hide BothStep, LineStep, LineEventOf;
    if hs != [] {
      var front, h := hs[..|hs| - 1], hs[|hs| - 1];
      BothIsLineRun(p, front);
      var before, more := ListenerEvents(p, front), LineEventOf(BothRun(p, front), h);
      BothStepIsLineStep(BothRun(p, front), h);
      if more == [] {
        assert before + more == before;
      } else {
        assert (before + more)[..|before|] == before;
      }
    }
  }

  lemma BothStepIsLineStep(p: Both, h: Happening)
    requires p.Valid()
    ensures var more := LineEventOf(p, h);
            BothStep(p, h).b == if more == [] then p.b else LineStep(p.b, more[0])
  {
    hide QuietStep, InterludeStep, OnEdge, RxOnEdge;
  }

  /** From acceptance to completion, over one run of both cards on one line, whoever else drives it. The
      sender, with nothing engaged, accepts one message in the run, gives up any number of attempts at it,
      and is about to start another; all that the listener has met are quiet and collisions, each found by
      a pass and followed by quiet. Then none of the attempts before has completed, all they have shown are
      refused single bytes, and this attempt shows the message, once, and completes it. */
  lemma {:induction false} MessageAppearsOnce(p: Both, rec0: Record, hs: seq<Happening>,
                                              before: seq<Quiet>, cs: seq<Torn>,
                                              ess: seq<seq<Interlude>>, qs: seq<seq<Quiet>>, gap: seq<Quiet>)
    requires p.Valid() && Sound(rec0) && rec0.tx == p.card.tx && !Engaged(rec0.tx) && rec0.tx.packetMode
    requires Ready(p.b) && p.b.rx.asm.queue == [] && p.b.rx.packetMode
    requires ListenerEvents(p, hs) == Stills(before) + AllEvents(cs) && AllTorn(Settle(p.b, before), cs)
    requires |Run(rec0, TxEvents(p, hs)).accepted| == |rec0.accepted| + 1
    requires Loaded(BothRun(p, hs).card.tx) && Ready(BothRun(p, hs).card.st)
    requires |ess| == |qs| == 8 * |BothRun(p, hs).card.tx.buf| && AllTolerable(SeenAll(ess)) && AllTolerable(qs)
    requires Duration(gap) >= SYSTICK_TICKS
    ensures var rec, now := Run(rec0, TxEvents(p, hs)), BothRun(p, hs);
            && Sound(rec) && Completions(rec.log) == Completions(rec0.log)
            && OnlyScraps(now.b.rx.inbox, p.b.rx.inbox, |cs|)
            && var b' := Listener(now.b, now.card, ess, qs, gap);
               && ShowsOneMore(b'.rx, now.b.rx)
               && ShowsMessage(b'.rx.inbox[|now.b.rx.inbox|], Message(rec0.tx.src, rec0.tx.dest, Current(rec)))
               && !Engaged(Done(now.card, ess).tx)
  {
    hide Run, BothRun, TxEvents, ListenerEvents, AllEvents, AllTorn, Listener, ShowsMessage, Encoded, Crc, Tolerable,
         Done, Busy, OnlyScraps, LineRun, Survive, LogSound, Payload, Driving, Completions, Invariant, Settle, Stills;
    var rec, now := Run(rec0, TxEvents(p, hs)), BothRun(p, hs);
    SoundRun(rec0, TxEvents(p, hs));
    BothIsTxRun(p, hs, rec0);
    RunKeepsConfig(rec0, TxEvents(p, hs));
    BothIsLineRun(p, hs);
    LineRunConcat(p.b, Stills(before), AllEvents(cs));
    LineRunStills(p.b, before);
    EmptySettles(p.b, before);
    SettleResting(p.b, before);
    SurviveIsRun(Settle(p.b, before), cs);
    SurviveScraps(Settle(p.b, before), cs);
    AttemptShown(rec, now.card.st, now.b, ess, qs, gap);
  }
}
