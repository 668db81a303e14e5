/** What a listening card shows: which bytes make up each delivery. */
module Deliveries {
  import opened Bytes
  import opened RingBuffers
  import opened Crc8
  import opened Packets
  import opened Manchester
  import opened Monitors
  import opened Receivers
  import opened Link

  // ---- The ring and the screen ----

  /** What has been shown, and what waits in the ring. */
  datatype Shelf = Shelf(desk: Rx, ring: seq<Byte>) {
    predicate Valid() {
      desk.Valid() && |ring| < BUF_SIZE
    }

    /** One buffer's worth. */
    function Portion(): (bs: seq<Byte>)
      ensures |bs| <= SIZEOF_PACKET && bs <= ring && (|ring| <= SIZEOF_PACKET ==> bs == ring)
    {
      if |ring| <= SIZEOF_PACKET then ring else ring[..SIZEOF_PACKET]
    }

    /** It is shown, if there is anything. */
    function Drain(): (s: Shelf)
      requires Valid()
      ensures s.Valid()
    {
      if ring == [] then this else Shelf(Shown(desk, Portion()), ring[|Portion()|..])
    }

    function Drained(k: nat): (s: Shelf)
      requires Valid()
      ensures s.Valid()
    {
      if k == 0 then this else Drained(k - 1).Drain()
    }

    /** Bytes arrive. */
    function Put(bs: seq<Byte>): (s: Shelf)
      requires Valid()
      ensures s.Valid()
    {
      EnqueueAllFits(ring, bs);
      Shelf(desk, EnqueueAll(ring, bs))
    }
  }

  predicate Holds(r: Rx, s: Shelf) {
    SameDesk(r, s.desk) && r.asm.queue == s.ring
  }

  lemma {:induction false} DrainedRing(s: Shelf, k: nat)
    requires s.Valid()
    ensures |s.Drained(k).ring| == if |s.ring| <= SIZEOF_PACKET * k then 0 else |s.ring| - SIZEOF_PACKET * k
  {
    hide Shown;
    if k > 0 {
      DrainedRing(s, k - 1);
    }
  }

  lemma {:induction false} DrainedTwice(s: Shelf, j: nat, k: nat)
    requires s.Valid()
    ensures s.Drained(j).Drained(k) == s.Drained(j + k)
  {
    hide Shelf.Drain;
    if k > 0 {
      DrainedTwice(s, j, k - 1);
    }
  }

  /** The desk after showing what there is to show. */
  function ShownIf(desk: Rx, bs: seq<Byte>): (r: Rx)
    requires desk.Valid() && |bs| <= SIZEOF_PACKET
    ensures r.Valid()
  {
    if bs == [] then desk else Shown(desk, bs)
  }

  /** What fits one drain is shown by the first. */
  lemma {:induction false} DrainedAtOnce(s: Shelf, k: nat)
    requires s.Valid() && |s.ring| <= SIZEOF_PACKET
    ensures s.Drained(k) == if k == 0 then s else Shelf(ShownIf(s.desk, s.ring), [])
  {
    hide Shown;
    if k > 0 {
      DrainedAtOnce(s, k - 1);
      assert s.ring[|s.ring|..] == [];
    }
  }

  lemma ShownDependsOnDesk(r: Rx, desk: Rx, bs: seq<Byte>)
    requires r.Valid() && desk.Valid() && SameDesk(r, desk) && |bs| <= SIZEOF_PACKET
    ensures SameDesk(Shown(r, bs), Shown(desk, bs)) && Shown(r, bs).asm == r.asm
  {
    hide Parsed, Terminated;
  }

  lemma SameDeskShownIf(a: Rx, b: Rx, bs: seq<Byte>)
    requires a.Valid() && b.Valid() && SameDesk(a, b) && |bs| <= SIZEOF_PACKET
    ensures SameDesk(ShownIf(a, bs), ShownIf(b, bs))
  {
    hide Shown;
    ShownDependsOnDesk(a, b, bs);
  }

  lemma {:induction false} SameDeskDrained(a: Shelf, b: Shelf, k: nat)
    requires a.Valid() && b.Valid() && SameDesk(a.desk, b.desk) && a.ring == b.ring
    ensures SameDesk(a.Drained(k).desk, b.Drained(k).desk) && a.Drained(k).ring == b.Drained(k).ring
  {
    hide Shown;
    if k > 0 {
      SameDeskDrained(a, b, k - 1);
      var s, t := a.Drained(k - 1), b.Drained(k - 1);
      if s.ring != [] {
        ShownDependsOnDesk(s.desk, t.desk, s.Portion());
      }
    }
  }

  /** Deliveries stay; the first one is of the first bytes in the ring. */
  lemma {:induction false} DrainedInbox(s: Shelf, k: nat)
    requires s.Valid()
    ensures var t := s.Drained(k);
            && s.desk.inbox <= t.desk.inbox && t.desk.packetMode == s.desk.packetMode
            && if k == 0 || s.ring == [] then t == s else Shown(s.desk, s.Portion()).inbox <= t.desk.inbox
  {
    hide Parsed, Terminated, Buffered;
    if k > 0 {
      DrainedInbox(s, k - 1);
    }
  }

  // ---- Between two edges, the line high ----

  /** How many main-loop passes in q find the monitor idle. */
  function IdlePasses(st: Station, q: seq<Quiet>): nat
    requires st.rx.Valid()
  {
    if q == [] then 0
    else
      var front := q[..|q| - 1];
      IdlePasses(st, front) + if q[|q| - 1] == Pass && Settle(st, front).mon.state == MS_IDLE then 1 else 0
  }

  lemma {:induction false} NoPasses(st: Station, q: seq<Quiet>)
    requires st.rx.Valid() && Pass !in q
    ensures IdlePasses(st, q) == 0
  {
    hide Settle;
    if q != [] {
      assert q[|q| - 1] in q;
      NoPasses(st, q[..|q| - 1]);
    }
  }

  lemma ConsistentQuiet(st: Station, e: Quiet)
    requires Consistent(st)
    ensures Consistent(QuietStep(st, e)) && QuietStep(st, e).line == st.line
  {
    hide Parsed, Terminated, Buffered;
  }

  lemma {:induction false} ConsistentSettles(st: Station, q: seq<Quiet>)
    requires Consistent(st)
    ensures Consistent(Settle(st, q)) && Settle(st, q).line == st.line
  {
    hide QuietStep, Busy;
    if q != [] {
      ConsistentSettles(st, q[..|q| - 1]);
      ConsistentQuiet(Settle(st, q[..|q| - 1]), q[|q| - 1]);
    }
  }

  lemma DrainStep(st: Station, e: Quiet, s: Shelf)
    requires Consistent(st) && st.line && s.Valid() && Holds(st.rx, s)
    ensures Holds(QuietStep(st, e).rx, if e == Pass && st.mon.state == MS_IDLE then s.Drain() else s)
  {
    hide Shown;
    if e == Pass && st.mon.state == MS_IDLE && s.ring != [] {
      var r := ResetIfIdle(st.rx, MS_IDLE);
      assert s.ring[..|s.Portion()|] == s.Portion();
      ShownDependsOnDesk(r.(asm := r.asm.(queue := s.ring[|s.Portion()|..])), s.desk, s.Portion());
    }
  }

  /** Every pass that finds the monitor idle drains the ring once; nothing else touches it. */
  lemma {:induction false} SettleDrains(st: Station, q: seq<Quiet>, s: Shelf)
    requires Consistent(st) && st.line && s.Valid() && Holds(st.rx, s)
    ensures Holds(Settle(st, q).rx, s.Drained(IdlePasses(st, q)))
  {
    hide QuietStep, Busy, Shelf.Drain, Holds;
    if q != [] {
      var front, e := q[..|q| - 1], q[|q| - 1];
      SettleDrains(st, front, s);
      ConsistentSettles(st, front);
      DrainStep(Settle(st, front), e, s.Drained(IdlePasses(st, front)));
    }
  }

  /** What fits one drain is shown, all of it in one delivery, by the first pass that finds the monitor
      idle, and not before. */
  lemma PendingSettles(st: Station, q: seq<Quiet>, s: Shelf)
    requires Consistent(st) && st.line && s.Valid() && |s.ring| <= SIZEOF_PACKET && Holds(st.rx, s)
    ensures Holds(Settle(st, q).rx, if IdlePasses(st, q) == 0 then s else Shelf(ShownIf(s.desk, s.ring), []))
  {
    hide Settle, ShownIf, IdlePasses, Busy;
    SettleDrains(st, q, s);
    DrainedAtOnce(s, IdlePasses(st, q));
  }

  lemma SettlePass(st: Station, q: seq<Quiet>)
    requires st.rx.Valid()
    ensures Settle(st, q + [Pass]) == QuietStep(Settle(st, q), Pass)
    ensures IdlePasses(st, q + [Pass])
         == IdlePasses(st, q) + if Settle(st, q).mon.state == MS_IDLE then 1 else 0
  {
    hide QuietStep;
    assert (q + [Pass])[..|q|] == q;
  }

  /** Once the line has been quiet for the monitor's timeout, a pass finds it idle. */
  lemma QuietPass(st: Station, q: seq<Quiet>)
    requires Consistent(st) && st.line && Duration(q) >= SYSTICK_TICKS
    ensures IdlePasses(st, q + [Pass]) == IdlePasses(st, q) + 1
    ensures var st' := Settle(st, q + [Pass]);
            st' == QuietStep(Settle(st, q), Pass) && Ready(st') && st'.mon.state == MS_IDLE
  {
    hide RxMain, RxAfter, IdlePasses;
    SettlePass(st, q);
    SettleMonitor(st, q);
    Stabilises(Settle(st, q), []);
  }

  /** From the first pass that finds the monitor idle the station is ready. */
  lemma {:induction false} ReadyAfterIdlePass(st: Station, q: seq<Quiet>)
    requires Consistent(st) && st.line && IdlePasses(st, q) > 0
    ensures Ready(Settle(st, q))
  {
    hide QuietStep, Busy, Decoded;
    var front, e := q[..|q| - 1], q[|q| - 1];
    ConsistentSettles(st, front);
    if e == Pass && Settle(st, front).mon.state == MS_IDLE {
      Stabilises(Settle(st, front), []);
    } else {
      ReadyAfterIdlePass(st, front);
      RestingStep(Settle(st, front), e);
    }
  }

  lemma EmptyStep(st: Station, e: Quiet)
    requires st.rx.Valid() && st.rx.asm.queue == []
    ensures var r := QuietStep(st, e).rx; SameDesk(r, st.rx) && r.asm.queue == []
  {
  }

  lemma {:induction false} EmptySettles(st: Station, q: seq<Quiet>)
    requires st.rx.Valid() && st.rx.asm.queue == []
    ensures var r := Settle(st, q).rx; SameDesk(r, st.rx) && r.asm.queue == []
  {
    hide QuietStep;
    if q != [] {
      EmptySettles(st, q[..|q| - 1]);
      EmptyStep(Settle(st, q[..|q| - 1]), q[|q| - 1]);
    }
  }

  // ---- Frames ----

  /** The quiet time of a frame before its first edge: a leading 0 looks like the resting line. */
  function Lead(f: Sent): (q: seq<Quiet>)
    requires f.Valid()
  {
    if StartsLow(f.bytes) then f.halfBits[0] else []
  }

  /** A frame has been sent and the line is high again. */
  function HighAfter(st: Station, f: Sent): (st': Station)
    requires st.rx.Valid() && f.Valid()
    ensures st'.rx.Valid()
  {
    Drive(After(st, Line(BitsOf(f.bytes)), f.halfBits, 16 * |f.bytes|), true)
  }

  lemma LeadingZeroUnseen(st: Station, bits: seq<bool>, qs: seq<seq<Quiet>>)
    requires st.rx.Valid() && st.line && bits != [] && !bits[0] && |qs| >= 2 * |bits|
    ensures After(st, Line(bits), qs, Unseen(bits)) == Settle(st, qs[0])
  {
    hide Line, RxOnEdge, QuietStep;
    LinePair(bits, 0);
    assert After(st, Line(bits), qs, 0) == st;
  }

  lemma LeadIsUnseen(st: Station, f: Sent)
    requires st.rx.Valid() && f.Valid() && st.line
    ensures After(st, Line(BitsOf(f.bytes)), f.halfBits, Unseen(BitsOf(f.bytes))) == Settle(st, Lead(f))
  {
    hide BitsOf, Line, Hold, QuietStep, Tolerable;
    if StartsLow(f.bytes) {
      LeadingZeroUnseen(st, BitsOf(f.bytes), f.halfBits);
    }
  }

  /** A frame has ended; s is what has been shown and what is in the ring. */
  predicate Ended(high: Station, s: Shelf) {
    Over(high) && high.rx.asm.currBit == 0 && Holds(high.rx, s)
  }

  /** A frame joins what is in the ring before its first edge. */
  lemma FrameJoins(st: Station, f: Sent, s: Shelf)
    requires st.rx.Valid() && st.line && f.Valid() && Ready(Settle(st, Lead(f)))
    requires s.Valid() && Holds(Settle(st, Lead(f)).rx, s)
    ensures Ended(HighAfter(st, f), s.Put(HeardBytes(f.bytes)))
  {
    hide Drive, Hold, Settle, Line, Busy, BitsOf, HeardBytes, TakeAll, Lead, StartsLow, After;
    var bits, before := BitsOf(f.bytes), Settle(st, Lead(f));
    LeadIsUnseen(st, f);
    HeardExactly(f.bytes);
    TakeAnyBytes(before.rx.asm, HeardBytes(f.bytes));
    FrameReceived(st, before, bits, f.halfBits);
  }

  /** A frame that fits one drain, sent to a station with an empty ring, is shown as one delivery, never
      in part, and at the latest by a pass after the line has been quiet for the monitor's timeout. */
  lemma FrameDelivered(st: Station, f: Sent)
    requires Ready(st) && st.rx.asm.queue == [] && f.Valid() && |f.bytes| <= SIZEOF_PACKET
    requires Duration(f.gap) >= SYSTICK_TICKS
    ensures var st' := QuietStep(Frame(st, BitsOf(f.bytes), f.halfBits, f.gap), Pass);
            && Ready(st') && st'.mon.state == MS_IDLE
            && SameDesk(st'.rx, Shown(st.rx, HeardBytes(f.bytes))) && st'.rx.asm.queue == []
  {
    hide Drive, After, Settle, Line, BitsOf, HeardBytes, Lead, StartsLow, Shown, RxMain, Tolerable, IdlePasses;
    var high, s := HighAfter(st, f), Shelf(st.rx, []);
    SettleResting(st, Lead(f));
    EmptySettles(st, Lead(f));
    FrameJoins(st, f, s);
    EnqueueAllFits([], HeardBytes(f.bytes));
    QuietPass(high, f.gap);
    PendingSettles(high, f.gap + [Pass], Shelf(st.rx, HeardBytes(f.bytes)));
  }

  // ---- Several frames ----

  /** The station when the last frame has been sent and the line is high again. */
  function Last(st: Station, frames: seq<Sent>): (st': Station)
    requires st.rx.Valid() && frames != [] && AllValid(frames)
    ensures st'.rx.Valid()
  {
    HighAfter(Frames(st, frames[..|frames| - 1]), frames[|frames| - 1])
  }

  /** How many main-loop passes find the monitor idle between the frame before and the first edge of
      frame i. */
  function Passes(st: Station, frames: seq<Sent>, i: nat): nat
    requires st.rx.Valid() && i < |frames| && AllValid(frames)
  {
    if i == 0 then IdlePasses(st, Lead(frames[0]))
    else IdlePasses(Last(st, frames[..i]), frames[i - 1].gap + Lead(frames[i]))
  }

  lemma PassesInFront(st: Station, frames: seq<Sent>, i: nat)
    requires st.rx.Valid() && i + 1 < |frames| && AllValid(frames)
    ensures Passes(st, frames[..|frames| - 1], i) == Passes(st, frames, i)
  {
    hide IdlePasses, Last, Lead, Sent.Valid;
    if i > 0 {
      assert frames[..|frames| - 1][..i] == frames[..i];
    }
  }

  /** What has been shown and what is in the ring when the last frame has ended. */
  function Shelved(st: Station, frames: seq<Sent>): (s: Shelf)
    requires st.rx.Valid() && AllValid(frames)
    ensures s.Valid()
  {
    if frames == [] then Shelf(st.rx, st.rx.asm.queue)
    else
      var n := |frames| - 1;
      Shelved(st, frames[..n]).Drained(Passes(st, frames, n)).Put(HeardBytes(frames[n].bytes))
  }

  /** No frame finds the ring too full for it. */
  predicate NoOverflow(st: Station, frames: seq<Sent>)
    requires st.rx.Valid() && AllValid(frames)
  {
    frames == []
    || var n := |frames| - 1;
       && NoOverflow(st, frames[..n])
       && |Shelved(st, frames[..n]).Drained(Passes(st, frames, n)).ring| + |frames[n].bytes| < BUF_SIZE
  }

  /** So it is if all of them fit together, whatever passes run. */
  lemma {:induction false} FitTogether(st: Station, frames: seq<Sent>)
    requires st.rx.Valid() && AllValid(frames) && |st.rx.asm.queue| + |AllBytes(frames)| < BUF_SIZE
    ensures NoOverflow(st, frames)
    ensures |Shelved(st, frames).ring| <= |st.rx.asm.queue| + |AllBytes(frames)|
  {
    hide Passes, HeardBytes, Sent.Valid, Shelf.Drained, EnqueueAll;
    if frames != [] {
      var n := |frames| - 1;
      FitTogether(st, frames[..n]);
      var s := Shelved(st, frames[..n]).Drained(Passes(st, frames, n));
      DrainedRing(Shelved(st, frames[..n]), Passes(st, frames, n));
      EnqueueAllFits(s.ring, HeardBytes(frames[n].bytes));
    }
  }

  lemma {:induction false} DurationConcat(p: seq<Quiet>, q: seq<Quiet>)
    ensures Duration(p + q) == Duration(p) + Duration(q)
  {
    if q == [] {
      assert p + q == p;
    } else {
      DurationConcat(p, q[..|q| - 1]);
      assert (p + q)[..|p + q| - 1] == p + q[..|q| - 1];
    }
  }

  /** The next frame finds what the passes since the last one have left. */
  lemma NextFrame(high: Station, gap: seq<Quiet>, f: Sent, s: Shelf)
    requires s.Valid() && Ended(high, s) && f.Valid() && Duration(gap) >= HALFBIT_TIMEOUT_TICKS
    ensures Ended(HighAfter(Settle(high, gap), f),
                  s.Drained(IdlePasses(high, gap + Lead(f))).Put(HeardBytes(f.bytes)))
  {
    hide HighAfter, Lead, Settle, HeardBytes, Sent.Valid, IdlePasses, Busy, Shelf.Drained;
    var q := gap + Lead(f);
    DurationConcat(gap, Lead(f));
    SettleConcat(high, gap, Lead(f));
    SettleResting(high, q);
    SettleResting(high, gap);
    SettleDrains(high, q, s);
    FrameJoins(Settle(high, gap), f, s.Drained(IdlePasses(high, q)));
  }

  lemma LastThenGap(st: Station, frames: seq<Sent>)
    requires st.rx.Valid() && frames != [] && AllValid(frames)
    ensures Frames(st, frames) == Settle(Last(st, frames), frames[|frames| - 1].gap)
  {
    hide After, Drive, Settle, Line, BitsOf, AllTolerable;
    var f := frames[|frames| - 1];
    assert f.Valid();
    assert |BitsOf(f.bytes)| == 8 * |f.bytes|;
  }

  lemma ValidGap(f: Sent)
    requires f.Valid()
    ensures Duration(f.gap) >= HALFBIT_TIMEOUT_TICKS
  {
  }

  lemma FirstFrame(st: Station, frames: seq<Sent>)
    requires Ready(st) && |frames| == 1 && AllValid(frames)
    ensures Ended(Last(st, frames), Shelved(st, frames))
  {
    hide HighAfter, Lead, Settle, HeardBytes, Sent.Valid, Busy, IdlePasses, Shelf.Drained;
    var f, s := frames[0], Shelf(st.rx, st.rx.asm.queue);
    assert frames[..0] == [];
    assert Shelved(st, frames[..0]) == s;
    SettleResting(st, Lead(f));
    SettleDrains(st, Lead(f), s);
    FrameJoins(st, f, s.Drained(IdlePasses(st, Lead(f))));
  }

  lemma {:induction false} FramesHeld(st: Station, frames: seq<Sent>)
    requires Ready(st) && frames != [] && AllValid(frames)
    ensures Ended(Last(st, frames), Shelved(st, frames))
  {
    hide HighAfter, Lead, Settle, HeardBytes, Sent.Valid, Ended, Busy, Frame, IdlePasses, Shelf.Drained;
    var n, front := |frames| - 1, frames[..|frames| - 1];
    if n == 0 {
      FirstFrame(st, frames);
    } else {
      FramesHeld(st, front);
      LastThenGap(st, front);
      ValidGap(front[n - 1]);
      NextFrame(Last(st, front), front[n - 1].gap, frames[n], Shelved(st, front));
    }
  }

  /** Any number of frames, of whatever bytes, at any tolerable timing and with main-loop passes anywhere:
      at any time after them, what has been shown and what has not is what the frames, joining the ring
      one by one, and the idle passes between and behind them make it, overflows included. */
  lemma FramesShown(st: Station, frames: seq<Sent>, q: seq<Quiet>)
    requires Ready(st) && frames != [] && AllValid(frames)
    ensures var high := Last(st, frames);
            && Resting(Settle(high, q))
            && Holds(Settle(high, q).rx, Shelved(st, frames).Drained(IdlePasses(high, q)))
  {
    hide Last, Settle, HeardBytes, Sent.Valid, IdlePasses, Shelf.Drained, Busy, Shelved;
    FramesHeld(st, frames);
    SettleResting(Last(st, frames), q);
    SettleDrains(Last(st, frames), q, Shelved(st, frames));
  }

  // ---- What any run shows ----

  /** One delivery more. */
  predicate ShowsOneMore(r: Rx, before: Rx) {
    |r.inbox| == |before.inbox| + 1 && r.inbox[..|before.inbox|] == before.inbox
  }

  /** A text; or a packet with the parser's verdict, and, accepted or not, with the fields the bytes have. */
  predicate Delivers(d: Delivery, bs: seq<Byte>, packetMode: bool) {
    && d.bytes == bs && d.Parcel? == packetMode
    && (d.Parcel? ==> (d.accepted <==> Acceptable(bs)))
    && (d.Parcel? && |bs| >= 8 ==>
          && d.packet.synch == bs[0] && d.packet.ver == bs[1] && d.packet.src == bs[2] && d.packet.dest == bs[3]
          && d.packet.length == bs[4] && d.packet.crcFlag == bs[5]
          && (|bs| - 7 >= bs[4] ==>
                && bs[4] <= |d.packet.msg| && d.packet.msg[..bs[4]] == bs[6..6 + bs[4]]
                && (bs[5] != 0 || bs[|bs| - 1] == 0xAA ==> d.packet.fcs == bs[|bs| - 1])))
  }

  lemma ShownDelivers(r: Rx, bs: seq<Byte>)
    requires r.Valid() && |bs| <= SIZEOF_PACKET
    ensures var s := Shown(r, bs);
            s.packetMode == r.packetMode && ShowsOneMore(s, r) && Delivers(s.inbox[|r.inbox|], bs, r.packetMode)
  {
    hide Parsed, Terminated, Buffered, Acceptable;
    ParseIsExact(r.pkt, bs);
    ParseLeaves(r.pkt, bs);
  }

  /** The message array as it is displayed, byte by byte: the message if all of it is there, a terminator
      behind a length below 254, and what an earlier packet left elsewhere; the other fields are those
      that ph_parse leaves. */
  lemma ShownPacketExactly(r: Rx, bs: seq<Byte>)
    requires r.Valid() && r.packetMode && |bs| <= SIZEOF_PACKET
    ensures var s := Shown(r, bs);
            && ShowsOneMore(s, r) && s.inbox[|r.inbox|].Parcel?
            && var p, there := s.inbox[|r.inbox|].packet, |bs| >= 8 && |bs| - 7 >= bs[4];
               && s.pkt == p && p.Valid() && (|bs| < 8 ==> p == Terminated(r.pkt))
               && p.fcs == (if there && (bs[5] != 0 || bs[|bs| - 1] == 0xAA) then bs[|bs| - 1] else r.pkt.fcs)
               && (forall i | 0 <= i < 255 ::
                     p.msg[i] == if i == p.length && i < 254 then 0
                                 else if there && i < p.length then bs[6 + i]
                                 else r.pkt.msg[i])
  {
    hide Parsed, Buffered;
    var p := Parsed(r.pkt, bs).0;
    ParseLeaves(r.pkt, bs);
    if |bs| >= 8 && |bs| - 7 >= bs[4] {
      assert forall i | 0 <= i < p.length as int :: p.msg[i] == p.msg[..bs[4]][i] == bs[6 + i];
      assert forall i | p.length as int <= i < 255 :: p.msg[i] == p.msg[bs[4]..][i - bs[4]] == r.pkt.msg[i];
    }
  }

  /** A delivery is as long as a drain can be, or ends where a frame ends. */
  predicate EndsWhole(st: Station, frames: seq<Sent>, inbox: seq<Delivery>, m: nat)
    requires m < |inbox|
  {
    || |inbox[m].bytes| == SIZEOF_PACKET
    || exists j: nat :: j <= |frames| && Shipped(inbox[..m + 1]) == Decoded(st.rx) + AllHeard(frames[..j])
  }

  /** The deliveries since st, and the bytes still in the ring, are what has been heard, in order; each
      delivery ends whole and carries the parser's verdict on its bytes. */
  predicate Cut(st: Station, frames: seq<Sent>, inbox: seq<Delivery>, ring: seq<Byte>) {
    && |st.rx.inbox| <= |inbox| && inbox[..|st.rx.inbox|] == st.rx.inbox
    && Shipped(inbox) + ring == Decoded(st.rx) + AllHeard(frames)
    && forall m: nat | |st.rx.inbox| <= m < |inbox| ::
         EndsWhole(st, frames, inbox, m) && Delivers(inbox[m], inbox[m].bytes, st.rx.packetMode)
  }

  lemma CutDrain(st: Station, frames: seq<Sent>, s: Shelf)
    requires s.Valid() && s.desk.packetMode == st.rx.packetMode && Cut(st, frames, s.desk.inbox, s.ring)
    ensures var t := s.Drain();
            t.desk.packetMode == st.rx.packetMode && Cut(st, frames, t.desk.inbox, t.ring)
  {
    hide Shown, Delivers, Decoded, AllHeard;
    var t, n := s.Drain(), |s.desk.inbox|;
    if s.ring != [] {
      var bs := s.Portion();
      ShownDelivers(s.desk, bs);
      DeliversBytes(t.desk.inbox[n], bs, s.desk.packetMode);
      assert bs + s.ring[|bs|..] == s.ring;
      assert Shipped(t.desk.inbox) == Shipped(s.desk.inbox) + bs;
      assert t.desk.inbox[..|st.rx.inbox|] == t.desk.inbox[..n][..|st.rx.inbox|];
      forall m: nat | |st.rx.inbox| <= m < |t.desk.inbox|
        ensures EndsWhole(st, frames, t.desk.inbox, m)
        ensures Delivers(t.desk.inbox[m], t.desk.inbox[m].bytes, st.rx.packetMode)
      {
        if m < n {
          assert t.desk.inbox[..n][m] == s.desk.inbox[m];
          assert t.desk.inbox[..m + 1] == t.desk.inbox[..n][..m + 1];
        } else if |bs| < SIZEOF_PACKET {
          assert t.desk.inbox[..m + 1] == t.desk.inbox && frames[..|frames|] == frames;
        }
      }
    }
  }

  lemma DeliversBytes(d: Delivery, bs: seq<Byte>, packetMode: bool)
    requires Delivers(d, bs, packetMode)
    ensures d.bytes == bs
  {
  }

  lemma {:induction false} CutDrained(st: Station, frames: seq<Sent>, s: Shelf, k: nat)
    requires s.Valid() && s.desk.packetMode == st.rx.packetMode && Cut(st, frames, s.desk.inbox, s.ring)
    ensures var t := s.Drained(k);
            t.desk.packetMode == st.rx.packetMode && Cut(st, frames, t.desk.inbox, t.ring)
  {
    hide Cut, Shelf.Drain;
    if k > 0 {
      CutDrained(st, frames, s, k - 1);
      CutDrain(st, frames, s.Drained(k - 1));
    }
  }

  lemma EndsWholeStill(st: Station, frames: seq<Sent>, inbox: seq<Delivery>, m: nat)
    requires frames != [] && m < |inbox| && EndsWhole(st, frames[..|frames| - 1], inbox, m)
    ensures EndsWhole(st, frames, inbox, m)
  {
    hide Decoded, Shipped, AllHeard;
    if |inbox[m].bytes| != SIZEOF_PACKET {
      var front := frames[..|frames| - 1];
      var j: nat :| j <= |front| && Shipped(inbox[..m + 1]) == Decoded(st.rx) + AllHeard(front[..j]);
      assert front[..j] == frames[..j];
    }
  }

  lemma CutPut(st: Station, frames: seq<Sent>, inbox: seq<Delivery>, ring: seq<Byte>)
    requires frames != [] && Cut(st, frames[..|frames| - 1], inbox, ring)
    ensures Cut(st, frames, inbox, ring + HeardBytes(frames[|frames| - 1].bytes))
  {
    hide Delivers, Decoded, Shipped, HeardBytes, EndsWhole;
    var heard := HeardBytes(frames[|frames| - 1].bytes);
    assert Shipped(inbox) + (ring + heard) == (Shipped(inbox) + ring) + heard;
    assert Decoded(st.rx) + AllHeard(frames) == (Decoded(st.rx) + AllHeard(frames[..|frames| - 1])) + heard;
    forall m: nat | |st.rx.inbox| <= m < |inbox|
      ensures EndsWhole(st, frames, inbox, m)
    {
      EndsWholeStill(st, frames, inbox, m);
    }
  }

  lemma {:induction false} ShelvedCut(st: Station, frames: seq<Sent>)
    requires st.rx.Valid() && AllValid(frames) && NoOverflow(st, frames)
    ensures var s := Shelved(st, frames);
            s.desk.packetMode == st.rx.packetMode && Cut(st, frames, s.desk.inbox, s.ring)
  {
    hide Passes, HeardBytes, Sent.Valid, Shelf.Drained, Delivers, EndsWhole, Shipped;
    if frames == [] {
      assert Decoded(st.rx) + AllHeard(frames) == Decoded(st.rx);
    } else {
      var n := |frames| - 1;
      ShelvedCut(st, frames[..n]);
      CutDrained(st, frames[..n], Shelved(st, frames[..n]), Passes(st, frames, n));
      var s := Shelved(st, frames[..n]).Drained(Passes(st, frames, n));
      EnqueueAllFits(s.ring, HeardBytes(frames[n].bytes));
      CutPut(st, frames, s.desk.inbox, s.ring);
    }
  }

  /** So, whatever passes run and however much piles up short of an overflow: the deliveries together are a
      prefix of what has been heard, the rest is in the ring, and each delivery has 262 bytes or ends
      where a frame ends. */
  lemma DeliveriesAreCut(st: Station, frames: seq<Sent>, q: seq<Quiet>)
    requires Ready(st) && frames != [] && AllValid(frames) && NoOverflow(st, frames)
    ensures var r := Settle(Last(st, frames), q).rx; Cut(st, frames, r.inbox, r.asm.queue)
  {
    hide Last, Settle, Cut, Sent.Valid, IdlePasses, Shelf.Drained, Busy, Shelved;
    FramesShown(st, frames, q);
    ShelvedCut(st, frames);
    CutDrained(st, frames, Shelved(st, frames), IdlePasses(Last(st, frames), q));
  }

  /** The same as far as it holds with overflows too: no more is shown than has been heard. */
  predicate Ledger(st: Station, frames: seq<Sent>, inbox: seq<Delivery>, ring: seq<Byte>) {
    && st.rx.inbox <= inbox
    && |Shipped(inbox)| + |ring| <= |Decoded(st.rx)| + |AllHeard(frames)|
    && forall m: nat | |st.rx.inbox| <= m < |inbox| :: Delivers(inbox[m], inbox[m].bytes, st.rx.packetMode)
  }

  lemma LedgerDrain(st: Station, frames: seq<Sent>, s: Shelf)
    requires s.Valid() && s.desk.packetMode == st.rx.packetMode && Ledger(st, frames, s.desk.inbox, s.ring)
    ensures var t := s.Drain();
            && t.desk.packetMode == st.rx.packetMode && Ledger(st, frames, t.desk.inbox, t.ring)
            && |Shipped(t.desk.inbox)| + |t.ring| == |Shipped(s.desk.inbox)| + |s.ring|
  {
    hide Shown, Delivers, Decoded, AllHeard;
    var t, n := s.Drain(), |s.desk.inbox|;
    if s.ring != [] {
      ShownDelivers(s.desk, s.Portion());
      DeliversBytes(t.desk.inbox[n], s.Portion(), s.desk.packetMode);
      assert t.desk.inbox[..n] == s.desk.inbox;
      assert forall m | 0 <= m < n :: t.desk.inbox[m] == s.desk.inbox[m];
    }
  }

  lemma {:induction false} LedgerDrained(st: Station, frames: seq<Sent>, s: Shelf, k: nat)
    requires s.Valid() && s.desk.packetMode == st.rx.packetMode && Ledger(st, frames, s.desk.inbox, s.ring)
    ensures var t := s.Drained(k);
            t.desk.packetMode == st.rx.packetMode && Ledger(st, frames, t.desk.inbox, t.ring)
  {
    hide Ledger, Shelf.Drain, Shipped;
    if k > 0 {
      LedgerDrained(st, frames, s, k - 1);
      LedgerDrain(st, frames, s.Drained(k - 1));
    }
  }

  lemma {:induction false} ShelvedLedger(st: Station, frames: seq<Sent>)
    requires st.rx.Valid() && AllValid(frames)
    ensures var s := Shelved(st, frames);
            s.desk.packetMode == st.rx.packetMode && Ledger(st, frames, s.desk.inbox, s.ring)
  {
    hide Passes, HeardBytes, Sent.Valid, Shelf.Drained, Delivers, Shipped, EnqueueAll;
    if frames != [] {
      var n := |frames| - 1;
      ShelvedLedger(st, frames[..n]);
      LedgerDrained(st, frames[..n], Shelved(st, frames[..n]), Passes(st, frames, n));
      var s := Shelved(st, frames[..n]).Drained(Passes(st, frames, n));
      EnqueueAllFits(s.ring, HeardBytes(frames[n].bytes));
    }
  }

  // ---- What is shown together ----

  /** Between frame i and the first edge of the next one a main-loop pass finds the monitor idle. */
  predicate Separated(st: Station, frames: seq<Sent>, i: nat)
    requires st.rx.Valid() && i + 1 < |frames| && AllValid(frames)
  {
    Passes(st, frames, i + 1) > 0
  }

  /** What belongs together: the batches already over, and the one still growing. */
  datatype Batches = Batches(done: seq<seq<Byte>>, open: seq<Byte>) {
    function All(): seq<seq<Byte>> {
      done + [open]
    }
  }

  function Batched(st: Station, frames: seq<Sent>): (b: Batches)
    requires st.rx.Valid() && frames != [] && AllValid(frames)
  {
    var heard := HeardBytes(frames[|frames| - 1].bytes);
    if |frames| == 1 then Batches([], heard)
    else
      var b := Batched(st, frames[..|frames| - 1]);
      if Separated(st, frames, |frames| - 2) then Batches(b.All(), heard) else Batches(b.done, b.open + heard)
  }

  /** Every batch fits one drain. */
  predicate AllFit(batches: seq<seq<Byte>>) {
    forall i | 0 <= i < |batches| :: |batches[i]| <= SIZEOF_PACKET
  }

  function ShownAll(desk: Rx, batches: seq<seq<Byte>>): (r: Rx)
    requires desk.Valid() && AllFit(batches)
    ensures r.Valid()
  {
    if batches == [] then desk else ShownIf(ShownAll(desk, batches[..|batches| - 1]), batches[|batches| - 1])
  }

  lemma AllButOpen(desk: Rx, b: Batches)
    requires AllFit(b.All())
    ensures AllFit(b.done) && |b.open| <= SIZEOF_PACKET
    ensures desk.Valid() ==> ShownAll(desk, b.All()) == ShownIf(ShownAll(desk, b.done), b.open)
  {
    hide ShownIf;
    assert b.All()[|b.done|] == b.open && b.All()[..|b.done|] == b.done;
    assert forall i | 0 <= i < |b.done| :: b.done[i] == b.All()[i];
  }

  /** Batches only grow. */
  lemma {:induction false} FrontFits(st: Station, frames: seq<Sent>)
    requires st.rx.Valid() && |frames| >= 2 && AllValid(frames) && AllFit(Batched(st, frames).All())
    ensures AllFit(Batched(st, frames[..|frames| - 1]).All())
  {
    hide Separated, HeardBytes, Sent.Valid;
    var b0, b := Batched(st, frames[..|frames| - 1]), Batched(st, frames);
    forall i | 0 <= i < |b0.All()|
      ensures |b0.All()[i]| <= |b.All()[i]|
    {
    }
  }

  /** One frame more. */
  lemma BatchGrows(s: Shelf, k: nat, heard: seq<Byte>)
    requires s.Valid() && |s.ring| <= SIZEOF_PACKET && (if k == 0 then |s.ring| else 0) + |heard| <= SIZEOF_PACKET
    ensures s.Drained(k).Put(heard)
         == if k == 0 then Shelf(s.desk, s.ring + heard) else Shelf(ShownIf(s.desk, s.ring), heard)
  {
    hide ShownIf;
    DrainedAtOnce(s, k);
    EnqueueAllFits(if k == 0 then s.ring else [], heard);
  }

  lemma {:induction false} BatchedHeard(st: Station, frames: seq<Sent>)
    requires st.rx.Valid() && frames != [] && AllValid(frames)
    ensures |frames[|frames| - 1].bytes| <= |Batched(st, frames).open|
  {
    hide Separated, HeardBytes, Sent.Valid;
  }

  lemma ShelvedFirst(st: Station, frames: seq<Sent>)
    requires st.rx.Valid() && st.rx.asm.queue == [] && |frames| == 1 && AllValid(frames)
    requires |frames[0].bytes| <= SIZEOF_PACKET
    ensures Shelved(st, frames) == Shelf(ShownAll(st.rx, []), HeardBytes(frames[0].bytes))
  {
    hide HeardBytes, Sent.Valid, Passes, Shown, Shelf.Drained, Shelf.Put;
    assert Shelved(st, frames[..0]) == Shelf(st.rx, []);
    BatchGrows(Shelf(st.rx, []), Passes(st, frames, 0), HeardBytes(frames[0].bytes));
    assert [] + HeardBytes(frames[0].bytes) == HeardBytes(frames[0].bytes);
  }

  /** The batches that are over have been shown, one delivery each, and the growing one is in the ring. */
  lemma {:induction false} ShelvedBatches(st: Station, frames: seq<Sent>)
    requires st.rx.Valid() && st.rx.asm.queue == [] && frames != [] && AllValid(frames)
    requires AllFit(Batched(st, frames).All())
    ensures var b := Batched(st, frames);
            AllFit(b.done) && Shelved(st, frames) == Shelf(ShownAll(st.rx, b.done), b.open)
  {
    hide HeardBytes, Sent.Valid, AllFit, Passes, ShownIf, ShownAll, Shelf.Drained, Shelf.Put;
    var n, b, front := |frames| - 1, Batched(st, frames), frames[..|frames| - 1];
    AllButOpen(st.rx, b);
    BatchedHeard(st, frames);
    if n == 0 {
      ShelvedFirst(st, frames);
    } else {
      FrontFits(st, frames);
      ShelvedBatches(st, front);
      AllButOpen(st.rx, Batched(st, front));
      BatchGrows(Shelved(st, front), Passes(st, frames, n), HeardBytes(frames[n].bytes));
    }
  }

  /** If every batch fits one drain, then after the monitor's timeout and one pass each batch has been
      shown as one delivery, in order, and nothing else. */
  lemma BatchesShown(st: Station, frames: seq<Sent>)
    requires Ready(st) && st.rx.asm.queue == [] && frames != [] && AllValid(frames)
    requires AllFit(Batched(st, frames).All()) && Duration(frames[|frames| - 1].gap) >= SYSTICK_TICKS
    ensures var st' := QuietStep(Frames(st, frames), Pass);
            && Ready(st') && st'.mon.state == MS_IDLE && st'.rx.asm.queue == []
            && SameDesk(st'.rx, ShownAll(st.rx, Batched(st, frames).All()))
  {
    hide Last, Settle, Batched, ShownAll, ShownIf, AllFit, QuietStep, Busy, Shelved, Frames, IdlePasses;
    var b, high, gap := Batched(st, frames), Last(st, frames), frames[|frames| - 1].gap;
    ShelvedBatches(st, frames);
    AllButOpen(st.rx, b);
    LastThenGap(st, frames);
    FramesHeld(st, frames);
    QuietPass(high, gap);
    FramesShown(st, frames, gap + [Pass]);
    DrainedAtOnce(Shelved(st, frames), IdlePasses(high, gap + [Pass]));
  }

  function HeardEach(frames: seq<Sent>): (batches: seq<seq<Byte>>)
    ensures |batches| == |frames|
  {
    seq(|frames|, i requires 0 <= i < |frames| => HeardBytes(frames[i].bytes))
  }

  lemma SeparatedInFront(st: Station, frames: seq<Sent>, i: nat)
    requires st.rx.Valid() && i + 2 < |frames| && AllValid(frames)
    ensures Separated(st, frames[..|frames| - 1], i) <==> Separated(st, frames, i)
  {
    hide Passes, Sent.Valid;
    PassesInFront(st, frames, i + 1);
  }

  /** Every frame is a batch of its own exactly when an idle pass falls between each and the next. */
  lemma {:induction false} AloneIffSeparated(st: Station, frames: seq<Sent>)
    requires st.rx.Valid() && frames != [] && AllValid(frames)
    ensures var all := Batched(st, frames).All();
            && |all| <= |frames|
            && (all == HeardEach(frames) <==> |all| == |frames|)
            && (|all| == |frames| <==> forall i: nat | i + 1 < |frames| :: Separated(st, frames, i))
  {
    hide Separated, HeardBytes, Sent.Valid;
    var n, all := |frames|, Batched(st, frames).All();
    if n > 1 {
      var front := frames[..n - 1];
      AloneIffSeparated(st, front);
      forall i: nat | i + 2 < n
        ensures Separated(st, front, i) <==> Separated(st, frames, i)
      {
        SeparatedInFront(st, frames, i);
      }
      if Separated(st, frames, n - 2) {
        assert all == Batched(st, front).All() + [HeardBytes(frames[n - 1].bytes)];
        assert HeardEach(frames) == HeardEach(front) + [HeardBytes(frames[n - 1].bytes)];
      }
    }
  }

  /** And without any idle pass between them they are one batch. */
  lemma {:induction false} TogetherUnlessSeparated(st: Station, frames: seq<Sent>)
    requires st.rx.Valid() && frames != [] && AllValid(frames)
    requires forall i: nat | i + 1 < |frames| :: !Separated(st, frames, i)
    ensures Batched(st, frames) == Batches([], AllHeard(frames))
  {
    hide Separated, HeardBytes, Sent.Valid;
    var n := |frames|;
    if n > 1 {
      var front := frames[..n - 1];
      forall i: nat | i + 1 < |front|
        ensures !Separated(st, front, i)
      {
        SeparatedInFront(st, frames, i);
      }
      TogetherUnlessSeparated(st, front);
    } else {
      assert AllHeard(frames[..0]) == [];
    }
  }

  /** With all that the ring loses when they overflow it: what comes before the last multiple of 1028 bytes. */
  lemma {:induction false} ShelvedOverflow(st: Station, frames: seq<Sent>, k: nat)
    requires st.rx.Valid() && st.rx.asm.queue == [] && frames != [] && AllValid(frames)
    requires 1028 * k <= |AllBytes(frames)| < 1028 * k + 1028
    requires forall i: nat | i + 1 < |frames| :: !Separated(st, frames, i)
    ensures Shelved(st, frames) == Shelf(st.rx, AllHeard(frames)[1028 * k..])
  {
    hide HeardBytes, Sent.Valid, Passes, Shown, Shelf.Put;
    var n, front := |frames| - 1, frames[..|frames| - 1];
    var all, heard := AllHeard(front), HeardBytes(frames[n].bytes);
    var j := |all| / 1028;
    if n == 0 {
      assert Shelved(st, front) == Shelf(st.rx, []) && all == [];
      DrainedAtOnce(Shelf(st.rx, []), Passes(st, frames, 0));
    } else {
      forall i: nat | i + 1 < |front|
        ensures !Separated(st, front, i)
      {
        SeparatedInFront(st, frames, i);
      }
      ShelvedOverflow(st, front, j);
      assert !Separated(st, frames, n - 1);
    }
    PutOverflows(Shelf(st.rx, all[1028 * j..]), all, heard, j, k);
  }

  lemma PutOverflows(s: Shelf, all: seq<Byte>, heard: seq<Byte>, j: nat, k: nat)
    requires s.Valid() && 1028 * j <= |all| < 1028 * j + 1028 && s.ring == all[1028 * j..]
    requires 1028 * k <= |all| + |heard| < 1028 * k + 1028
    ensures s.Put(heard) == Shelf(s.desk, (all + heard)[1028 * k..])
  {
    hide EnqueueAll;
    EnqueueAllExactly(s.ring, heard, k - j);
    DropTwice(all, heard, 1028 * j, 1028 * (k - j));
  }

  lemma DropTwice(a: seq<Byte>, b: seq<Byte>, m: nat, n: nat)
    requires m <= |a| && m + n <= |a| + |b|
    ensures (a[m..] + b)[n..] == (a + b)[m + n..]
  {
  }

  /** So frames without an idle pass between them, however many: at any time after them, what is shown is
      drained from what the overflows have left. */
  lemma OverflowShown(st: Station, frames: seq<Sent>, k: nat, q: seq<Quiet>)
    requires Ready(st) && st.rx.asm.queue == [] && frames != [] && AllValid(frames)
    requires 1028 * k <= |AllBytes(frames)| < 1028 * k + 1028
    requires forall i: nat | i + 1 < |frames| :: !Separated(st, frames, i)
    ensures var high := Last(st, frames);
            Holds(Settle(high, q).rx, Shelf(st.rx, AllHeard(frames)[1028 * k..]).Drained(IdlePasses(high, q)))
  {
    hide Last, Settle, HeardBytes, Sent.Valid, IdlePasses, Shelf.Drained, Busy, Shelved, Separated;
    ShelvedOverflow(st, frames, k);
    FramesShown(st, frames, q);
  }

  /** All in one go, if it fits. */
  lemma {:induction false} ShelvedTogether(st: Station, frames: seq<Sent>)
    requires st.rx.Valid() && st.rx.asm.queue == [] && frames != [] && AllValid(frames)
    requires |AllBytes(frames)| < BUF_SIZE && forall i: nat | i + 1 < |frames| :: !Separated(st, frames, i)
    ensures Shelved(st, frames) == Shelf(st.rx, AllHeard(frames))
  {
    hide HeardBytes, Sent.Valid, Passes, Shown, EnqueueAll;
    var n, front := |frames| - 1, frames[..|frames| - 1];
    EnqueueAllFits(AllHeard(front), HeardBytes(frames[n].bytes));
    if n == 0 {
      assert Shelved(st, front) == Shelf(st.rx, []) && AllHeard(front) == [];
      DrainedAtOnce(Shelf(st.rx, []), Passes(st, frames, 0));
    } else {
      forall i: nat | i + 1 < |front|
        ensures !Separated(st, front, i)
      {
        SeparatedInFront(st, frames, i);
      }
      ShelvedTogether(st, front);
      assert !Separated(st, frames, n - 1);
    }
  }

  lemma {:induction false} NoBatchEmpty(st: Station, frames: seq<Sent>)
    requires st.rx.Valid() && frames != [] && AllValid(frames)
    ensures [] !in Batched(st, frames).All()
  {
    hide Separated, HeardBytes, Tolerable;
    if |frames| > 1 {
      NoBatchEmpty(st, frames[..|frames| - 1]);
    }
  }

  /** The deliveries of batches. */
  predicate AllDeliver(inbox: seq<Delivery>, before: seq<Delivery>, batches: seq<seq<Byte>>, packetMode: bool) {
    && |inbox| == |before| + |batches| && inbox[..|before|] == before
    && forall i | 0 <= i < |batches| :: Delivers(inbox[|before| + i], batches[i], packetMode)
  }

  lemma {:induction false} ShownAllInbox(desk: Rx, batches: seq<seq<Byte>>)
    requires desk.Valid() && AllFit(batches) && [] !in batches
    ensures var r := ShownAll(desk, batches);
            r.packetMode == desk.packetMode && AllDeliver(r.inbox, desk.inbox, batches, desk.packetMode)
  {
    hide Shown, Delivers;
    if batches != [] {
      var n := |batches| - 1;
      var before, after := ShownAll(desk, batches[..n]), ShownAll(desk, batches);
      ShownAllInbox(desk, batches[..n]);
      ShownDelivers(before, batches[n]);
      assert after.inbox[..|desk.inbox|] == after.inbox[..|before.inbox|][..|desk.inbox|];
      forall i | 0 <= i < n
        ensures Delivers(after.inbox[|desk.inbox| + i], batches[i], desk.packetMode)
      {
        assert after.inbox[..|before.inbox|][|desk.inbox| + i] == before.inbox[|desk.inbox| + i];
        assert batches[..n][i] == batches[i];
      }
    }
  }
}
