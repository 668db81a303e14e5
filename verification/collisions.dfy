/** What a listening card shows of anything that ends in a collision. */
module Collisions {
  import opened Bytes
  import opened RingBuffers
  import opened Packets
  import opened Manchester
  import opened Monitors
  import opened Receivers
  import opened Link
  import opened Deliveries

  // ---- Any line at all ----

  /** The line takes a level, or what happens between edges. */
  datatype LineEvent = Level(level: bool) | Still(e: Quiet)

  function LineStep(st: Station, e: LineEvent): (st': Station)
    requires st.rx.Valid()
    ensures st'.rx.Valid()
  {
    match e
    case Level(level) => Drive(st, level)
    case Still(q) => QuietStep(st, q)
  }

  function LineRun(st: Station, es: seq<LineEvent>): (st': Station)
    requires st.rx.Valid()
    ensures st'.rx.Valid()
  {
    if es == [] then st else LineStep(LineRun(st, es[..|es| - 1]), es[|es| - 1])
  }

  lemma ConsistentStep(st: Station, e: LineEvent)
    requires Consistent(st)
    ensures Consistent(LineStep(st, e))
  {
    hide Settle, QuietStep;
    if e.Still? {
      ConsistentQuiet(st, e.e);
    }
  }

  /** Whatever the line does, with any timing: the timers agree, and a collision is never seen while
      the receiver waits for an edge between bits. */
  lemma {:induction false} ConsistentRun(st: Station, es: seq<LineEvent>)
    requires Consistent(st)
    ensures var st' := LineRun(st, es);
            && Consistent(st')
            && (st'.mon.state == MS_COLLISION ==> st'.rx.sample && !st'.line && !st'.mon.stk.running)
  {
    hide LineStep;
    if es != [] {
      ConsistentRun(st, es[..|es| - 1]);
      ConsistentStep(LineRun(st, es[..|es| - 1]), es[|es| - 1]);
    }
  }

  /** No main-loop pass finds the monitor idle. */
  predicate NoIdlePass(st: Station, es: seq<LineEvent>)
    requires st.rx.Valid()
  {
    forall i | 0 <= i < |es| :: es[i] == Still(Pass) ==> LineRun(st, es[..i]).mon.state != MS_IDLE
  }

  /** Nothing is in the ring but what is being received. */
  predicate NoBacklog(r: Rx) {
    r.currentlyReceiving || r.asm.queue == []
  }

  lemma NotIdleStep(st: Station, e: LineEvent)
    requires st.rx.Valid() && NoBacklog(st.rx) && (e == Still(Pass) ==> st.mon.state != MS_IDLE)
    ensures var r := LineStep(st, e).rx; SameDesk(r, st.rx) && NoBacklog(r)
  {
    hide Shown;
  }

  /** Whatever the line does, with any timing: what has arrived is not shown before a pass finds the
      monitor idle. */
  lemma {:induction false} NothingShownUnlessIdle(st: Station, es: seq<LineEvent>)
    requires st.rx.Valid() && NoBacklog(st.rx) && NoIdlePass(st, es)
    ensures var r := LineRun(st, es).rx; SameDesk(r, st.rx) && NoBacklog(r)
  {
    hide LineStep;
    if es != [] {
      var front := es[..|es| - 1];
      forall i | 0 <= i < |front|
        ensures front[i] == Still(Pass) ==> LineRun(st, front[..i]).mon.state != MS_IDLE
      {
        assert front[..i] == es[..i];
      }
      NothingShownUnlessIdle(st, front);
      NotIdleStep(LineRun(st, front), es[|es| - 1]);
    }
  }

  // ---- After a collision ----

  /** The byte in progress with a 1 as its next bit, as the line's release adds it. */
  function Completed(a: Assembly): (bs: seq<Byte>) {
    if a.currBit == 7 then [ByteOf(a.dataByte[7 := true])] else []
  }

  /** The idle passes of a released line's quiet time and the pass behind it. */
  function PassesOnRelease(st: Station, q: seq<Quiet>): nat
    requires st.rx.Valid()
  {
    IdlePasses(Drive(st, true), q + [Pass])
  }

  /** The release of the line is an edge like any other: it is taken for a bit. What is then in the ring
      is shown drain by drain, one for each idle pass, of which there is at least one. */
  lemma ReleaseDrains(st: Station, q: seq<Quiet>)
    requires Consistent(st) && !st.line && st.rx.sample && Duration(q) >= SYSTICK_TICKS
    ensures var st' := Released(st, q);
            && Holds(st'.rx, Shelf(st.rx, st.rx.asm.Take(true).queue).Drained(PassesOnRelease(st, q)))
            && PassesOnRelease(st, q) > 0 && Ready(st')
  {
    hide Settle, QuietStep, IdlePasses, Shelf.Drained;
    var high := Drive(st, true);
    QuietPass(high, q);
    SettleDrains(high, q + [Pass], Shelf(st.rx, st.rx.asm.Take(true).queue));
  }

  /** If it fits one drain, at once. */
  lemma ReleaseShows(st: Station, q: seq<Quiet>)
    requires Consistent(st) && !st.line && st.rx.sample && Duration(q) >= SYSTICK_TICKS
    requires |st.rx.asm.queue| < SIZEOF_PACKET
    ensures var st' := Released(st, q);
            && SameDesk(st'.rx, ShownIf(st.rx, st.rx.asm.queue + Completed(st.rx.asm)))
            && Ready(st') && st'.rx.asm.queue == []
  {
    hide ShownIf, Released, PassesOnRelease, Shelf.Drained;
    ReleaseDrains(st, q);
    assert st.rx.asm.Take(true).queue == st.rx.asm.queue + Completed(st.rx.asm);
    DrainedAtOnce(Shelf(st.rx, st.rx.asm.Take(true).queue), PassesOnRelease(st, q));
  }

  /** A collision, as the receiver has left it. */
  predicate Collided(st: Station) {
    Consistent(st) && st.mon.state == MS_COLLISION && NoBacklog(st.rx)
  }

  /** The pass that finds the collision drops the ring, but not the bits of the byte in progress. */
  lemma CollisionDropsRing(st: Station)
    requires Collided(st)
    ensures var st' := QuietStep(st, Pass);
            && SameDesk(st'.rx, st.rx) && st'.rx.asm == st.rx.asm.(queue := []) && st'.rx.sample
            && !st'.rx.currentlyReceiving && st'.mon == st.mon && Collided(st')
  {
  }

  /** Until the next edge that is how it stays. */
  lemma {:induction false} CollisionSettles(st: Station, q: seq<Quiet>)
    requires Collided(st) && st.rx.asm.queue == []
    ensures var st' := Settle(st, q);
            SameDesk(st'.rx, st.rx) && st'.rx.asm == st.rx.asm && Collided(st') && !st'.line && st'.rx.sample
  {
    if q != [] {
      CollisionSettles(st, q[..|q| - 1]);
    }
  }

  /** After the pass that finds a collision, the released line and quiet show one byte more exactly when
      seven bits of a byte had been received, and nothing otherwise. */
  lemma AfterCollision(st: Station, low: seq<Quiet>, q: seq<Quiet>)
    requires Collided(st) && Duration(q) >= SYSTICK_TICKS
    ensures var st' := Released(Settle(QuietStep(st, Pass), low), q);
            && SameDesk(st'.rx, ShownIf(st.rx, Completed(st.rx.asm)))
            && (st'.rx.inbox == st.rx.inbox <==> st.rx.asm.currBit != 7)
            && Ready(st') && st'.rx.asm.queue == []
  {
    hide Settle, QuietStep, Released, Parsed, Terminated, Buffered;
    CollisionDropsRing(st);
    var dropped := QuietStep(st, Pass);
    CollisionSettles(dropped, low);
    var held := Settle(dropped, low);
    ReleaseShows(held, q);
    assert held.rx.asm.queue + Completed(held.rx.asm) == Completed(st.rx.asm);
    SameDeskShownIf(held.rx, st.rx, Completed(st.rx.asm));
  }

  /** If no pass comes between the collision and the release, all that is in the ring is shown, the byte
      in progress included when only one bit was missing: the collision has gone unnoticed. A ring of
      more than one drain takes as many idle passes as it has drains. */
  lemma UnseenCollision(st: Station, ticks: nat, q: seq<Quiet>)
    requires Collided(st) && Duration(q) >= SYSTICK_TICKS
    ensures var held := QuietStep(st, Wait(ticks));
            var st', all, k := Released(held, q), st.rx.asm.Take(true).queue, PassesOnRelease(held, q);
            && Holds(st'.rx, Shelf(st.rx, all).Drained(k)) && k > 0 && Ready(st')
            && (|all| <= SIZEOF_PACKET * k ==> st'.rx.asm.queue == [])
            && (|all| <= SIZEOF_PACKET ==> SameDesk(st'.rx, ShownIf(st.rx, all)))
            && (st'.rx.inbox == st.rx.inbox <==> all == [])
    ensures |st.rx.asm.queue| < BUF_SIZE - 1 ==>
              st.rx.asm.Take(true).queue == st.rx.asm.queue + Completed(st.rx.asm)
  {
    hide Settle, Released, Shown, IdlePasses, Shelf.Drained;
    var held := QuietStep(st, Wait(ticks));
    var s, t, k := Shelf(held.rx, st.rx.asm.Take(true).queue), Shelf(st.rx, st.rx.asm.Take(true).queue),
                   PassesOnRelease(held, q);
    ConsistentQuiet(st, Wait(ticks));
    ReleaseDrains(held, q);
    SameDeskDrained(s, t, k);
    DrainedRing(t, k);
    DrainedInbox(t, k);
    ShownDelivers(t.desk, t.Portion());
    if |t.ring| <= SIZEOF_PACKET {
      DrainedAtOnce(t, k);
    }
  }

  /** How many main-loop passes in q find a collision. */
  function CollisionPasses(st: Station, q: seq<Quiet>): nat
    requires st.rx.Valid()
  {
    if q == [] then 0
    else
      var front := q[..|q| - 1];
      CollisionPasses(st, front) + if q[|q| - 1] == Pass && Settle(st, front).mon.state == MS_COLLISION then 1 else 0
  }

  /** A low line: what was in the ring is there until a pass finds the collision. */
  predicate StillThere(st: Station, now: Station, found: bool) {
    && Consistent(now) && !now.line && SameDesk(now.rx, st.rx) && NoBacklog(now.rx)
    && (!found ==> now.rx.currentlyReceiving)
    && now.rx.asm == if found then st.rx.asm.(queue := []) else st.rx.asm
  }

  lemma StillThereStep(st: Station, now: Station, found: bool, e: Quiet)
    requires StillThere(st, now, found)
    ensures StillThere(st, QuietStep(now, e), found || (e == Pass && now.mon.state == MS_COLLISION))
  {
    ConsistentQuiet(now, e);
  }

  lemma {:induction false} HeldLowSettles(st: Station, hold: seq<Quiet>)
    requires Consistent(st) && !st.line && st.rx.currentlyReceiving
    ensures StillThere(st, Settle(st, hold), CollisionPasses(st, hold) > 0)
  {
    hide QuietStep, Busy, StillThere;
    if hold == [] {
      StillThereAtFirst(st);
    } else {
      var front := hold[..|hold| - 1];
      HeldLowSettles(st, front);
      StillThereStep(st, Settle(st, front), CollisionPasses(st, front) > 0, hold[|hold| - 1]);
    }
  }

  lemma StillThereAtFirst(st: Station)
    requires Consistent(st) && !st.line && st.rx.currentlyReceiving
    ensures StillThere(st, st, false)
  {
  }

  /** A line held low during a reception, for the monitor's timeout at least, and then released: if no
      pass has found the collision, all that was received is shown; if one has, only the byte that the
      release completes, if seven bits of it had been received. */
  lemma {:induction false} HeldLow(st: Station, hold: seq<Quiet>, q: seq<Quiet>)
    requires Consistent(st) && !st.line && st.rx.currentlyReceiving && |st.rx.asm.queue| < SIZEOF_PACKET
    requires Duration(hold) >= SYSTICK_TICKS && Duration(q) >= SYSTICK_TICKS
    ensures var st' := Released(Settle(st, hold), q);
            var kept := if CollisionPasses(st, hold) > 0 then [] else st.rx.asm.queue;
            SameDesk(st'.rx, ShownIf(st.rx, kept + Completed(st.rx.asm))) && Ready(st') && st'.rx.asm.queue == []
  {
    hide Settle, Released, CollisionPasses, ShownIf, Completed;
    var now := Settle(st, hold);
    var kept := if CollisionPasses(st, hold) > 0 then [] else st.rx.asm.queue;
    HeldLowSettles(st, hold);
    SettleMonitor(st, hold);
    CompletedAlike(now.rx.asm, st.rx.asm);
    ReleaseShows(now, q);
    SameDeskShownIf(now.rx, st.rx, kept + Completed(st.rx.asm));
  }

  lemma CompletedAlike(a: Assembly, b: Assembly)
    requires a.currBit == b.currBit && a.dataByte == b.dataByte
    ensures Completed(a) == Completed(b) && |Completed(a)| <= 1
  {
  }

  /** What is shown of anything that ends in a collision, however the line got there: at most one byte,
      if a pass finds the collision before the line is released. */
  lemma CollisionOutcome(st: Station, es: seq<LineEvent>, low: seq<Quiet>, q: seq<Quiet>)
    requires Consistent(st) && NoBacklog(st.rx) && NoIdlePass(st, es) && Duration(q) >= SYSTICK_TICKS
    requires LineRun(st, es).mon.state == MS_COLLISION
    ensures var c := LineRun(st, es);
            var st' := Released(Settle(QuietStep(c, Pass), low), q);
            && SameDesk(st'.rx, ShownIf(st.rx, Completed(c.rx.asm)))
            && (st'.rx.inbox == st.rx.inbox <==> c.rx.asm.currBit != 7)
            && Ready(st') && st'.rx.asm.queue == []
  {
    hide LineRun, Settle, QuietStep, Released, Shown, NoIdlePass, Busy;
    var c := LineRun(st, es);
    ConsistentRun(st, es);
    NothingShownUnlessIdle(st, es);
    AfterCollision(c, low, q);
    SameDeskShownIf(c.rx, st.rx, Completed(c.rx.asm));
  }

  lemma CompletedZeros(a: Assembly)
    requires a.currBit == 7 && a.dataByte[..7] == Zeros(7)
    ensures Completed(a) == [1]
  {
    var o := a.dataByte[7 := true];
    WordOfZero(0, 7);
    assert Bits(1) == Word(0, 7) + [true];
    assert o[..7] == Zeros(7);
    assert o == Zeros(7) + [true];
    ByteOfBits(1);
  }

  /** Seven zero bits and then a line held low, as the listener sees them. */
  lemma SevenZeros(st: Station, qs: seq<seq<Quiet>>)
    requires Ready(st) && st.rx.asm.queue == [] && |qs| == 14 && AllTolerable(qs)
    ensures var c := QuietStep(After(st, Line(Zeros(7)), qs, 14), Wait(SYSTICK_TICKS));
            Collided(c) && c.rx.asm.queue == [] && SameDesk(c.rx, st.rx) && Completed(c.rx.asm) == [1]
  {
    hide Hold, Settle, Line, TakeAll, Tolerable;
    var bits := Zeros(7);
    var f, torn := After(st, Line(bits), qs, Unseen(bits)), After(st, Line(bits), qs, 14);
    LeadingZeroUnseen(st, bits, qs);
    UnseenHalfBit(st, bits, qs);
    EmptySettles(st, qs[0]);
    FollowFrame(st, f, bits, qs, 14);
    assert Heard(bits)[..7] == Zeros(8)[..7] == bits;
    TakeSome(f.rx.asm, Zeros(8), 7);
    CompletedZeros(torn.rx.asm);
  }

  /** So a station with nothing in its ring can show a byte that nobody has sent: seven zero bits, a line
      held low until the pass that finds the collision, the release. */
  lemma CollisionLeaks(st: Station, qs: seq<seq<Quiet>>, low: seq<Quiet>, q: seq<Quiet>)
    requires Ready(st) && st.rx.asm.queue == [] && |qs| == 14 && AllTolerable(qs) && Duration(q) >= SYSTICK_TICKS
    ensures var c := QuietStep(After(st, Line(Zeros(7)), qs, 14), Wait(SYSTICK_TICKS));
            c.mon.state == MS_COLLISION
            && var st' := Released(Settle(QuietStep(c, Pass), low), q);
               && SameDesk(st'.rx, Shown(st.rx, [1])) && st'.rx.asm.queue == []
               && |st'.rx.inbox| == |st.rx.inbox| + 1 && st'.rx.inbox[|st.rx.inbox|].bytes == [1]
  {
    hide After, Settle, QuietStep, Released, Parsed, Terminated, Buffered, Tolerable;
    var c := QuietStep(After(st, Line(Zeros(7)), qs, 14), Wait(SYSTICK_TICKS));
    SevenZeros(st, qs);
    AfterCollision(c, low, q);
    SameDeskShownIf(c.rx, st.rx, [1]);
  }
}
