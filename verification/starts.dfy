/** When a card starts to send: only on a line that has been high and quiet for the monitor's timeout. */
module Starts {
  import opened Bytes
  import opened Packets
  import opened Monitors
  import opened Receivers
  import opened Transmitters
  import opened TransmissionRuns
  import opened Link
  import opened Network
  import opened Retries

  /** The time that passes at the sender. */
  function OwnTicks(hs: seq<Happening>): nat {
    if hs == [] then 0
    else
      OwnTicks(hs[..|hs| - 1]) +
      match hs[|hs| - 1]
      case Here(Ticks(n)) => n
      case _ => 0
  }

  predicate LeavesLevel(h: Happening, level: bool) {
    match h
    case Interrupt(l) => l == level
    case Disturb(l) => l == level
    case Here(_) => true
    case There(_) => true
  }

  /** The line stays at a level. */
  predicate NoEdge(hs: seq<Happening>, level: bool) {
    forall i | 0 <= i < |hs| :: LeavesLevel(hs[i], level)
  }

  lemma {:induction false} OwnMonitor(p: Both, hs: seq<Happening>, level: bool)
    requires p.Valid() && p.card.st.line == level && NoEdge(hs, level)
    requires p.card.st.mon.stk.running ==> p.card.st.mon.stk.count < p.card.st.mon.stk.limit
    ensures var st := BothRun(p, hs).card.st; st.line == level && st.mon == MonAfter(p.card.st.mon, OwnTicks(hs))
  {
    hide BothStep, MonAfter;
    if hs == [] {
      NoTime(p.card.st.mon);
    } else {
      var front, h := hs[..|hs| - 1], hs[|hs| - 1];
      OwnMonitor(p, front, level);
      NoneFires(p.card.st.mon, OwnTicks(front));
      NoTime(BothRun(p, front).card.st.mon);
      OwnMonitorStep(BothRun(p, front), h, level);
      MonAfterAdds(p.card.st.mon, OwnTicks(front), OwnTicks(hs) - OwnTicks(front));
    }
  }

  lemma NoTime(m: Mon)
    requires m.stk.running ==> m.stk.count < m.stk.limit
    ensures MonAfter(m, 0) == m
  {
  }

  lemma NoneFires(m: Mon, ticks: nat)
    requires m.stk.running ==> m.stk.count < m.stk.limit
    ensures var m' := MonAfter(m, ticks); m'.stk.running ==> m'.stk.count < m'.stk.limit
  {
  }

  lemma OwnMonitorStep(p: Both, h: Happening, level: bool)
    requires p.Valid() && p.card.st.line == level && LeavesLevel(h, level)
    requires p.card.st.mon.stk.running ==> p.card.st.mon.stk.count < p.card.st.mon.stk.limit
    ensures var st := BothStep(p, h).card.st;
            && st.line == level
            && st.mon == match h { case Here(Ticks(n)) => MonAfter(p.card.st.mon, n) case _ => p.card.st.mon }
  {
    hide Next, TxMain, RxMain, RxAfter, RxOnEdge, MonAfter;
  }

  /** Whatever has happened before, whoever else drives the line, and whatever happens after the last edge:
      a main-loop pass of a card that is not sending starts to send exactly if that edge has left the line
      high, at least 17760 ticks have passed since, and an attempt has been given up or a message pends. */
  lemma StartsAfterQuiet(p: Both, edge: Happening, level: bool, hs: seq<Happening>, c: Byte, rand: nat)
    requires p.Valid() && edge in {Interrupt(level), Disturb(level)} && p.card.st.line != level && NoEdge(hs, level)
    ensures var now := BothRun(BothStep(p, edge), hs);
            var tx, tx' := now.card.tx, BothStep(now, Here(Loop(c, rand))).card.tx;
            !tx.inTransmission ==>
              (tx'.inTransmission
               <==> level && OwnTicks(hs) >= 17760 && (!tx.transmissionComplete || Pends(tx, c)))
  {
    hide BothRun, TxMain, RxMain, RxOnEdge, MonAfter, Next, NoEdge;
    var now := BothRun(BothStep(p, edge), hs);
    OwnMonitor(BothStep(p, edge), hs, level);
    TimeoutAfterEdge(p.card.st.mon, level, OwnTicks(hs));
    if !now.card.tx.inTransmission {
      StartsIffIdle(now.card.tx, now.card.st.mon.state, c, rand);
    }
  }
}
