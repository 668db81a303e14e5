/** monitor.c: the line-state machine, and the one-shot timers the modules use. */
module Monitors {

  const TRANSMISSION_TIMEOUT_US: nat := 1110

  datatype MonitorState = MS_IDLE | MS_BUSY | MS_COLLISION

  /** A hardware counter: it fires once `limit` ticks have been counted, and then stops. */
  datatype Timer = Timer(running: bool, count: nat, limit: nat) {

    predicate FiresWithin(ticks: nat) {
      running && count + ticks >= limit
    }

    function After(ticks: nat): Timer {
      if FiresWithin(ticks) then Timer(false, 0, limit)
      else if running then Timer(true, count + ticks, limit)
      else this
    }
  }

  datatype Mon = Mon(state: MonitorState, lineState: bool, stk: Timer)

  /** monitor_Edge_Intrr: restart the timeout, note the level, go busy. */
  function OnEdge(m: Mon, level: bool): Mon {
    Mon(MS_BUSY, level, Timer(true, 0, 16 * TRANSMISSION_TIMEOUT_US))
  }

  /** SysTick_Handler: a line left high is idle, a line left low is a collision. */
  function OnSysTick(m: Mon): Mon {
    Mon(if m.lineState then MS_IDLE else MS_COLLISION, m.lineState, m.stk.(running := false))
  }

  /** Ticks pass without an edge. */
  function MonAfter(m: Mon, ticks: nat): Mon {
    if m.stk.FiresWithin(ticks) then OnSysTick(m.(stk := m.stk.After(ticks))) else m.(stk := m.stk.After(ticks))
  }

  /** After an edge the monitor is busy for 1110 us, 17760 ticks of 62.5 ns, and then it is idle on a high
      line and reports a collision on a low one. */
  lemma TimeoutAfterEdge(m: Mon, level: bool, ticks: nat)
    ensures MonAfter(OnEdge(m, level), ticks).state
         == if ticks < 17760 then MS_BUSY else if level then MS_IDLE else MS_COLLISION
  {
  }

  /** The timeout fires once: nothing but an edge starts it again. */
  lemma FiresOnce(m: Mon, ticks: nat)
    ensures !OnSysTick(m).stk.running && (!m.stk.running ==> MonAfter(m, ticks) == m)
  {
  }

  lemma MonAfterAdds(m: Mon, a: nat, b: nat)
    ensures MonAfter(MonAfter(m, a), b) == MonAfter(m, a + b)
  {
  }

  class Monitor {
    var monitorState: MonitorState
    var lineState: bool
    var stk: Timer

    ghost function State(): Mon
      reads this
    {
      Mon(monitorState, lineState, stk)
    }

    constructor ()
      ensures State() == Mon(MS_IDLE, false, Timer(false, 0, 0))
    {
      monitorState, lineState, stk := MS_IDLE, false, Timer(false, 0, 0);
    }

    method GetState() returns (s: MonitorState)
      ensures s == State().state
    {
      s := monitorState;
    }

    method ResetTimer(us: nat)
      modifies this`stk
      ensures stk == Timer(true, 0, 16 * us)
    {
      stk := stk.(running := false);
      stk := stk.(limit := 16 * us);
      stk := stk.(count := 0);
      stk := stk.(running := true);
    }

    method EdgeInterrupt(pin: bool)
      modifies this
      ensures State() == OnEdge(old(State()), pin)
    {
      ResetTimer(TRANSMISSION_TIMEOUT_US);
      lineState := pin;
      UpdateState(MS_BUSY);
    }

    method SysTickHandler()
      modifies this
      ensures State() == OnSysTick(old(State()))
    {
      stk := stk.(running := false);
      if lineState {
        UpdateState(MS_IDLE);
      } else {
        UpdateState(MS_COLLISION);
      }
    }

    method UpdateState(newState: MonitorState)
      modifies this`monitorState
      ensures monitorState == newState
    {
      monitorState := newState;
    }
  }
}
