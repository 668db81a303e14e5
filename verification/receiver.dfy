/** receiver.c: recovering bits from edges and a half-bit timer, and draining packets. */
module Receivers {
  import opened Bytes
  import opened RingBuffers
  import opened Packets
  import opened Monitors

  const HALFBIT_TIMEOUT_TICKS: nat := 8107

  /** The bits being collected into bytes, and the bytes collected so far. */
  datatype Assembly = Assembly(currBit: nat, dataByte: Octet, queue: seq<Byte>) {

    predicate Valid() {
      currBit < 8 && |queue| < BUF_SIZE
    }

    /** One more bit, most significant first. */
    function Take(bit: bool): (a: Assembly)
      requires Valid()
      ensures a.Valid()
    {
      var d := dataByte[currBit := bit];
      if currBit == 7 then Assembly(0, d, Enqueue(queue, ByteOf(d))) else Assembly(currBit + 1, d, queue)
    }
  }

  /** What one drain of the ring shows: a packet with ph_parse's verdict, or plain text and what is
      printed of it. */
  datatype Delivery =
    | Parcel(bytes: seq<Byte>, accepted: bool, packet: Packet)
    | Text(bytes: seq<Byte>, printed: seq<Byte>)

  datatype Rx = Rx(asm: Assembly, currentlyReceiving: bool, sample: bool, tim4: Timer,
                   packetMode: bool, pkt: Packet, msgBuf: seq<Byte>, inbox: seq<Delivery>) {
    predicate Valid() {
      && asm.Valid() && pkt.Valid() && |msgBuf| == SIZEOF_PACKET
      && tim4.limit == HALFBIT_TIMEOUT_TICKS && (tim4.running ==> tim4.count < HALFBIT_TIMEOUT_TICKS)
    }
  }

  /** EXTI4_IRQHandler: an edge in the middle of a bit is sampled, an edge between bits is not. */
  function RxOnEdge(r: Rx, pin: bool): (r': Rx)
    requires r.Valid()
    ensures r'.Valid()
  {
    if r.sample then
      r.(tim4 := Timer(true, 0, HALFBIT_TIMEOUT_TICKS), sample := false,
         asm := r.asm.Take(pin), currentlyReceiving := true)
    else
      r.(sample := true, tim4 := r.tim4.(running := false))
  }

  /** TIM4_IRQHandler: no edge between the bits, so the next edge is in the middle of one. */
  function RxOnTim4(r: Rx): (r': Rx)
    requires r.Valid()
    ensures r'.Valid()
  {
    r.(sample := true, tim4 := r.tim4.(running := false))
  }

  /** Ticks pass without an edge. */
  function RxAfter(r: Rx, ticks: nat): (r': Rx)
    requires r.Valid()
    ensures r'.Valid()
  {
    if r.tim4.FiresWithin(ticks) then RxOnTim4(r.(tim4 := r.tim4.After(ticks))) else r.(tim4 := r.tim4.After(ticks))
  }

  /** The reset at the head of the main routine. */
  function ResetIfIdle(r: Rx, ms: MonitorState): (r': Rx)
    requires r.Valid()
    ensures r'.Valid()
  {
    if ms == MS_IDLE then
      r.(asm := Assembly(0, Zeros(8), r.asm.queue), currentlyReceiving := false, sample := true)
    else r
  }

  /** A collision drops what was received so far. */
  function DropIfCollision(r: Rx, ms: MonitorState): (r': Rx)
    requires r.Valid()
    ensures r'.Valid()
  {
    if r.currentlyReceiving && ms == MS_COLLISION then
      r.(tim4 := r.tim4.(running := false), currentlyReceiving := false, asm := r.asm.(queue := []))
    else r
  }

  /** One buffer's worth of bytes is taken out of the ring and shown. */
  function Drain(r: Rx): (r': Rx)
    requires r.Valid()
    ensures r'.Valid()
  {
    if r.currentlyReceiving || r.asm.queue == [] then r
    else
      var n := if |r.asm.queue| < SIZEOF_PACKET then |r.asm.queue| else SIZEOF_PACKET;
      var bytes := r.asm.queue[..n];
      Shown(r.(asm := r.asm.(queue := r.asm.queue[n..])), bytes)
  }

  /** msgBuf with drained bytes at its front; in text mode a terminator goes one place behind them. */
  function Buffered(r: Rx, bytes: seq<Byte>): (buf: seq<Byte>)
    requires r.Valid() && |bytes| <= SIZEOF_PACKET
    ensures |buf| == SIZEOF_PACKET
  {
    var buf := bytes + r.msgBuf[|bytes|..];
    if !r.packetMode && |bytes| < PH_MSG_SIZE - 1 then buf[|bytes| + 1 := 0] else buf
  }

  /** The drained bytes are parsed and shown, or shown as text. */
  function Shown(r: Rx, bytes: seq<Byte>): (r': Rx)
    requires r.Valid() && |bytes| <= SIZEOF_PACKET
    ensures r'.Valid()
  {
    var buf := Buffered(r, bytes);
    if r.packetMode then
      var (p, ok) := Parsed(r.pkt, bytes);
      r.(pkt := Terminated(p), msgBuf := buf, inbox := r.inbox + [Parcel(bytes, ok, Terminated(p))])
    else
      r.(msgBuf := buf, inbox := r.inbox + [Text(bytes, CString(buf))])
  }

  /** receiver_mainRoutineUpdate. */
  function RxMain(r: Rx, ms: MonitorState): (r': Rx)
    requires r.Valid()
    ensures r'.Valid()
  {
    Drain(DropIfCollision(ResetIfIdle(r, ms), ms))
  }

  /** Buffering bytes that are already at the front of msgBuf changes nothing. */
  lemma ShownRebuffers(r: Rx, q: seq<Byte>, n: nat)
    requires r.Valid() && n <= |q| && n <= SIZEOF_PACKET
    ensures Shown(r.(msgBuf := Moved(q, r.msgBuf, n)), q[..n]) == Shown(r, q[..n])
  {
    hide Parsed, Terminated;
  }

  /** The half-bit timeout: from a sampled edge on, 8107 ticks make the next edge one to sample; it fires once,
      and an edge between bits stops it. */
  lemma HalfBitTimeout(r: Rx, pin: bool, ticks: nat)
    requires r.Valid()
    ensures r.sample ==>
              var r' := RxAfter(RxOnEdge(r, pin), ticks);
              r'.sample == (ticks >= 8107) && r'.tim4.running == (ticks < 8107) && r'.asm == r.asm.Take(pin)
    ensures !r.sample ==>
              var r' := RxAfter(RxOnEdge(r, pin), ticks);
              r'.sample && !r'.tim4.running && r'.asm == r.asm && r'.currentlyReceiving == r.currentlyReceiving
    ensures !RxOnTim4(r).tim4.running
  {
  }

  /** A bit goes to its place in the byte, and no other bit changes; the eighth puts the byte into the ring. */
  lemma BitPlaced(a: Assembly, bit: bool)
    requires a.Valid()
    ensures var a' := a.Take(bit);
            && a'.currBit == (a.currBit + 1) % 8
            && (forall i | 0 <= i < 8 :: a'.dataByte[i] == if i == a.currBit then bit else a.dataByte[i])
            && a'.queue == if a.currBit == 7 then Enqueue(a.queue, ByteOf(a'.dataByte)) else a.queue
  {
  }

  /** A pass that finds the monitor idle forgets the byte in progress. */
  lemma IdlePassForgets(r: Rx)
    requires r.Valid()
    ensures var a := RxMain(r, MS_IDLE).asm; a.currBit == 0 && a.dataByte == Zeros(8)
  {
    hide Parsed, Terminated, Buffered;
  }

  /** A pass that finds a collision: during a reception it stops the half-bit timeout, drops the ring, and
      shows nothing; otherwise it drains what there is. */
  lemma CollisionPass(r: Rx)
    requires r.Valid()
    ensures var r' := RxMain(r, MS_COLLISION);
            if r.currentlyReceiving then
              r' == r.(asm := r.asm.(queue := []), tim4 := r'.tim4, currentlyReceiving := false) && !r'.tim4.running
            else r' == RxMain(r, MS_BUSY)
  {
    hide Parsed, Terminated, Buffered;
  }

  /** The buffer, byte by byte: the bytes drained, and what was there before, but for the NUL that text mode
      writes one place too far. */
  lemma BufferedExactly(r: Rx, bytes: seq<Byte>)
    requires r.Valid() && |bytes| <= SIZEOF_PACKET
    ensures forall i | 0 <= i < 262 ::
              Buffered(r, bytes)[i] == if i < |bytes| then bytes[i]
                                       else if !r.packetMode && |bytes| < 254 && i == |bytes| + 1 then 0
                                       else r.msgBuf[i]
  {
  }

  /** What is printed of drained text without a NUL: the text, and behind it, for the terminator goes one
      place too far, the byte that was there before, unless that was a NUL; and of 254 bytes or more,
      whatever an earlier drain left behind them. */
  lemma TextPrintedExactly(r: Rx, bytes: seq<Byte>)
    requires r.Valid() && !r.packetMode && 0 !in bytes && 0 < |bytes| < SIZEOF_PACKET
    ensures CString(Buffered(r, bytes))
         == bytes + (if |bytes| >= 254 then CString(r.msgBuf[|bytes|..])
                     else if r.msgBuf[|bytes|] == 0 then [] else [r.msgBuf[|bytes|]])
  {
    var buf, n := Buffered(r, bytes), |bytes|;
    assert buf == bytes + buf[n..];
    CStringOf(bytes, buf[n..]);
    if n < 254 {
      assert buf[n..] == [r.msgBuf[n]] + ([0] + buf[n + 2..]);
      CStringEnds([0] + buf[n + 2..]);
      if r.msgBuf[n] != 0 {
        CStringOf([r.msgBuf[n]], [0] + buf[n + 2..]);
      } else {
        CStringEnds(buf[n..]);
      }
    } else {
      assert buf[n..] == r.msgBuf[n..];
    }
  }

  /** A buffer with the first n bytes of the ring at its front. */
  function Moved(q: seq<Byte>, was: seq<Byte>, n: nat): (buf: seq<Byte>)
    requires n <= |q| && n <= |was|
    ensures |buf| == |was|
  {
    q[..n] + was[n..]
  }

  lemma MovedNone(q: seq<Byte>, was: seq<Byte>)
    ensures Moved(q, was, 0) == was
  {
  }

  lemma MovedFront(q: seq<Byte>, was: seq<Byte>, n: nat)
    requires n <= |q| && n <= |was|
    ensures Moved(q, was, n)[..n] == q[..n]
  {
  }

  lemma MovedOneMore(q: seq<Byte>, was: seq<Byte>, n: nat)
    requires n < |q| && n < |was|
    ensures Moved(q, was, n)[n := q[n..][0]] == Moved(q, was, n + 1) && q[n..][1..] == q[n + 1..]
  {
  }

  class Receiver {
    const monitor: Monitor
    const codec: PacketCodec
    const receiveBuf: RingBuffer
    const pkt: PacketHeader
    const msgBuf: array<Byte>
    const packetMode: bool
    var currBit: nat
    var dataByte: Octet
    var currentlyReceiving: bool
    var sample: bool
    var tim4: Timer
    /** Everything shown so far. */
    ghost var inbox: seq<Delivery>

    ghost predicate Valid()
      reads this, codec, codec.table, receiveBuf, receiveBuf.buffer, pkt, pkt.msg, msgBuf
    {
      && codec.Ready() && receiveBuf.Valid() && pkt.Valid() && msgBuf.Length == SIZEOF_PACKET
      && receiveBuf.buffer != pkt.msg && receiveBuf.buffer != msgBuf && pkt.msg != msgBuf
      && codec.table !in {receiveBuf.buffer, pkt.msg, msgBuf}
      && State().Valid()
    }

    ghost function State(): Rx
      requires receiveBuf.Valid()
      reads this, receiveBuf, receiveBuf.buffer, pkt, pkt.msg, msgBuf
    {
      Rx(Asm(), currentlyReceiving, sample, tim4, packetMode, pkt.State(), msgBuf[..], inbox)
    }

    constructor (monitor: Monitor, codec: PacketCodec, packetMode: bool)
      requires codec.Ready()
      ensures Valid() && this.monitor == monitor && this.codec == codec && this.packetMode == packetMode
      ensures fresh(receiveBuf) && fresh(receiveBuf.buffer) && fresh(pkt) && fresh(pkt.msg) && fresh(msgBuf)
      ensures State().asm.queue == [] && sample && currBit == 0 && !currentlyReceiving && inbox == []
      ensures State().pkt == NoPacket() && forall i | 0 <= i < SIZEOF_PACKET :: msgBuf[i] == 0
    {
      this.monitor, this.codec, this.packetMode := monitor, codec, packetMode;
      receiveBuf := new RingBuffer();
      pkt := new PacketHeader();
      msgBuf := new Byte[SIZEOF_PACKET](_ => 0);
      currBit, dataByte, currentlyReceiving, sample := 0, Zeros(8), false, true;
      tim4 := Timer(true, 0, HALFBIT_TIMEOUT_TICKS);
      inbox := [];
    }

    ghost function Asm(): Assembly
      requires receiveBuf.Valid()
      reads this, receiveBuf, receiveBuf.buffer
    {
      Assembly(currBit, dataByte, receiveBuf.Contents())
    }

    method ExtiHandler(pin: bool)
      requires Valid()
      modifies this, monitor, receiveBuf, receiveBuf.buffer
      ensures Valid() && State() == RxOnEdge(old(State()), pin)
      ensures monitor.State() == OnEdge(old(monitor.State()), pin)
    {
      hide Assembly.Take;
      monitor.EdgeInterrupt(pin);
      if sample {
        tim4 := tim4.(count := 0);
        tim4 := tim4.(running := true);
        sample := false;
        SampleBit(pin);
        if !currentlyReceiving {
          currentlyReceiving := true;
        }
      } else {
        sample := true;
        tim4 := tim4.(running := false);
      }
    }

    /** The sampling of EXTI4_IRQHandler: the bit enters the byte, a full byte the ring. */
    method SampleBit(pin: bool)
      requires receiveBuf.Valid() && Asm().Valid()
      modifies this`currBit, this`dataByte, receiveBuf, receiveBuf.buffer
      ensures receiveBuf.Valid() && Asm() == old(Asm()).Take(pin)
    {
      if pin {
        dataByte := dataByte[currBit := true];
      } else {
        dataByte := dataByte[currBit := false];
      }
      currBit := currBit + 1;
      if currBit == 8 {
        receiveBuf.Put(ByteOf(dataByte));
        currBit := 0;
      }
    }

    method Tim4Handler()
      requires Valid()
      modifies this
      ensures Valid() && State() == RxOnTim4(old(State()))
    {
      sample := true;
      tim4 := tim4.(running := false);
    }

    method MainRoutineUpdate()
      requires Valid()
      modifies this, receiveBuf, receiveBuf.buffer, pkt, pkt.msg, msgBuf
      ensures Valid() && State() == RxMain(old(State()), monitor.State().state)
    {
      hide ResetIfIdle, DropIfCollision, Shown;
      var ms := monitor.GetState();
      ResetWhenIdle(ms);
      DropOnCollision(ms);
      var any := receiveBuf.HasElement();
      if !currentlyReceiving && any {
        DrainAndShow();
      }
    }

    /** One buffer's worth of bytes is taken out of the ring and shown. */
    method DrainAndShow()
      requires Valid() && !currentlyReceiving && receiveBuf.Contents() != []
      modifies this`inbox, receiveBuf`get, pkt, pkt.msg, msgBuf
      ensures Valid() && State() == Drain(old(State()))
    {
      hide Shown, Moved;
      ghost var was := State();
      ghost var q := was.asm.queue;
      var msgCur := DrainRing();
      MovedFront(q, was.msgBuf, msgCur);
      ShownRebuffers(was.(asm := was.asm.(queue := q[msgCur..])), q, msgCur);
      Show(msgCur);
    }

    method ResetWhenIdle(ms: MonitorState)
      requires Valid()
      modifies this`currBit, this`dataByte, this`currentlyReceiving, this`sample
      ensures Valid() && State() == ResetIfIdle(old(State()), ms)
    {
      if ms == MS_IDLE {
        currBit, dataByte := 0, Zeros(8);
        currentlyReceiving := false;
        if !sample {
          sample := true;
        }
      }
    }

    method DropOnCollision(ms: MonitorState)
      requires Valid()
      modifies this`tim4, this`currentlyReceiving, receiveBuf
      ensures Valid() && State() == DropIfCollision(old(State()), ms)
    {
      if currentlyReceiving {
        if ms == MS_COLLISION {
          tim4 := tim4.(running := false);
          currentlyReceiving := false;
          receiveBuf.put := 0;
          receiveBuf.get := 0;
        }
      }
    }

    /** The drain loop. */
    method DrainRing() returns (msgCur: nat)
      requires Valid()
      modifies receiveBuf`get, msgBuf
      ensures Valid()
      ensures var n := |old(receiveBuf.Contents())|; msgCur == if n < SIZEOF_PACKET then n else SIZEOF_PACKET
      ensures msgBuf[..] == Moved(old(receiveBuf.Contents()), old(msgBuf[..]), msgCur)
      ensures receiveBuf.Contents() == old(receiveBuf.Contents())[msgCur..]
    {
      hide Moved, Ring.Contents;
      ghost var q, was := receiveBuf.Contents(), msgBuf[..];
      MovedNone(q, was);
      msgCur := 0;
      var more := receiveBuf.HasElement();
      while more && msgCur < SIZEOF_PACKET
        invariant Valid() && msgCur <= |q| && msgCur <= SIZEOF_PACKET
        invariant msgBuf[..] == Moved(q, was, msgCur)
        invariant receiveBuf.Contents() == q[msgCur..]
        invariant more <==> receiveBuf.Contents() != []
      {
        MovedOneMore(q, was, msgCur);
        MoveByte(msgCur);
        msgCur := msgCur + 1;
        more := receiveBuf.HasElement();
      }
    }

    /** One turn of the loop: the oldest byte goes from the ring to its place in the buffer. */
    method MoveByte(msgCur: nat)
      requires Valid() && msgCur < SIZEOF_PACKET && receiveBuf.Contents() != []
      modifies receiveBuf`get, msgBuf
      ensures Valid() && msgBuf[..] == old(msgBuf[..])[msgCur := old(receiveBuf.Contents())[0]]
      ensures receiveBuf.Contents() == old(receiveBuf.Contents())[1..]
    {
      msgBuf[msgCur] := receiveBuf.Get();
    }

    /** Parsing and display of the drained bytes. */
    method Show(msgCur: nat)
      requires Valid() && 0 < msgCur <= SIZEOF_PACKET
      modifies this`inbox, pkt, pkt.msg, msgBuf
      ensures Valid() && State() == Shown(old(State()), old(msgBuf[..msgCur]))
    {
      ghost var bytes := msgBuf[..msgCur];
      assert bytes + msgBuf[msgCur..] == msgBuf[..];
      if packetMode {
        var ok := codec.Parse(pkt, msgBuf, msgCur);
        if pkt.length < PH_MSG_SIZE - 1 {
          pkt.msg[pkt.length] := 0;
        }
        inbox := inbox + [Parcel(bytes, ok, pkt.State())];
      } else {
        if msgCur < PH_MSG_SIZE - 1 {
          msgBuf[msgCur + 1] := 0;
        }
        inbox := inbox + [Text(bytes, CString(msgBuf[..]))];
      }
    }
  }
}
