/** transmitter.c: collecting a line of text, sending it half-bit by half-bit, and sending it
    again from the start after a collision. */
module Transmitters {
  import opened Bytes
  import opened RingBuffers
  import opened Packets
  import opened Manchester
  import opened Monitors

  const TRANSMISSION_TICKS: nat := 8000
  const TRANSMITTER_N_MAX: nat := 200
  const CR: Byte := 13

  /** The transmission timer, as far as the code sets it. */
  datatype Tim2 = Tim2(running: bool, prescaler: nat, reload: nat)

  /** `buf` is the content of transBuf: its put index is |buf| and its get index 0. */
  datatype Tx = Tx(buf: seq<Byte>, currBit: nat, currByte: nat,
                   inTransmission: bool, transmissionComplete: bool, retransmissionTimeoutActive: bool,
                   tim2: Tim2, pin: bool, packetMode: bool, src: Byte, dest: Byte,
                   gotMessage: bool, dataBuf: seq<Byte>, dataCur: nat, pkt: Packet) {

    /** What the array accesses of the code rely on. */
    predicate Valid() {
      && |buf| <= 2 * SIZEOF_PACKET && currBit < 8 && currByte <= |buf|
      && |dataBuf| == PH_MSG_SIZE && dataCur < PH_MSG_SIZE && pkt.Valid()
    }

    /** The bytes collected so far. */
    function Collected(): seq<Byte>
      requires Valid()
    {
      dataBuf[..dataCur]
    }
  }

  function Started(tx: Tx): Tx {
    tx.(inTransmission := true, tim2 := tx.tim2.(running := true))
  }

  function Stopped(tx: Tx): Tx {
    tx.(inTransmission := false, pin := true, tim2 := tx.tim2.(running := false))
  }

  /** The random delay, in milliseconds. */
  function BackOff(rand: nat): (ms: nat)
    ensures ms == 5 * (rand % 200) < 1000
  {
    (rand % TRANSMITTER_N_MAX) * 1000 / TRANSMITTER_N_MAX
  }

  function Toggled(tx: Tx, retransmission: bool, rand: nat): (tx': Tx)
    ensures !tx'.tim2.running && tx'.tim2.prescaler == if retransmission then 16000 else 0
  {
    tx.(retransmissionTimeoutActive := retransmission,
        tim2 := if retransmission then Tim2(false, 16000, BackOff(rand)) else Tim2(false, 0, TRANSMISSION_TICKS))
  }

  /** The bit under the cursors goes to the pin, and the cursors move on. */
  function Driven(tx: Tx): (tx': Tx)
    requires tx.Valid() && tx.currByte < |tx.buf|
    ensures tx'.Valid()
  {
    var level := Bits(tx.buf[tx.currByte])[tx.currBit];
    if tx.currBit == 7 then tx.(pin := level, currBit := 0, currByte := tx.currByte + 1)
    else tx.(pin := level, currBit := tx.currBit + 1)
  }

  /** TIM2_IRQHandler: end the back-off, finish, give up on a collision, or drive one half-bit. */
  function OnTim2(tx: Tx, ms: MonitorState): (tx': Tx)
    requires tx.Valid()
    ensures tx'.Valid()
  {
    if tx.retransmissionTimeoutActive then Started(Toggled(tx, false, 0))
    else if tx.buf == [] || tx.currByte == |tx.buf| then Stopped(tx).(transmissionComplete := true)
    else if ms == MS_COLLISION then Stopped(tx).(transmissionComplete := false)
    else Driven(tx)
  }

  /** One character from the UART. */
  function Typed(tx: Tx, c: Byte): (tx': Tx)
    requires tx.Valid()
    ensures tx'.Valid()
  {
    if c == CR then
      var d := tx.dataBuf[tx.dataCur := 0];
      if d[0] == 0 then tx.(dataBuf := d, dataCur := 0, gotMessage := false)
      else tx.(dataBuf := d, gotMessage := true)
    else if tx.dataCur < PH_MSG_SIZE - 1 then
      tx.(dataBuf := tx.dataBuf[tx.dataCur := c], dataCur := tx.dataCur + 1)
    else tx
  }

  /** The collected bytes become a packet in the buffer. */
  function PacketLoaded(tx: Tx): (tx': Tx)
    requires tx.Valid() && tx.currByte == 0
    ensures tx'.Valid()
  {
    hide Created, Encoded;
    var p := Terminated(Created(tx.pkt, tx.src, tx.dest, true, tx.Collected()));
    tx.(pkt := p, buf := Encoded(Wire(p)))
  }

  /** The collected bytes go into the buffer as they are, a terminator behind them if it fits. */
  function TextLoaded(tx: Tx): (tx': Tx)
    requires tx.Valid() && tx.currByte == 0
    ensures tx'.Valid()
  {
    if tx.dataCur < PH_MSG_SIZE - 1 then
      tx.(dataBuf := tx.dataBuf[tx.dataCur := 0], dataCur := tx.dataCur + 1, buf := Encoded(tx.Collected() + [0]))
    else tx.(buf := Encoded(tx.Collected()))
  }

  /** A collected message is put into the buffer, and transmission starts. */
  function Launched(tx: Tx): (tx': Tx)
    requires tx.Valid()
    ensures tx'.Valid()
  {
    var ready := tx.(currByte := 0, gotMessage := false, buf := []);
    var loaded := if tx.packetMode then PacketLoaded(ready) else TextLoaded(ready);
    Started(loaded.(dataBuf := loaded.dataBuf[0 := 0], dataCur := 0))
  }

  /** transmitter_mainRoutineUpdate; c is read only by an idle transmitter, rand only by a
      retransmission. */
  function TxMain(tx: Tx, ms: MonitorState, c: Byte, rand: nat): (tx': Tx)
    requires tx.Valid()
    ensures tx'.Valid()
  {
    if tx.inTransmission && tx.transmissionComplete then tx
    else if !tx.inTransmission && tx.transmissionComplete then
      var t := Typed(tx, c);
      if ms == MS_IDLE && t.gotMessage then Launched(t) else t
    else if ms == MS_IDLE && !tx.inTransmission && !tx.transmissionComplete then
      Started(Toggled(tx.(currByte := 0, currBit := 0), true, rand))
    else tx
  }

  class Transmitter {
    const monitor: Monitor
    const codec: PacketCodec
    const transBuf: RingBuffer
    const pkt: PacketHeader
    const dataBuf: array<Byte>
    const packetMode: bool
    const src: Byte
    const dest: Byte
    var currBit: nat
    var currByte: nat
    var inTransmission: bool
    var transmissionComplete: bool
    var retransmissionTimeoutActive: bool
    var tim2: Tim2
    var pin: bool
    var gotMessage: bool
    var dataCur: nat

    ghost predicate Valid()
      reads this, codec, codec.table, transBuf, transBuf.buffer, pkt, pkt.msg, dataBuf
    {
      && codec.Ready() && transBuf.Valid() && transBuf.get == 0 && pkt.Valid()
      && transBuf.buffer != pkt.msg && transBuf.buffer != dataBuf && pkt.msg != dataBuf
      && codec.table !in {transBuf.buffer, pkt.msg, dataBuf}
      && State().Valid()
    }

    ghost function State(): Tx
      requires transBuf.Valid()
      reads this, transBuf, transBuf.buffer, pkt, pkt.msg, dataBuf
    {
      Tx(transBuf.Contents(), currBit, currByte, inTransmission, transmissionComplete, retransmissionTimeoutActive,
         tim2, pin, packetMode, src, dest, gotMessage, dataBuf[..], dataCur, pkt.State())
    }

    /** The pin is low and the transmission timer runs. */
    constructor (monitor: Monitor, codec: PacketCodec, src: Byte, dest: Byte, packetMode: bool)
      requires codec.Ready()
      ensures Valid() && this.monitor == monitor && this.codec == codec
      ensures this.src == src && this.dest == dest && this.packetMode == packetMode
      ensures fresh(transBuf) && fresh(transBuf.buffer) && fresh(pkt) && fresh(pkt.msg) && fresh(dataBuf)
      ensures State() == Tx([], 0, 0, false, true, false, Tim2(true, 0, TRANSMISSION_TICKS), false,
                            packetMode, src, dest, false, dataBuf[..], 0, NoPacket())
    {
      this.monitor, this.codec, this.src, this.dest, this.packetMode := monitor, codec, src, dest, packetMode;
      transBuf := new RingBuffer();
      pkt := new PacketHeader();
      dataBuf := new Byte[PH_MSG_SIZE](_ => 0);
      currBit, currByte, dataCur := 0, 0, 0;
      inTransmission, transmissionComplete, retransmissionTimeoutActive, gotMessage := false, true, false, false;
      tim2 := Tim2(true, 0, TRANSMISSION_TICKS);
      pin := false;
    }

    method StartTransmission()
      requires Valid()
      modifies this`inTransmission, this`tim2
      ensures Valid() && State() == Started(old(State()))
    {
      inTransmission := true;
      tim2 := tim2.(running := true);
    }

    method StopTransmission()
      requires Valid()
      modifies this`inTransmission, this`tim2, this`pin
      ensures Valid() && State() == Stopped(old(State()))
    {
      inTransmission := false;
      pin := true;
      tim2 := tim2.(running := false);
    }

    method ToggleRetransmission(retransmission: bool, rand: nat)
      requires Valid()
      modifies this`retransmissionTimeoutActive, this`tim2
      ensures Valid() && State() == Toggled(old(State()), retransmission, rand)
    {
      retransmissionTimeoutActive := retransmission;
      tim2 := tim2.(running := false);
      if retransmission {
        tim2 := tim2.(prescaler := 16000);
        var n := rand % TRANSMITTER_N_MAX;
        var w := n * 1000 / TRANSMITTER_N_MAX;
        tim2 := tim2.(reload := w);
      } else {
        tim2 := tim2.(prescaler := 0);
        tim2 := tim2.(reload := TRANSMISSION_TICKS);
      }
    }

    method Tim2Handler()
      requires Valid()
      modifies this
      ensures Valid() && State() == OnTim2(old(State()), monitor.State().state)
    {
      hide Started, Stopped, Toggled, Driven;
      if retransmissionTimeoutActive {
        ToggleRetransmission(false, 0);
        StartTransmission();
        return;
      }
      var any := transBuf.HasElement();
      var ms := monitor.GetState();
      if !any || currByte == transBuf.put {
        StopTransmission();
        transmissionComplete := true;
        return;
      } else if ms == MS_COLLISION {
        StopTransmission();
        transmissionComplete := false;
        return;
      }
      DriveHalfBit();
    }

    method DriveHalfBit()
      requires Valid() && currByte < transBuf.put
      modifies this`pin, this`currBit, this`currByte
      ensures Valid() && State() == Driven(old(State()))
    {
      pin := Bits(transBuf.buffer[currByte])[currBit];
      currBit := currBit + 1;
      if currBit == 8 {
        currBit := 0;
        currByte := currByte + 1;
      }
    }

    method MainRoutineUpdate(c: Byte, rand: nat)
      requires Valid()
      modifies this, transBuf, transBuf.buffer, pkt, pkt.msg, dataBuf
      ensures Valid() && State() == TxMain(old(State()), monitor.State().state, c, rand)
    {
      hide Typed, Launched, Started, Toggled;
      var ms := monitor.GetState();
      if inTransmission && transmissionComplete {
      } else if !inTransmission && transmissionComplete {
        ReadCharacter(c);
        if ms == MS_IDLE && !inTransmission && gotMessage {
          Launch();
        }
      } else if ms == MS_IDLE && !inTransmission && !transmissionComplete {
        currByte, currBit := 0, 0;
        ToggleRetransmission(true, rand);
        StartTransmission();
      }
    }

    method ReadCharacter(c: Byte)
      requires Valid()
      modifies this`gotMessage, this`dataCur, dataBuf
      ensures Valid() && State() == Typed(old(State()), c)
    {
      if c == CR {
        dataBuf[dataCur] := 0;
        if dataBuf[0] == 0 {
          dataBuf[0] := 0;
          dataCur := 0;
          gotMessage := false;
        } else {
          gotMessage := true;
        }
      } else if dataCur < PH_MSG_SIZE - 1 {
        dataBuf[dataCur] := c;
        dataCur := dataCur + 1;
      }
    }

    /** The start of a transmission, in either mode. */
    method Launch()
      requires Valid()
      modifies this`currByte, this`gotMessage, this`dataCur, this`inTransmission, this`tim2
      modifies transBuf, transBuf.buffer, pkt, pkt.msg, dataBuf
      ensures Valid() && State() == Launched(old(State()))
    {
      hide PacketLoaded, TextLoaded, Started;
      ghost var was := State();
      currByte := 0;
      gotMessage := false;
      transBuf.put := 0;
      transBuf.get := 0;
      assert State() == was.(currByte := 0, gotMessage := false, buf := []);
      if packetMode {
        LoadPacket();
      } else {
        LoadText();
      }
      ClearMessage();
      StartTransmission();
    }

    method ClearMessage()
      requires Valid()
      modifies this`dataCur, dataBuf
      ensures Valid() && State() == old(State()).(dataBuf := old(dataBuf[..])[0 := 0], dataCur := 0)
    {
      dataBuf[0] := 0;
      dataCur := 0;
    }

    method LoadPacket()
      requires Valid() && transBuf.Contents() == [] && currByte == 0
      modifies transBuf`put, transBuf.buffer, pkt, pkt.msg
      ensures Valid() && State() == PacketLoaded(old(State()))
    {
      hide Created, Encoded, Wire;
      codec.Create(pkt, src, dest, true, dataBuf, dataCur);
      if pkt.length < PH_MSG_SIZE - 1 {
        pkt.msg[pkt.length] := 0;
      }
      TransmitMessage();
    }

    method LoadText()
      requires Valid() && transBuf.Contents() == [] && currByte == 0
      modifies this`dataCur, transBuf`put, transBuf.buffer, dataBuf
      ensures Valid() && State() == TextLoaded(old(State()))
    {
      hide Encoded;
      if dataCur < PH_MSG_SIZE - 1 {
        dataBuf[dataCur] := 0;
        dataCur := dataCur + 1;
      }
      ghost var text := dataBuf[..dataCur];
      assert dataCur != old(dataCur) ==> text == old(dataBuf[..dataCur]) + [0];
      for i := 0 to dataCur
        modifies transBuf`put, transBuf.buffer
        invariant transBuf.Valid() && transBuf.Contents() == Encoded(text[..i])
      {
        TransmitByte(dataBuf[i], text, i);
      }
      assert text[..dataCur] == text;
    }

    /** Appends the symbol of one byte, byte i of w, to those of the bytes before it. */
    method TransmitByte(b: Byte, ghost w: seq<Byte>, ghost i: nat)
      requires transBuf.Valid() && i < |w| <= SIZEOF_PACKET && w[i] == b && transBuf.Contents() == Encoded(w[..i])
      modifies transBuf`put, transBuf.buffer
      ensures transBuf.Valid() && transBuf.Contents() == Encoded(w[..i + 1])
    {
      hide Encoded;
      EncodedSnoc(w[..i], b);
      assert w[..i] + [b] == w[..i + 1];
      var symbol := EncodeManchester(b);
      transBuf.Put(ByteOf(symbol[..8]));
      transBuf.Put(ByteOf(symbol[8..]));
    }

    method TransmitMessage()
      requires transBuf.Valid() && transBuf.get == 0 && transBuf.Contents() == [] && pkt.Valid()
      requires pkt.msg != transBuf.buffer
      modifies transBuf`put, transBuf.buffer
      ensures transBuf.Valid() && transBuf.Contents() == Encoded(Wire(pkt.State()))
    {
      hide Encoded, Wire, RingBuffer.Contents, RingBuffer.Valid, PacketHeader.Valid;
      ghost var w := Wire(pkt.State());
      WireLayout(pkt.State());
      TransmitByte(pkt.synch, w, 0);
      TransmitByte(pkt.ver, w, 1);
      TransmitByte(pkt.src, w, 2);
      TransmitByte(pkt.dest, w, 3);
      TransmitByte(pkt.length, w, 4);
      TransmitByte(pkt.crcFlag, w, 5);
      for i := 0 to pkt.length
        invariant transBuf.Valid() && transBuf.Contents() == Encoded(w[..6 + i])
      {
        TransmitByte(pkt.msg[i], w, 6 + i);
      }
      TransmitByte(pkt.fcs, w, |w| - 1);
      assert w[..|w|] == w;
    }
  }
}
