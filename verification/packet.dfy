/** packet_header.c: building, checking and reading packets. */
module Packets {
  import opened Bytes
  import opened Crc8

  const PH_MSG_SIZE: nat := 255
  const SIZEOF_PACKET: nat := 262

  datatype Packet = Packet(synch: Byte, ver: Byte, src: Byte, dest: Byte, length: Byte, crcFlag: Byte,
                           msg: seq<Byte>, fcs: Byte) {
    predicate Valid() {
      |msg| == PH_MSG_SIZE
    }
  }

  /** What ph_create writes into `out`; the tail of its message array is left as it was. */
  function Created(out: Packet, src: Byte, dest: Byte, crcFlag: bool, data: seq<Byte>): (p: Packet)
    requires out.Valid() && |data| <= PH_MSG_SIZE
    ensures p.Valid()
  {
    Packet(0x55, 0x01, src, dest, |data|, if crcFlag then 1 else 0,
           data + out.msg[|data|..], if crcFlag then Crc(data) else 0xAA)
  }

  /** The bytes of a packet in the order transmitMessage sends them. */
  function Wire(p: Packet): (w: seq<Byte>)
    requires p.Valid()
    ensures |w| == 7 + p.length
  {
    [p.synch, p.ver, p.src, p.dest, p.length, p.crcFlag] + p.msg[..p.length] + [p.fcs]
  }

  /** The packet as it is displayed: a terminator is written behind a short message. */
  function Terminated(p: Packet): (p': Packet)
    requires p.Valid()
    ensures p'.Valid()
    ensures p.length <= |p'.msg| && p' == p.(msg := p'.msg) && p'.msg[..p.length] == p.msg[..p.length]
  {
    if p.length < PH_MSG_SIZE - 1 then p.(msg := p.msg[p.length := 0]) else p
  }

  lemma WireLayout(p: Packet)
    requires p.Valid()
    ensures var w := Wire(p);
            && w[0] == p.synch && w[1] == p.ver && w[2] == p.src && w[3] == p.dest
            && w[4] == p.length && w[5] == p.crcFlag
            && (forall i | 0 <= i < p.length :: w[6 + i] == p.msg[i])
            && w[6 + p.length as int] == p.fcs
  {
  }

  lemma TerminatedSameWire(p: Packet)
    requires p.Valid()
    ensures Wire(Terminated(p)) == Wire(p)
  {
  }

  /** What ph_parse does to `out`, and what it returns. */
  function Parsed(out: Packet, buf: seq<Byte>): (res: (Packet, bool))
    requires out.Valid()
    ensures res.0.Valid()
  {
    if |buf| < SIZEOF_PACKET - PH_MSG_SIZE + 1 then (out, false)
    else
      var len: nat := buf[4];
      var head := out.(synch := buf[0], ver := buf[1], src := buf[2], dest := buf[3],
                       length := buf[4], crcFlag := buf[5]);
      if |buf| < SIZEOF_PACKET - PH_MSG_SIZE + len then (head, false)
      else
        var body := head.(msg := buf[6..6 + len] + out.msg[len..]);
        var last := buf[|buf| - 1];
        if buf[5] == 0 && last != 0xAA then (body, false)
        else (body.(fcs := last), Crc(body.msg[..len]) == last)
  }

  /** The buffers ph_parse is meant to accept. */
  predicate Acceptable(buf: seq<Byte>) {
    && |buf| >= 8
    && |buf| - 7 >= buf[4]
    && buf[|buf| - 1] == Crc(buf[6..6 + buf[4]])
    && (buf[5] != 0 || buf[|buf| - 1] == 0xAA)
  }

  /** Acceptance is exact, for every buffer; an accepted packet holds what the buffer holds. */
  lemma {:induction false} ParseIsExact(out: Packet, buf: seq<Byte>)
    requires out.Valid()
    ensures Parsed(out, buf).1 <==> Acceptable(buf)
    ensures Acceptable(buf) ==>
              var p := Parsed(out, buf).0;
              && Wire(p)[..|Wire(p)| - 1] == buf[..6 + buf[4]]
              && p.fcs == buf[|buf| - 1]
  {
    if |buf| >= 8 {
      var len: nat := buf[4];
      if |buf| >= 7 + len {
        assert (buf[6..6 + len] + out.msg[len..])[..len] == buf[6..6 + len];
        var p := Parsed(out, buf).0;
        assert Wire(p)[..|Wire(p)| - 1] == [p.synch, p.ver, p.src, p.dest, p.length, p.crcFlag] + p.msg[..len];
        assert buf[..6 + len] == buf[..6] + buf[6..6 + len];
      }
    }
  }

  /** What ph_parse leaves in a packet, for every buffer: nothing new if there are less than 8 bytes; the
      header otherwise; the message too if there is as much as the header says; and the last byte as the
      checksum, whether it is right or not, unless the flag is off and it is not 0xAA. */
  predicate Leaves(out: Packet, buf: seq<Byte>, p: Packet)
    requires out.Valid() && p.Valid()
  {
    if |buf| < 8 then p == out
    else
      && p.synch == buf[0] && p.ver == buf[1] && p.src == buf[2] && p.dest == buf[3]
      && p.length == buf[4] && p.crcFlag == buf[5]
      && if |buf| - 7 < buf[4] then p.msg == out.msg && p.fcs == out.fcs
         else
           && p.msg[..buf[4]] == buf[6..6 + buf[4]] && p.msg[buf[4]..] == out.msg[buf[4]..]
           && p.fcs == if buf[5] == 0 && buf[|buf| - 1] != 0xAA then out.fcs else buf[|buf| - 1]
  }

  lemma ParseLeaves(out: Packet, buf: seq<Byte>)
    requires out.Valid()
    ensures Leaves(out, buf, Parsed(out, buf).0)
  {
    hide Crc;
  }

  /** The message array as ph_create and ph_parse leave it: the tail keeps what an earlier packet left. */
  lemma CreatedTail(out: Packet, src: Byte, dest: Byte, crcFlag: bool, data: seq<Byte>)
    requires out.Valid() && |data| <= PH_MSG_SIZE
    ensures var msg := Created(out, src, dest, crcFlag, data).msg;
            msg[..|data|] == data && forall i | |data| <= i < PH_MSG_SIZE :: msg[i] == out.msg[i]
  {
    hide Crc;
  }

  lemma WireOfCreate(out: Packet, src: Byte, dest: Byte, crcFlag: bool, data: seq<Byte>)
    requires out.Valid() && |data| <= PH_MSG_SIZE
    ensures Wire(Created(out, src, dest, crcFlag, data))
         == [0x55, 0x01, src, dest, |data|, if crcFlag then 1 else 0] + data
          + [if crcFlag then Crc(data) else 0xAA]
  {
    assert Created(out, src, dest, crcFlag, data).msg[..|data|] == data;
  }

  /** A buffer laid out as Wire lays it out, with any values in its fields and anything before its
      last byte. */
  lemma ParseLaidOut(out: Packet, h: seq<Byte>, data: seq<Byte>, rest: seq<Byte>, fcs: Byte)
    requires out.Valid() && |h| == 6 && h[4] == |data|
    ensures var (p, ok) := Parsed(out, h + data + rest + [fcs]);
            && (ok <==> data + rest != [] && fcs == Crc(data) && (h[5] != 0 || fcs == 0xAA))
            && (ok ==> p.src == h[2] && p.dest == h[3] && p.length == h[4] && p.fcs == fcs
                       && |data| <= |p.msg| && p.msg[..|data|] == data)
  {
    hide Crc;
    var w := h + data + rest + [fcs];
    assert w[6..6 + |data|] == data;
    ParseIsExact(out, w);
    assert |w| >= 8 ==> Parsed(out, w).0.msg == data + out.msg[|data|..];
  }

  /** ph_parse takes back what ph_create made exactly when there is a message and either the
      checksum is in use or it happens to be 0xAA: the parser checks it even when the flag is off. */
  lemma {:induction false} CreateParse(out: Packet, out': Packet, src: Byte, dest: Byte, crcFlag: bool, data: seq<Byte>)
    requires out.Valid() && out'.Valid() && |data| <= PH_MSG_SIZE
    ensures var (p, ok) := Parsed(out', Wire(Created(out, src, dest, crcFlag, data)));
            && (ok <==> data != [] && (crcFlag || Crc(data) == 0xAA))
            && (ok ==> p.src == src && p.dest == dest && p.length == |data| <= |p.msg| && p.msg[..|data|] == data
                       && p.fcs == Crc(data))
  {
    var fcs := if crcFlag then Crc(data) else 0xAA;
    WireOfCreate(out, src, dest, crcFlag, data);
    var h := [0x55, 0x01, src, dest, |data|, if crcFlag then 1 else 0];
    assert h + data + [] + [fcs] == h + data + [fcs];
    ParseLaidOut(out', h, data, [], fcs);
  }

  /** A message that ph_create sends without a checksum and ph_parse refuses. */
  lemma UncheckedPacketRefused(out: Packet, src: Byte, dest: Byte)
    requires out.Valid()
    ensures !Parsed(out, Wire(Created(out, src, dest, false, [0]))).1
  {
    CreateParse(out, out, src, dest, false, [0]);
    CrcOfZero(0);
  }

  lemma CrcOfZero(z: Byte)
    requires z == 0
    ensures Crc([z]) == z
  {
    assert Register([z]) == Shifts(Xor(Register([]), Bits(z)), 8);
    WordOfZero(z, 8);
    assert Xor(Zeros(8), Bits(z)) == Zeros(8);
    ZerosStay(8);
    CrcIsSerial([z]);
    BitsInjective(Crc([z]), z);
  }

  /** What ph_parse makes of a packet with more behind it: the first message with the last byte as its
      checksum, accepted exactly when that is the message's checksum. */
  lemma DrainedTogether(out: Packet, src: Byte, dest: Byte, first: seq<Byte>, rest: seq<Byte>, fcs: Byte)
    requires out.Valid() && 0 < |first| <= PH_MSG_SIZE
    ensures var (p, ok) := Parsed(out, [0x55, 0x01, src, dest, |first|, 1] + first + [Crc(first)] + rest + [fcs]);
            && (ok <==> fcs == Crc(first))
            && (ok ==> p.src == src && p.dest == dest && p.length == |first| <= |p.msg| && p.msg[..|first|] == first
                       && p.fcs == Crc(first))
  {
    hide Crc, Parsed;
    var h := [0x55, 0x01, src, dest, |first|, 1];
    assert h + first + ([Crc(first)] + rest) + [fcs] == h + first + [Crc(first)] + rest + [fcs];
    ParseLaidOut(out, h, first, [Crc(first)] + rest, fcs);
  }

  // ---- Errors in the message or in the checksum ----

  /** A buffer that is exactly one packet long. */
  predicate OnePacket(buf: seq<Byte>) {
    |buf| >= 8 && |buf| - 7 == buf[4]
  }

  lemma AcceptedIsCodeword(buf: seq<Byte>)
    requires OnePacket(buf)
    ensures Acceptable(buf) <==>
              && Serial(Zeros(8), BitsOf(buf[6..])) == Zeros(8)
              && (buf[5] != 0 || buf[|buf| - 1] == 0xAA)
  {
    var len: nat := buf[4];
    CodewordIffCrc(buf[6..6 + len], buf[|buf| - 1]);
    assert buf[6..] == buf[6..6 + len] + [buf[|buf| - 1]];
  }

  /** Two packets with the same header. */
  predicate SameHeader(a: seq<Byte>, b: seq<Byte>) {
    OnePacket(a) && OnePacket(b) && a[..6] == b[..6]
  }

  lemma SameHeaderSameLength(a: seq<Byte>, b: seq<Byte>)
    requires SameHeader(a, b)
    ensures |a| == |b| && a[5] == b[5]
  {
    assert a[4] == a[..6][4] == b[..6][4] == b[4];
    assert a[5] == a[..6][5] == b[..6][5] == b[5];
  }

  /** An accepted packet whose message and checksum are then damaged within eight consecutive
      bits, across bytes if need be, is refused. */
  lemma BurstRefused(a: seq<Byte>, b: seq<Byte>, from: nat)
    requires SameHeader(a, b) && Acceptable(a) && a != b
    requires |BitsOf(a[6..])| == |BitsOf(b[6..])| ==>
               forall k | 0 <= k < |BitsOf(a[6..])| && BitsOf(a[6..])[k] != BitsOf(b[6..])[k] :: from <= k < from + 8
    ensures !Acceptable(b)
  {
    hide Crc, BitsOf;
    SameHeaderSameLength(a, b);
    AcceptedIsCodeword(a);
    AcceptedIsCodeword(b);
    assert a == a[..6] + a[6..] && b == b[..6] + b[6..];
    if BitsOf(a[6..]) == BitsOf(b[6..]) {
      BitsOfInjective(a[6..], b[6..]);
    } else {
      BurstDetected(BitsOf(a[6..]), BitsOf(b[6..]), from);
    }
  }

  /** So is one with an odd number of flipped bits. */
  lemma OddFlipsRefused(a: seq<Byte>, b: seq<Byte>)
    requires SameHeader(a, b) && Acceptable(a)
    requires |BitsOf(a[6..])| == |BitsOf(b[6..])| ==> Ones(Xor(BitsOf(a[6..]), BitsOf(b[6..]))) % 2 == 1
    ensures !Acceptable(b)
  {
    SameHeaderSameLength(a, b);
    AcceptedIsCodeword(a);
    AcceptedIsCodeword(b);
    OddFlipsDetected(BitsOf(a[6..]), BitsOf(b[6..]));
  }

  /** With two flipped bits, a checksummed packet still passes exactly when they are a multiple
      of 127 bits apart. */
  lemma TwoFlipsRefused(a: seq<Byte>, b: seq<Byte>, i: nat, j: nat)
    requires SameHeader(a, b) && Acceptable(a) && a[5] != 0
    requires i < j < 8 * |a[6..]|
    requires |a| == |b| ==>
               forall k | 0 <= k < 8 * |a[6..]| :: (BitsOf(a[6..])[k] != BitsOf(b[6..])[k]) == (k == i || k == j)
    ensures Acceptable(b) <==> (j - i) % 127 == 0
  {
    SameHeaderSameLength(a, b);
    AcceptedIsCodeword(a);
    AcceptedIsCodeword(b);
    TwoFlipsDetected(BitsOf(a[6..]), BitsOf(b[6..]), i, j);
  }

  // ---- The C code ----

  /** A packet of zeros, as static storage starts. */
  function NoPacket(): (p: Packet)
    ensures p.Valid() && forall i | 0 <= i < 255 :: p.msg[i] == 0
  {
    Packet(0, 0, 0, 0, 0, 0, seq(PH_MSG_SIZE, _ => 0), 0)
  }

  class PacketHeader {
    var synch: Byte
    var ver: Byte
    var src: Byte
    var dest: Byte
    var length: Byte
    var crcFlag: Byte
    const msg: array<Byte>
    var fcs: Byte

    ghost predicate Valid()
      reads this, msg
    {
      msg.Length == PH_MSG_SIZE
    }

    ghost function State(): (p: Packet)
      reads this, msg
      ensures Valid() ==> p.Valid()
    {
      Packet(synch, ver, src, dest, length, crcFlag, msg[..], fcs)
    }

    constructor ()
      ensures Valid() && fresh(msg) && State() == NoPacket()
    {
      synch, ver, src, dest, length, crcFlag, fcs := 0, 0, 0, 0, 0, 0, 0;
      msg := new Byte[PH_MSG_SIZE](_ => 0);
    }
  }

  method ComputeCrc8Byte(data: Byte, polynomial: Octet) returns (crc: Byte)
    ensures Bits(crc) == Steps(Bits(data), polynomial, 8)
  {
    var register := Bits(data);
    for bit := 0 to 8
      invariant register == Steps(Bits(data), polynomial, bit)
    {
      if register[0] {
        register := ShiftLeft(register);
        register := Xor(register, polynomial);
      } else {
        register := ShiftLeft(register);
      }
    }
    crc := ByteOf(register);
  }

  /** The functions of the module, over its one static lookup table. */
  class PacketCodec {
    const table: array<Byte>

    ghost predicate Ready()
      reads this, table
    {
      table.Length == 256 && forall i: Byte :: Bits(table[i]) == Shifts(Bits(i), 8)
    }

    constructor ()
      ensures Ready() && fresh(table)
    {
      table := new Byte[256](_ => 0);
      new;
      ComputeLookupTable(CRC8_POLYNOMIAL);
      forall i: Byte
        ensures Bits(table[i]) == Shifts(Bits(i), 8)
      {
        StepsAreShifts(Bits(i), 8);
      }
    }

    method ComputeLookupTable(polynomial: Octet)
      requires table.Length == 256
      modifies table
      ensures forall i: Byte :: Bits(table[i]) == Steps(Bits(i), polynomial, 8)
    {
      hide Bits, Steps;
      for i := 0 to 256
        invariant forall j: Byte | j < i :: Bits(table[j]) == Steps(Bits(j), polynomial, 8)
      {
        table[i] := ComputeCrc8Byte(i, polynomial);
      }
    }

    method ComputeCrc8(msg: array<Byte>, size: nat) returns (crc: Byte)
      requires Ready() && size <= msg.Length
      ensures crc == Crc(msg[..size])
    {
      crc := 0;
      assert Bits(0) == Zeros(8);
      for i := 0 to size
        invariant Bits(crc) == Register(msg[..i])
      {
        assert msg[..i + 1][..i] == msg[..i];
        crc := ByteXor(crc, msg[i]);
        crc := table[crc];
      }
      BitsInjective(crc, Crc(msg[..size]));
    }

    method Create(out: PacketHeader, src: Byte, dest: Byte, crcFlag: bool, data: array<Byte>, size: nat)
      requires Ready() && out.Valid() && out.msg != table && out.msg != data
      requires size <= data.Length && size <= PH_MSG_SIZE
      modifies out, out.msg
      ensures out.Valid() && out.State() == Created(old(out.State()), src, dest, crcFlag, data[..size])
    {
      out.synch := 0x55;
      out.ver := 0x01;
      out.src := src;
      out.dest := dest;
      out.length := size;
      out.crcFlag := if crcFlag then 1 else 0;
      Copy(data, 0, out.msg, size);
      assert data[0..0 + size] == data[..size] == out.msg[..size];
      if crcFlag {
        out.fcs := ComputeCrc8(out.msg, size);
      } else {
        out.fcs := 0xAA;
      }
    }

    method Parse(out: PacketHeader, buf: array<Byte>, size: nat) returns (ok: bool)
      requires Ready() && out.Valid() && out.msg != table && out.msg != buf
      requires size <= buf.Length
      modifies out, out.msg
      ensures out.Valid() && (out.State(), ok) == Parsed(old(out.State()), buf[..size])
      ensures ok <==> Acceptable(buf[..size])
      ensures Leaves(old(out.State()), buf[..size], out.State())
    {
      hide Crc, Leaves;
      ghost var was, b := out.State(), buf[..size];
      ParseIsExact(was, b);
      ParseLeaves(was, b);
      if size < SIZEOF_PACKET - PH_MSG_SIZE + 1 {
        return false;
      }
      out.synch := buf[0];
      out.ver := buf[1];
      out.src := buf[2];
      out.dest := buf[3];
      out.length := buf[4];
      out.crcFlag := buf[5];
      ghost var head := was.(synch := b[0], ver := b[1], src := b[2], dest := b[3], length := b[4], crcFlag := b[5]);
      assert out.State() == head;
      var len: nat := out.length;
      if size < SIZEOF_PACKET - PH_MSG_SIZE + len {
        return false;
      }
      Copy(buf, 6, out.msg, len);
      ghost var body := head.(msg := b[6..6 + len] + was.msg[len..]);
      assert b[6..6 + len] == buf[6..6 + len];
      assert out.msg[..] == b[6..6 + len] + was.msg[len..];
      assert out.msg[..len] == b[6..6 + len];
      assert out.State() == body;
      if out.crcFlag == 0 && buf[size - 1] != 0xAA {
        return false;
      }
      out.fcs := buf[size - 1];
      var crc := ComputeCrc8(out.msg, len);
      ok := crc == out.fcs;
      assert out.State() == body.(fcs := b[size - 1]);
    }
  }

  /** memcpy. */
  method Copy(from: array<Byte>, offset: nat, to: array<Byte>, n: nat)
    requires from != to && offset + n <= from.Length && n <= to.Length
    modifies to
    ensures to[..] == from[offset..offset + n] + old(to[..])[n..]
  {
    for i := 0 to n
      invariant to[..i] == from[offset..offset + i]
      invariant to[i..] == old(to[..])[i..]
    {
      to[i] := from[offset + i];
    }
    assert to[..] == to[..n] + to[n..];
  }
}
