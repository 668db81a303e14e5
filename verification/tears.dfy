/** A line pulled low while a packet is on it: when the packet is shown all the same, and when it is lost. */
module Tears {
  import opened Bytes
  import opened Crc8
  import opened RingBuffers
  import opened Packets
  import opened Manchester
  import opened Monitors
  import opened Receivers
  import opened Link
  import opened Deliveries
  import opened Collisions
  import opened Messages

  // ---- What the listener makes of it ----

  /** The listener has followed the first j bits of a packet when the line is pulled low. */
  function TornAfter(b: Station, m: Message, qs: seq<seq<Quiet>>, j: nat): (st: Station)
    requires b.rx.Valid() && m.Valid() && |qs| == 16 * |m.Packet()| && j <= 8 * |m.Packet()|
    ensures st.rx.Valid()
  {
    Drive(After(b, Line(BitsOf(m.Packet())), qs, 2 * j), false)
  }

  /** It has these j bits and no more. */
  lemma TornState(b: Station, m: Message, qs: seq<seq<Quiet>>, j: nat) returns (a: Assembly)
    requires Ready(b) && b.rx.asm.queue == [] && m.Valid() && |qs| == 16 * |m.Packet()| && AllTolerable(qs)
    requires 0 < j <= 8 * |m.Packet()|
    ensures a.Valid() && a.currBit == 0 && a.queue == []
    ensures var torn := TornAfter(b, m, qs, j);
            && Consistent(torn) && !torn.line && torn.rx.currentlyReceiving && SameDesk(torn.rx, b.rx)
            && torn.rx.asm == TakeAll(a, BitsOf(m.Packet())[..j])
  {
    hide Hold, Settle, Line, TakeAll, Tolerable, BitsOf, Message.Packet, Crc;
    var bits := BitsOf(m.Packet());
    var f := After(b, Line(bits), qs, Unseen(bits));
    PacketFits(m);
    PacketHeardExactly(m);
    HeardExactly(m.Packet());
    LeadingZeroUnseen(b, bits, qs);
    UnseenHalfBit(b, bits, qs);
    EmptySettles(b, qs[0]);
    FollowFrame(b, f, bits, qs, 2 * j);
    assert !AllOnes(bits, j);
    return f.rx.asm;
  }

  /** A prefix of bytes in the ring, the rest of the bits in progress. */
  lemma TakePrefix(a: Assembly, bs: seq<Byte>, j: nat)
    requires a.Valid() && a.currBit == 0 && a.queue == [] && j <= 8 * |bs| && |bs| < BUF_SIZE
    ensures var a' := TakeAll(a, BitsOf(bs)[..j]);
            && a'.queue == bs[..j / 8] && a'.currBit == j % 8
            && (j % 8 > 0 ==> a'.dataByte[..j % 8] == Bits(bs[j / 8])[..j % 8])
  {
    hide TakeAll, BitsOf, Bits;
    var i, r := j / 8, j % 8;
    TakeBytes(a, bs[..i]);
    BitsOfPrefix(bs, i);
    if r == 0 {
      assert BitsOf(bs)[..j] == BitsOf(bs[..i]);
    } else {
      BitsOfNext(bs, i, r);
      TakeConcat(a, BitsOf(bs[..i]), Bits(bs[i])[..r]);
      TakeSome(TakeAll(a, BitsOf(bs[..i])), Bits(bs[i]), r);
    }
  }

  lemma BitsOfPrefix(bs: seq<Byte>, i: nat)
    requires i <= |bs|
    ensures BitsOf(bs)[..8 * i] == BitsOf(bs[..i])
  {
    assert bs == bs[..i] + bs[i..];
    BitsOfConcat(bs[..i], bs[i..]);
  }

  lemma BitsOfNext(bs: seq<Byte>, i: nat, r: nat)
    requires i < |bs| && r < 8
    ensures BitsOf(bs)[..8 * i + r] == BitsOf(bs[..i]) + Bits(bs[i])[..r]
  {
    hide BitsOf, Bits;
    assert bs == bs[..i] + ([bs[i]] + bs[i + 1..]);
    BitsOfConcat(bs[..i], [bs[i]] + bs[i + 1..]);
    BitsOfConcat([bs[i]], bs[i + 1..]);
    BitsOfOne(bs[i]);
  }

  lemma LastBit(b: Byte)
    ensures Bits(b)[7] <==> b % 2 == 1
  {
  }

  /** Seven bits of a byte and a 1 are that byte exactly when it is odd. */
  lemma CompletedByte(a: Assembly, b: Byte)
    requires a.currBit == 7 && a.dataByte[..7] == Bits(b)[..7]
    ensures |Completed(a)| == 1 && (Completed(a)[0] == b <==> b % 2 == 1)
  {
    hide Bits;
    var o := a.dataByte[7 := true];
    LastBit(b);
    assert o[..7] == a.dataByte[..7];
    if b % 2 == 1 {
      assert o == o[..7] + [true] && Bits(b) == Bits(b)[..7] + [Bits(b)[7]];
      ByteOfBits(b);
    }
  }

  /** The message is shown by exactly one delivery more. */
  predicate ShowsNow(r: Rx, before: Rx, m: Message) {
    ShowsOneMore(r, before) && ShowsMessage(r.inbox[|before.inbox|], m)
  }

  lemma SameDeskShows(r: Rx, s: Rx, before: Rx, m: Message)
    requires SameDesk(r, s)
    ensures ShowsNow(r, before, m) <==> ShowsNow(s, before, m)
  {
  }

  /** What fits one drain and is shown shows m only if it has all the bytes of m's packet. */
  lemma TooShortToShow(desk: Rx, bs: seq<Byte>, m: Message)
    requires desk.Valid() && desk.packetMode && m.Valid() && |bs| < |m.Packet()|
    requires |bs| <= SIZEOF_PACKET
    ensures !ShowsNow(ShownIf(desk, bs), desk, m)
  {
    hide Shown, ShowsMessage, Message.Packet;
    if bs != [] {
      ShownDelivers(desk, bs);
      if ShowsNow(ShownIf(desk, bs), desk, m) {
        DeliveryAsLong(Shown(desk, bs).inbox[|desk.inbox|], m);
      }
    }
  }

  /** A packet with any last byte is shown as m exactly when that byte is m's checksum. */
  lemma LastByteDecides(desk: Rx, m: Message, x: Byte)
    requires desk.Valid() && desk.packetMode && m.Valid()
    ensures var bs := m.Packet()[..|m.Packet()| - 1] + [x];
            |bs| <= SIZEOF_PACKET && (ShowsNow(Shown(desk, bs), desk, m) <==> x == Crc(m.text))
  {
    hide Crc, Parsed, Buffered;
    var h := [0x55, 0x01, m.src, m.dest, |m.text|, 1];
    assert m.Packet()[..|m.Packet()| - 1] + [x] == h + m.text + [] + [x];
    ParseLaidOut(desk.pkt, h, m.text, [], x);
  }

  /** What is shown of a packet that is torn after j of its bits, the line held low for the monitor's
      timeout and then released. The packet is shown exactly when no pass finds the collision and the
      listener has all of the bits, or all but the last and the checksum is odd: the release is then
      taken for the missing bit. */
  lemma {:induction false} TornShownIff(b: Station, m: Message, qs: seq<seq<Quiet>>, j: nat,
                                        hold: seq<Quiet>, q: seq<Quiet>)
    requires Ready(b) && b.rx.asm.queue == [] && b.rx.packetMode
    requires m.Valid() && |qs| == 16 * |m.Packet()| && AllTolerable(qs) && 0 < j <= 8 * |m.Packet()|
    requires Duration(hold) >= SYSTICK_TICKS && Duration(q) >= SYSTICK_TICKS
    ensures var torn, n := TornAfter(b, m, qs, j), 8 * |m.Packet()|;
            var b' := Released(Settle(torn, hold), q);
            && Ready(b') && b'.rx.asm.queue == []
            && (ShowsNow(b'.rx, b.rx, m)
                <==> CollisionPasses(torn, hold) == 0 && (j == n || (j == n - 1 && Crc(m.text) % 2 == 1)))
  {
    hide Settle, Released, TornAfter, CollisionPasses, ShownIf, Completed, Message.Packet, Crc, BitsOf, TakeAll,
         ShowsNow, Tolerable, Busy;
    var torn := TornAfter(b, m, qs, j);
    var b' := Released(Settle(torn, hold), q);
    var a := TornState(b, m, qs, j);
    PacketFits(m);
    TakePrefix(a, m.Packet(), j);
    HeldLow(torn, hold, q);
    CompletedAlike(torn.rx.asm, torn.rx.asm);
    var kept := if CollisionPasses(torn, hold) > 0 then [] else torn.rx.asm.queue;
    var bs := kept + Completed(torn.rx.asm);
    SameDeskShownIf(torn.rx, b.rx, bs);
    SameDeskShows(b'.rx, ShownIf(b.rx, bs), b.rx, m);
    TornBytes(b.rx, torn.rx.asm, m, j, kept);
  }

  lemma TornBytes(desk: Rx, a: Assembly, m: Message, j: nat, kept: seq<Byte>)
    requires desk.Valid() && desk.packetMode && m.Valid() && 0 < j <= 8 * |m.Packet()|
    requires a.queue == m.Packet()[..j / 8] && a.currBit == j % 8
    requires j % 8 > 0 ==> a.dataByte[..j % 8] == Bits(m.Packet()[j / 8])[..j % 8]
    requires kept == [] || kept == a.queue
    ensures var bs, n := kept + Completed(a), 8 * |m.Packet()|;
            && |bs| <= SIZEOF_PACKET
            && (ShowsNow(ShownIf(desk, bs), desk, m)
                <==> kept == a.queue && (j == n || (j == n - 1 && Crc(m.text) % 2 == 1)))
  {
    hide Bits, Crc, ShowsNow, Shown;
    var p := m.Packet();
    PacketFits(m);
    if kept == a.queue && j == 8 * |p| {
      assert kept + Completed(a) == p[..|p| - 1] + [Crc(m.text)];
      LastByteDecides(desk, m, Crc(m.text));
    } else if kept == a.queue && j == 8 * |p| - 1 {
      assert p[|p| - 1] == Crc(m.text);
      CompletedByte(a, Crc(m.text));
      LastByteDecides(desk, m, Completed(a)[0]);
      assert kept + Completed(a) == p[..|p| - 1] + [Completed(a)[0]];
    } else {
      TooShortToShow(desk, kept + Completed(a), m);
    }
  }
}
