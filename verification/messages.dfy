/** Packets as a listening card shows them: one by one, piled up, and taken for one another. */
module Messages {
  import opened Bytes
  import opened Crc8
  import opened RingBuffers
  import opened Packets
  import opened Manchester
  import opened Monitors
  import opened Receivers
  import opened Link
  import opened Deliveries

  // ---- One packet ----

  /** A message with its addresses. */
  datatype Message = Message(src: Byte, dest: Byte, text: seq<Byte>) {
    /** What the code can put into a packet and have accepted. */
    predicate Valid() {
      0 < |text| < PH_MSG_SIZE
    }

    /** The bytes of its packet. */
    function Packet(): (bs: seq<Byte>)
      requires Valid()
    {
      [0x55, 0x01, src, dest, |text|, 1] + text + [Crc(text)]
    }
  }

  lemma SynchStartsLow(bs: seq<Byte>)
    requires bs != [] && bs[0] == 0x55
    ensures StartsLow(bs)
  {
    FirstBit(bs);
  }

  lemma PacketHeardExactly(m: Message)
    requires m.Valid()
    ensures StartsLow(m.Packet()) && HeardBytes(m.Packet()) == m.Packet()
  {
    hide BitsOf, HeardBytes, Crc;
    SynchStartsLow(m.Packet());
    HeardExactly(m.Packet());
  }

  lemma PacketFits(m: Message)
    requires m.Valid()
    ensures 8 <= |m.Packet()| < SIZEOF_PACKET
  {
    hide Crc;
  }

  /** A message, shown by a receiver in packet mode. */
  predicate ShowsMessage(d: Delivery, m: Message) {
    && d.Parcel? && d.accepted
    && d.packet.src == m.src && d.packet.dest == m.dest && d.packet.length == |m.text| <= |d.packet.msg|
    && d.packet.msg[..|m.text|] == m.text && d.packet.fcs == Crc(m.text)
  }

  lemma ShownPacket(r: Rx, m: Message)
    requires r.Valid() && r.packetMode && m.Valid()
    ensures var s := Shown(r, m.Packet());
            s.packetMode && ShowsOneMore(s, r) && ShowsMessage(s.inbox[|r.inbox|], m)
  {
    hide Crc, Parsed;
    var h := [0x55, 0x01, m.src, m.dest, |m.text|, 1];
    assert h + m.text + [] + [Crc(m.text)] == m.Packet();
    ParseLaidOut(r.pkt, h, m.text, [], Crc(m.text));
  }

  /** What is printed of a packet's message: the message, exactly when it has no NUL and is shorter than 254
      or an earlier packet has left a NUL behind it. */
  lemma PacketPrinted(r: Rx, m: Message)
    requires r.Valid() && r.packetMode && m.Valid()
    ensures var s := Shown(r, m.Packet());
            && ShowsOneMore(s, r)
            && (CString(s.inbox[|r.inbox|].packet.msg) == m.text
                <==> 0 !in m.text && (|m.text| < 254 || r.pkt.msg[254] == 0))
  {
    hide Crc, Shown, CString;
    var bs := m.Packet();
    PacketFits(m);
    ShownPacketExactly(r, bs);
    var msg := Shown(r, bs).inbox[|r.inbox|].packet.msg;
    ShownDelivers(r, bs);
    assert bs[6..6 + bs[4]] == m.text;
    CStringIs(m.text, msg);
  }

  /** The listener's half: the half-bits of a packet, each held for a tolerable time, then a quiet line
      and one round of the main loop, show its message, once, with the parser's approval. */
  lemma PacketHeard(b: Station, m: Message, qs: seq<seq<Quiet>>, gap: seq<Quiet>)
    requires m.Valid() && Ready(b) && b.rx.asm.queue == [] && b.rx.packetMode
    requires |qs| == 16 * (7 + |m.text|) && AllTolerable(qs) && Duration(gap) >= SYSTICK_TICKS
    ensures var b' := QuietStep(Frame(b, BitsOf(m.Packet()), qs, gap), Pass);
            && ShowsOneMore(b'.rx, b.rx) && ShowsMessage(b'.rx.inbox[|b.rx.inbox|], m)
            && Ready(b') && b'.rx.asm.queue == [] && b'.rx.packetMode
  {
    hide Frame, QuietStep, Shown, BitsOf, HeardBytes, Crc, ShowsMessage, StartsLow, Tolerable;
    PacketHeardExactly(m);
    FrameDelivered(b, Sent(m.Packet(), qs, gap));
    ShownPacket(b.rx, m);
  }

  // ---- Several packets ----

  /** What has been shown since inbox `before`. */
  predicate ShownInOrder(inbox: seq<Delivery>, before: seq<Delivery>, messages: seq<Message>) {
    && |inbox| == |before| + |messages| && inbox[..|before|] == before
    && forall i | 0 <= i < |messages| :: ShowsMessage(inbox[|before| + i], messages[i])
  }

  lemma ShownOneMore(inbox: seq<Delivery>, inbox': seq<Delivery>, before: seq<Delivery>, messages: seq<Message>)
    requires messages != [] && ShownInOrder(inbox, before, messages[..|messages| - 1])
    requires |inbox'| == |inbox| + 1 && inbox'[..|inbox|] == inbox
    requires ShowsMessage(inbox'[|inbox|], messages[|messages| - 1])
    ensures ShownInOrder(inbox', before, messages)
  {
    hide ShowsMessage;
    assert inbox'[..|before|] == inbox'[..|inbox|][..|before|];
    forall i | 0 <= i < |messages| - 1
      ensures ShowsMessage(inbox'[|before| + i], messages[i])
    {
      assert inbox'[..|inbox|][|before| + i] == inbox[|before| + i];
      assert messages[..|messages| - 1][i] == messages[i];
    }
  }

  /** The frames carry the packets of the messages. */
  predicate Carry(frames: seq<Sent>, messages: seq<Message>) {
    && |frames| == |messages| && AllValid(frames)
    && forall i | 0 <= i < |frames| :: messages[i].Valid() && frames[i].bytes == messages[i].Packet()
  }

  lemma {:induction false} ShownPackets(desk: Rx, frames: seq<Sent>, messages: seq<Message>)
    requires desk.Valid() && desk.packetMode && Carry(frames, messages)
    ensures AllFit(HeardEach(frames))
    ensures var r := ShownAll(desk, HeardEach(frames)); r.packetMode && ShownInOrder(r.inbox, desk.inbox, messages)
  {
    hide Shown, ShowsMessage, HeardBytes, Crc, Tolerable, StartsLow;
    if frames != [] {
      var n := |frames| - 1;
      ShownPackets(desk, frames[..n], messages[..n]);
      PacketHeardExactly(messages[n]);
      assert HeardEach(frames)[..n] == HeardEach(frames[..n]);
      var before := ShownAll(desk, HeardEach(frames[..n]));
      ShownPacket(before, messages[n]);
      ShownOneMore(before.inbox, ShownAll(desk, HeardEach(frames)).inbox, desk.inbox, messages);
    }
  }

  /** All batches but the last have been shown, one delivery each, and the last is in the ring. */
  predicate AllButLastShown(st: Station, frames: seq<Sent>, batches: seq<seq<Byte>>)
    requires st.rx.Valid() && AllValid(frames)
  {
    var n := |batches| - 1;
    && n >= 0 && AllFit(batches[..n])
    && var shown := ShownAll(st.rx, batches[..n]);
       && Shelved(st, frames) == Shelf(shown, batches[n])
       && st.rx.inbox <= shown.inbox && |shown.inbox| == |st.rx.inbox| + n
  }

  /** If an idle pass falls between each and the next, each packet but the last has been shown, and the
      last is in the ring. */
  lemma ShownOneByOne(st: Station, frames: seq<Sent>, messages: seq<Message>)
    requires st.rx.Valid() && st.rx.asm.queue == [] && st.rx.packetMode && frames != [] && Carry(frames, messages)
    requires forall i: nat | i + 1 < |frames| :: Separated(st, frames, i)
    ensures AllFit(HeardEach(frames)) && AllButLastShown(st, frames, HeardEach(frames))
    ensures |HeardEach(frames)[|frames| - 1]| == |messages[|frames| - 1].Packet()|
  {
    hide Passes, ShownAll, ShowsMessage, HeardBytes, Shown, Crc, Tolerable, StartsLow;
    var each, n := HeardEach(frames), |frames| - 1;
    AloneIffSeparated(st, frames);
    assert Batched(st, frames).All()[..n] == Batched(st, frames).done;
    ShownPackets(st.rx, frames, messages);
    ShelvedBatches(st, frames);
    NoBatchEmpty(st, frames);
    assert forall b | b in each[..n] :: b in each;
    ShownAllInbox(st.rx, each[..n]);
    PacketHeardExactly(messages[n]);
  }

  /** Something has gone wrong for good: bytes have been lost, or the i-th delivery is longer than the
      i-th packet, or is going to be. */
  predicate Behind(st: Station, frames: seq<Sent>, s: Shelf, i: nat, size: nat) {
    && st.rx.inbox <= s.desk.inbox
    && var n := |st.rx.inbox| + i;
       || |Shipped(s.desk.inbox)| + |s.ring| < |Shipped(st.rx.inbox)| + |AllBytes(frames)|
       || (|s.desk.inbox| == n && |s.ring| > size)
       || (|s.desk.inbox| > n && |s.desk.inbox[n].bytes| > size)
  }

  lemma BehindDrain(st: Station, frames: seq<Sent>, s: Shelf, i: nat, size: nat)
    requires s.Valid() && size < SIZEOF_PACKET && Behind(st, frames, s, i, size)
    requires s.desk.packetMode == st.rx.packetMode && Ledger(st, frames, s.desk.inbox, s.ring)
    ensures Behind(st, frames, s.Drain(), i, size)
  {
    hide Shown, Shipped, AllBytes, Delivers, Decoded;
    LedgerDrain(st, frames, s);
    if s.ring != [] {
      ShownDelivers(s.desk, s.Portion());
      DeliversBytes(s.Drain().desk.inbox[|s.desk.inbox|], s.Portion(), s.desk.packetMode);
      assert forall m | 0 <= m < |s.desk.inbox| :: s.Drain().desk.inbox[m] == s.desk.inbox[m];
    }
  }

  lemma {:induction false} BehindDrained(st: Station, frames: seq<Sent>, s: Shelf, k: nat, i: nat, size: nat)
    requires s.Valid() && size < SIZEOF_PACKET && Behind(st, frames, s, i, size)
    requires s.desk.packetMode == st.rx.packetMode && Ledger(st, frames, s.desk.inbox, s.ring)
    ensures Behind(st, frames, s.Drained(k), i, size)
  {
    hide Behind, Ledger, Shelf.Drain;
    if k > 0 {
      BehindDrained(st, frames, s, k - 1, i, size);
      LedgerDrained(st, frames, s, k - 1);
      BehindDrain(st, frames, s.Drained(k - 1), i, size);
    }
  }

  lemma BehindPut(st: Station, frames: seq<Sent>, s: Shelf, i: nat, size: nat)
    requires frames != [] && s.Valid() && Behind(st, frames[..|frames| - 1], s, i, size)
    requires st.rx.asm.queue == [] && Ledger(st, frames[..|frames| - 1], s.desk.inbox, s.ring)
    ensures Behind(st, frames, s.Put(HeardBytes(frames[|frames| - 1].bytes)), i, size)
  {
    hide Shipped, Delivers, EnqueueAll, HeardBytes;
    EnqueueAllFits(s.ring, HeardBytes(frames[|frames| - 1].bytes));
  }

  /** The first packet that is not separated from the next puts all of them behind. */
  lemma {:induction false} PiledUp(st: Station, frames: seq<Sent>, messages: seq<Message>) returns (i: nat)
    requires st.rx.Valid() && st.rx.asm.queue == [] && st.rx.packetMode && frames != [] && Carry(frames, messages)
    requires exists i: nat :: i + 1 < |frames| && !Separated(st, frames, i)
    ensures i < |frames| && |messages[i].Packet()| < SIZEOF_PACKET
    ensures Behind(st, frames, Shelved(st, frames), i, |messages[i].Packet()|)
  {
    hide Passes, ShownAll, ShowsMessage, HeardBytes, Crc, Tolerable, StartsLow, EnqueueAll, Behind, Ledger, Shelf.Drain;
    var n, front := |frames| - 1, frames[..|frames| - 1];
    forall j: nat | j + 1 < n
      ensures Separated(st, front, j) <==> Separated(st, frames, j)
    {
      SeparatedInFront(st, frames, j);
    }
    if forall j: nat | j + 1 < n :: Separated(st, front, j) {
      i := n - 1;
      PacketFits(messages[i]);
      FirstPileUp(st, frames, messages);
    } else {
      var k := Passes(st, frames, n);
      i := PiledUp(st, front, messages[..n]);
      ShelvedLedger(st, front);
      BehindDrained(st, front, Shelved(st, front), k, i, |messages[i].Packet()|);
      LedgerDrained(st, front, Shelved(st, front), k);
      BehindPut(st, frames, Shelved(st, front).Drained(k), i, |messages[i].Packet()|);
    }
  }

  lemma FirstPileUp(st: Station, frames: seq<Sent>, messages: seq<Message>)
    requires st.rx.Valid() && st.rx.asm.queue == [] && st.rx.packetMode && |frames| > 1 && Carry(frames, messages)
    requires var n := |frames| - 1;
             !Separated(st, frames, n - 1) && forall j: nat | j + 1 < n :: Separated(st, frames[..n], j)
    ensures var i := |frames| - 2; Behind(st, frames, Shelved(st, frames), i, |messages[i].Packet()|)
  {
    hide Passes, ShownAll, ShowsMessage, HeardBytes, Crc, Tolerable, StartsLow, EnqueueAll, AllBytes, Shipped;
    var n, front := |frames| - 1, frames[..|frames| - 1];
    ShownOneByOne(st, front, messages[..n]);
    PacketFits(messages[n - 1]);
    PacketFits(messages[n]);
    EnqueueAllFits(HeardEach(front)[n - 1], HeardBytes(frames[n].bytes));
  }

  lemma DeliveryAsLong(d: Delivery, m: Message)
    requires m.Valid() && ShowsMessage(d, m) && Delivers(d, d.bytes, true)
    ensures |d.bytes| >= |m.Packet()|
  {
    hide Crc;
  }

  /** As many bytes have been shown as the packets have, at least. */
  lemma {:induction false} ShippedAsLong(inbox: seq<Delivery>, before: seq<Delivery>, frames: seq<Sent>,
                                         messages: seq<Message>, i: nat)
    requires Carry(frames, messages) && ShownInOrder(inbox, before, messages) && i < |frames|
    requires forall m: nat | |before| <= m < |inbox| :: Delivers(inbox[m], inbox[m].bytes, true)
    ensures |Shipped(inbox)| >= |Shipped(before)| + |AllBytes(frames)|
    ensures |inbox[|before| + i].bytes| > |messages[i].Packet()| ==>
              |Shipped(inbox)| > |Shipped(before)| + |AllBytes(frames)|
  {
    hide Crc, ShowsMessage, Delivers, Tolerable, Message.Packet;
    var n, front := |frames| - 1, inbox[..|inbox| - 1];
    DeliveryAsLong(inbox[|before| + n], messages[n]);
    if n == 0 {
      assert front == before && AllBytes(frames[..0]) == [];
    } else {
      assert front[..|before|] == before;
      forall m: nat | m < n
        ensures ShowsMessage(front[|before| + m], messages[..n][m])
      {
        assert front[|before| + m] == inbox[|before| + m];
      }
      ShippedAsLong(front, before, frames[..n], messages[..n], if i < n then i else 0);
    }
  }

  lemma NotBehind(st: Station, frames: seq<Sent>, messages: seq<Message>, s: Shelf, i: nat)
    requires st.rx.packetMode && st.rx.asm.queue == [] && Carry(frames, messages) && i < |frames|
    requires Behind(st, frames, s, i, |messages[i].Packet()|) && Ledger(st, frames, s.desk.inbox, s.ring)
    ensures !ShownInOrder(s.desk.inbox, st.rx.inbox, messages)
  {
    hide Shipped, AllBytes, Delivers, Message.Packet, ShowsMessage, Tolerable;
    if ShownInOrder(s.desk.inbox, st.rx.inbox, messages) {
      ShippedAsLong(s.desk.inbox, st.rx.inbox, frames, messages, i);
    }
  }

  /** Any number of packets sent one after the other, whatever piles up or is lost in the ring: at any time
      after the last of them they have all been shown, each by itself, whole and in order, exactly when
      between each and the next, and after the last, a main-loop pass has found the monitor idle. */
  lemma PacketsShownWhen(st: Station, frames: seq<Sent>, messages: seq<Message>, q: seq<Quiet>)
    requires Ready(st) && st.rx.asm.queue == [] && st.rx.packetMode && frames != [] && Carry(frames, messages)
    ensures var high := Last(st, frames);
            ShownInOrder(Settle(high, q).rx.inbox, st.rx.inbox, messages)
            <==> (forall i: nat | i + 1 < |frames| :: Separated(st, frames, i)) && IdlePasses(high, q) > 0
  {
    hide Settle, Last, Passes, ShownAll, ShowsMessage, Shown, Crc, Tolerable, Shelved, Shelf.Drained, IdlePasses,
         Behind, Ledger, Busy;
    var s, k := Shelved(st, frames), IdlePasses(Last(st, frames), q);
    FramesShown(st, frames, q);
    if forall i: nat | i + 1 < |frames| :: Separated(st, frames, i) {
      ShownIfDrained(st, frames, messages, k);
    } else {
      var i := PiledUp(st, frames, messages);
      ShelvedLedger(st, frames);
      BehindDrained(st, frames, s, k, i, |messages[i].Packet()|);
      LedgerDrained(st, frames, s, k);
      NotBehind(st, frames, messages, s.Drained(k), i);
    }
  }

  lemma ShownIfDrained(st: Station, frames: seq<Sent>, messages: seq<Message>, k: nat)
    requires st.rx.Valid() && st.rx.asm.queue == [] && st.rx.packetMode && frames != [] && Carry(frames, messages)
    requires forall i: nat | i + 1 < |frames| :: Separated(st, frames, i)
    ensures ShownInOrder(Shelved(st, frames).Drained(k).desk.inbox, st.rx.inbox, messages) <==> k > 0
  {
    hide Passes, ShownAll, ShowsMessage, Shown, Crc, Tolerable, Shelved, Shelf.Drained;
    PacketFits(messages[|frames| - 1]);
    ShownOneByOne(st, frames, messages);
    DrainedAtOnce(Shelved(st, frames), k);
    ShownPackets(st.rx, frames, messages);
    LastIsShown(st.rx, HeardEach(frames));
  }

  lemma LastIsShown(desk: Rx, batches: seq<seq<Byte>>)
    requires desk.Valid() && batches != [] && AllFit(batches) && AllFit(batches[..|batches| - 1])
    ensures var n := |batches| - 1; ShownAll(desk, batches) == ShownIf(ShownAll(desk, batches[..n]), batches[n])
  {
  }

  /** So, when the line has been quiet for the monitor's timeout and one more pass has run: exactly when
      an idle pass falls between each packet and the next. */
  lemma PacketsShownIffSeparated(st: Station, frames: seq<Sent>, messages: seq<Message>)
    requires Ready(st) && st.rx.asm.queue == [] && st.rx.packetMode && frames != [] && Carry(frames, messages)
    requires Duration(frames[|frames| - 1].gap) >= SYSTICK_TICKS
    ensures var st' := QuietStep(Frames(st, frames), Pass);
            && Ready(st') && (AllFit(Batched(st, frames).All()) ==> st'.rx.asm.queue == [])
            && (ShownInOrder(st'.rx.inbox, st.rx.inbox, messages)
                <==> forall i: nat | i + 1 < |frames| :: Separated(st, frames, i))
  {
    hide QuietStep, Last, Settle, Frames, Batched, Passes, AllFit, ShowsMessage, Sent.Valid, Busy, IdlePasses, Crc,
         ShownAll;
    var gap := frames[|frames| - 1].gap;
    FramesHeld(st, frames);
    LastThenGap(st, frames);
    QuietPass(Last(st, frames), gap);
    PacketsShownWhen(st, frames, messages, gap + [Pass]);
    if AllFit(Batched(st, frames).All()) {
      BatchesShown(st, frames);
    }
  }

  /** A packet with more behind it in the same drain: the last byte is taken for its checksum. */
  lemma ShownTogether(r: Rx, m: Message, rest: seq<Byte>, fcs: Byte)
    requires r.Valid() && r.packetMode && m.Valid() && |m.Packet() + rest + [fcs]| <= SIZEOF_PACKET
    ensures var s := Shown(r, m.Packet() + rest + [fcs]);
            && ShowsOneMore(s, r)
            && var d := s.inbox[|r.inbox|];
               && d.Parcel? && d.bytes == m.Packet() + rest + [fcs]
               && (d.accepted <==> fcs == Crc(m.text)) && (d.accepted ==> ShowsMessage(d, m))
  {
    hide Crc, Parsed, Buffered;
    DrainedTogether(r.pkt, m.src, m.dest, m.text, rest, fcs);
  }

  lemma {:induction false} CarriedBytes(frames: seq<Sent>, messages: seq<Message>)
    requires Carry(frames, messages) && frames != []
    ensures AllHeard(frames) == AllBytes(frames)
    ensures messages[0].Packet() <= AllBytes(frames)
    ensures var n := |frames| - 1; AllBytes(frames)[|AllBytes(frames)| - 1] == Crc(messages[n].text)
    ensures |frames| > 1 ==> |AllBytes(frames)| > |messages[0].Packet()|
  {
    hide HeardBytes, StartsLow, Crc, Tolerable;
    var n := |frames| - 1;
    PacketHeardExactly(messages[n]);
    if n > 0 {
      CarriedBytes(frames[..n], messages[..n]);
    } else {
      assert AllBytes(frames[..0]) == [] && AllHeard(frames[..0]) == [];
    }
  }

  /** Without an idle pass between them, the first delivery of two or more packets has all their bytes, or
      the 262 that fit one drain. It is taken for the first packet with its own last byte as checksum,
      however the packets behind may look; and if it has all the bytes, it is the only one. */
  lemma PacketsShownTogether(st: Station, frames: seq<Sent>, messages: seq<Message>, q: seq<Quiet>)
    requires Ready(st) && st.rx.asm.queue == [] && st.rx.packetMode && |frames| > 1 && Carry(frames, messages)
    requires |AllBytes(frames)| < BUF_SIZE && forall i: nat | i + 1 < |frames| :: !Separated(st, frames, i)
    requires IdlePasses(Last(st, frames), q) > 0
    ensures var st', all, n := Settle(Last(st, frames), q), AllBytes(frames), |st.rx.inbox|;
            && Ready(st') && st.rx.inbox <= st'.rx.inbox && |st'.rx.inbox| > n
            && var d, first := st'.rx.inbox[n], Shelf(st.rx, all).Portion();
               && d.Parcel? && d.bytes == first
               && (d.accepted <==> Crc(messages[0].text) == first[|first| - 1])
               && (d.accepted ==> ShowsMessage(d, messages[0]))
               && (|all| <= SIZEOF_PACKET ==>
                     && |st'.rx.inbox| == n + 1 && st'.rx.asm.queue == []
                     && first[|first| - 1] == Crc(messages[|messages| - 1].text))
  {
    hide Settle, Last, Passes, AllBytes, AllHeard, Shown, ShowsMessage, Crc, Tolerable, Message.Packet, IdlePasses,
         Shelved, Busy;
    var s, k := Shelf(st.rx, AllBytes(frames)), IdlePasses(Last(st, frames), q);
    CarriedBytes(frames, messages);
    ShelvedTogether(st, frames);
    FramesHeld(st, frames);
    FramesShown(st, frames, q);
    ReadyAfterIdlePass(Last(st, frames), q);
    FirstDelivery(s, messages[0], k);
    if |s.ring| <= SIZEOF_PACKET {
      DrainedAtOnce(s, k);
    }
  }

  lemma FirstDelivery(s: Shelf, m: Message, k: nat)
    requires s.Valid() && s.desk.packetMode && m.Valid() && m.Packet() <= s.ring && |s.ring| > |m.Packet()| && k > 0
    ensures var inbox, n, first := s.Drained(k).desk.inbox, |s.desk.inbox|, s.Portion();
            && s.desk.inbox <= inbox && |inbox| > n && first != []
            && ShowsOneMore(Shown(s.desk, first), s.desk) && Shown(s.desk, first).inbox <= inbox
            && var d := inbox[n];
               && d.Parcel? && d.bytes == first
               && (d.accepted <==> Crc(m.text) == first[|first| - 1]) && (d.accepted ==> ShowsMessage(d, m))
  {
    hide Shown, ShowsMessage, Crc, Message.Packet, Shelf.Drained;
    var first, size := s.Portion(), |m.Packet()|;
    PacketFits(m);
    DrainedInbox(s, k);
    assert first == m.Packet() + first[size..|first| - 1] + [first[|first| - 1]];
    ShownTogether(s.desk, m, first[size..|first| - 1], first[|first| - 1]);
  }

  /** Four packets of 254 bytes without an idle pass between them overflow the ring: all that is ever shown of
      them is the last 16 bytes of the last one, as one delivery. */
  lemma FourLongPackets(st: Station, frames: seq<Sent>, messages: seq<Message>, q: seq<Quiet>)
    requires Ready(st) && st.rx.asm.queue == [] && st.rx.packetMode && |frames| == 4 && Carry(frames, messages)
    requires forall i | 0 <= i < 4 :: |messages[i].text| == 254
    requires IdlePasses(Last(st, frames), q) > 0 && forall i: nat | i + 1 < 4 :: !Separated(st, frames, i)
    ensures var r := Settle(Last(st, frames), q).rx;
            && ShowsOneMore(r, st.rx) && r.asm.queue == []
            && r.inbox[|st.rx.inbox|].bytes == messages[3].Packet()[245..]
  {
    hide Settle, Last, Passes, AllBytes, AllHeard, Shown, Crc, Tolerable, Message.Packet, IdlePasses, Separated, Busy;
    CarriedBytes(frames, messages);
    FourTogether(frames, messages);
    var tail := messages[3].Packet()[245..];
    OverflowShown(st, frames, 1, q);
    DrainedAtOnce(Shelf(st.rx, tail), IdlePasses(Last(st, frames), q));
    ShownDelivers(st.rx, tail);
  }

  lemma FourTogether(frames: seq<Sent>, messages: seq<Message>)
    requires |frames| == 4 && Carry(frames, messages) && forall i | 0 <= i < 4 :: |messages[i].text| == 254
    ensures |messages[3].Packet()| == 261
    ensures |AllBytes(frames)| == 1044 && AllBytes(frames)[1028..] == messages[3].Packet()[245..]
  {
    hide Crc, Sent.Valid, AllBytes;
    assert forall i | 0 <= i < 4 :: |frames[i].bytes| == 261;
    LengthOfAll(frames[..3]);
    AllBytesSnoc(frames);
    var front := AllBytes(frames[..3]);
    assert (front + frames[3].bytes)[1028..] == frames[3].bytes[245..];
  }

  lemma AllBytesSnoc(frames: seq<Sent>)
    requires frames != []
    ensures AllBytes(frames) == AllBytes(frames[..|frames| - 1]) + frames[|frames| - 1].bytes
  {
  }

  lemma {:induction false} LengthOfAll(frames: seq<Sent>)
    requires forall i | 0 <= i < |frames| :: |frames[i].bytes| == 261
    ensures |AllBytes(frames)| == 261 * |frames|
  {
    if frames != [] {
      LengthOfAll(frames[..|frames| - 1]);
    }
  }
}
