# Network card: verified model

This project models the data path of a microcontroller network card and proves what it is for:
a line typed at one card appears on the other, whole, once and in order, although the receiving
card knows the sender only through edges on one wire and a clock of its own.

## What is modelled

- `bytes.dfy`: bytes and their bits, most significant bit first, as the line carries them.
- `ringbuffer.dfy` (`ringbuffer.c`): the circular buffer, its exact queue (including what a put into a
  full buffer does), and FIFO refinement over runs.
- `crc.dfy`, `division.dfy`, `packet.dfy` (`packet_header.c`): the table-driven CRC-8, its meaning as
  polynomial division over GF(2), what it detects, and the building and parsing of packets.
- `manchester.dfy`, `transmitter.dfy` (`transmitter.c`): the line code, and the transmitter as a class
  whose methods are the timer interrupt and the main routine.
- `transmission_runs.dfy`: the transmitter over whole runs of interrupts, passes, monitor reports and
  typed characters.
- `monitor.dfy` (`monitor.c`): the line-state machine and its timeout.
- `receiver.dfy` (`receiver.c`): the edge interrupt, the half-bit timeout, the drain and the display.
- `link.dfy`: a listening station, monitor and receiver together, driven by edges, time and main-loop
  passes: what it decodes, at which timing, and how it recovers.
- `limits.dfy`: where decoding stops, outside the tolerance and in the middle of a byte.
- `deliveries.dfy`: what such a station shows: of one frame, and of any number of frames whatever piles
  up in its ring.
- `collisions.dfy`: what it shows of anything that ends in a collision.
- `tears.dfy`: what it shows of a packet during which the line is pulled low.
- `messages.dfy`: packets as a listener shows them, one by one, piled up, and taken for one another.
- `network.dfy`: a sending card with its pin looped back and a listening card: packets and text from end
  to end.
- `starts.dfy`: when a card starts to send.
- `retries.dfy`: messages sent again after collisions, with both cards on one line.
- `sessions.dfy`: where cards start, and whole sessions of typed lines.
- `tales.dfy`, `endings.dfy`: runs of both cards told step by step: one in which a message is sent again,
  one in which it appears twice, one in which it never appears.

Every step function of the state machines (`OnTim2`, `TxMain`, `RxOnEdge`, `RxMain`, `OnEdge`, ...) is
what the corresponding method of a class is proved to do to its fields, arrays and buffers; the results
over runs are about the step functions.

The constants are the code's: 1028 ring slots, 255 message bytes, 8000 ticks a half-bit, 8107 ticks for
the half-bit timeout, 16 * 1110 ticks for the monitor's timeout.

How the hardware is seen:

- Each interrupt handler, and each pass of a main routine, is one atomic step.
- A timer is a counter that fires once when its limit is reached, and only while it runs. Time between
  two edges may be cut up in any way, with main-loop passes at any of the cuts.
- A change of the line's level raises the edge interrupt at once, with the new level on the pin.
- The random number of the back-off and the characters from the UART are parameters. A pass that would
  wait for a character is a step that has one.
- Runs and sessions start when the transmission timer's first interrupt has raised the line and the line
  has been quiet once; `PowerUp` and `PowerUpSettles` lead there from initialisation.

Where the code differs from its comments or from what one may expect, the model follows the code, and
the difference is stated:

- A bit is sent as its complement, then itself; the comment above `encodeManchester` has it the other
  way round. This is the convention of section 7.3.1.1 of IEEE 802.3.
- `ph_parse` checks the checksum even when the flag says there is none, so a packet built without one
  is accepted only if its checksum happens to be 0xAA (`CreateParse`, `UncheckedPacketRefused`).
- A frame whose first bit is 1 is misheard: its leading ones are received as zeros, the rest is right
  (`HeardExactly`, `FrameDecoded`). Packets start with 0x55, so only plain-text mode can meet this: a
  text arrives as it was sent exactly when its first character is below 128 (`TextEndToEnd`).
- A text of 254 characters is sent without a terminator, and the receiver writes none: what is printed
  then depends on what an earlier drain left in the buffer (`TextPrinted`). Two shorter texts drained
  together are enough to make it wrong (`StaleText`).
- The ring keeps no packet boundaries: any number of packets are shown each by itself exactly when a
  main-loop pass finds the line idle between each and the next, and after the last, whatever piles up
  or overflows (`PacketsShownWhen`). Without any pass between them, if they fit in the ring, the first
  delivery is the first 262 bytes, or all of them, taken for the first packet, and is accepted exactly
  when its last byte equals that packet's checksum (`PacketsShownTogether`). The session theorem lets
  the listener's main loop run once after every frame.
- A frame that comes while a byte is in progress, after a torn one and without an idle pass, is shifted by
  the bits in progress. A packet is then lost; it is decoded exactly when no byte is in progress at its
  first edge (`PacketNeedsByteBoundary`). For other frames the condition is that the shifted bits are
  their own, as with zeros behind zeros (`ShiftedFrame`, `ShiftedZeros`).
- A collision is meant to drop what was partially received. The pass that finds it empties the ring, but
  keeps the bits of the byte in progress, and the release of the line is then sampled as one more bit.
  With seven bits in progress that completes a byte, which is shown once the line is idle; otherwise
  nothing is (`AfterCollision`, `CollisionOutcome`; `CollisionLeaks` is such a run). If no pass falls
  between the collision and the release, everything in the ring is shown (`UnseenCollision`).
- A message can appear twice. If the line is pulled low when the listener has all of a packet but its last
  bit, and no pass comes before the release, the release is taken for that bit; if the checksum is odd the
  packet is accepted (`TornShownIff`). The sender has given up meanwhile, and sends it again
  (`MessageAppearsTwice`).
- A message can be lost. The sender tests for completion before it tests for a collision, so it does not see
  one that begins with the last half-bits; the listener's pass that finds it drops the packet
  (`CompletedButLost`).
- A put into a full ring empties it, so of any number of bytes only those behind the last multiple of 1028
  remain (`PutsExactly`); of four long packets without a pass between them the last 16 bytes are shown
  (`FourLongPackets`).
- What is typed while an ended line waits for the bus joins that line, further carriage returns
  notwithstanding, and so does the character read by the pass that launches it (`BusyPasses`, `PassEnters`).
- In text mode the receiver writes its terminator one place too far: one old byte is printed behind a text
  that came without a NUL (`TextPrintedExactly`).
- A refused packet is displayed too: with the fields of the bytes as far as they are there, and those of an
  earlier packet otherwise (`ParseLeaves`, `ShownPacketExactly`).
- A typed line is cut after 254 bytes, and one that starts with a NUL is dropped: the string it is
  compared with begins with a NUL and so is empty (`CarriageReturn`).

The CRC generator is x^8 + x^2 + x + 1 with initial value 0: that of section 4.3.2 of ITU-T I.432.1,
without its final addition of 0x55.

## Model

| member | source | states |
|---|---|---|
| `RingBuffers.RingBuffer.Put` | NetworkCard/src/ringbuffer.c:5-11 | the byte joins the end of the queue; with 1027 bytes queued the queue becomes empty |
| `RingBuffers.RingBuffer.Get` | NetworkCard/src/ringbuffer.c:13-20 | from a non-empty queue, the oldest byte is returned and removed |
| `RingBuffers.RingBuffer.Peek` | NetworkCard/src/ringbuffer.c:22-25 | the oldest byte, left in place |
| `RingBuffers.RingBuffer.HasElement` | NetworkCard/src/ringbuffer.c:34-39 | true exactly when the queue is not empty |
| `RingBuffers.RingRefinesQueue` | NetworkCard/src/ringbuffer.c:5-20 | any sequence of puts and gets, across any wraps, returns and leaves what a FIFO queue does, while at most 1027 bytes are held |
| `RingBuffers.PutsExactly` | NetworkCard/src/ringbuffer.c:5-11 | any number of puts, overflows included: of all bytes, old and new, those behind the last multiple of 1028 remain, in order |
| `Packets.ComputeCrc8Byte` | NetworkCard/src/packet_header.c:110-125 | eight passes of the shift-and-feedback loop, for any polynomial |
| `Packets.PacketCodec.ComputeLookupTable` | NetworkCard/src/packet_header.c:127-131 | every table entry is the register after shifting that byte out |
| `Packets.PacketCodec.ComputeCrc8` | NetworkCard/src/packet_header.c:96-103 | the table-driven loop computes the checksum of the message |
| `PolynomialDivision.CrcIsRemainder` | NetworkCard/src/packet_header.c:96-131 | a byte is a remainder of message(x) * x^8 divided by x^8 + x^2 + x + 1 over GF(2) exactly when it is the checksum, for messages of any length |
| `PolynomialDivision.QuotientUnique` | NetworkCard/src/packet_header.c:11 | the division has one quotient and one remainder of degree below 8 |
| `PolynomialDivision.Divide` | NetworkCard/src/packet_header.c:110-125 | the bits shifted out of the register are a quotient, and what stays is the remainder |
| `Crc8.CrcIsSerial` | NetworkCard/src/packet_header.c:96-125 | the byte-wise checksum is the bit-serial register run over all message bits |
| `Crc8.SameCrcIff` | NetworkCard/src/packet_header.c:96-103 | two messages have the same checksum exactly when their bits leave the same register |
| `Crc8.CodewordIffCrc` | NetworkCard/src/packet_header.c:84-87 | message and byte together leave the register at zero exactly when the byte is the message's checksum |
| `Crc8.CrcLinear` | NetworkCard/src/packet_header.c:96-103 | the checksum of the XOR of two equally long messages is the XOR of their checksums |
| `Crc8.BurstDetected` | NetworkCard/src/packet_header.c:96-125 | different bit strings that differ only within eight consecutive positions leave different registers |
| `Crc8.CrcKeepsParity` | NetworkCard/src/packet_header.c:96-125 | the XOR of the checksum's bits is the XOR of all message bits |
| `Crc8.OddFlipsDetected` | NetworkCard/src/packet_header.c:96-125 | an odd number of flipped bits always changes the register |
| `Crc8.ReturnsIff` | NetworkCard/src/packet_header.c:110-125 | n shifts bring the top bit back to the top exactly when 127 divides n |
| `Crc8.TwoFlipsDetected` | NetworkCard/src/packet_header.c:96-125 | two flipped bits go unnoticed exactly when they are a multiple of 127 bits apart |
| `Packets.PacketCodec.Create` | NetworkCard/src/packet_header.c:34-46 | every field of the packet is set, the message array beyond the message is left alone |
| `Packets.PacketCodec.Parse` | NetworkCard/src/packet_header.c:58-90 | which fields are written on each way out, and that the verdict is true exactly for the acceptable buffers |
| `Packets.ParseIsExact` | NetworkCard/src/packet_header.c:58-90 | acceptance if and only if size >= 8, size >= 7 + length, the last byte is the message's checksum, and the flag is set or the last byte is 0xAA; an accepted packet holds the buffer's fields |
| `Packets.ParseLeaves` | NetworkCard/src/packet_header.c:58-90 | what a packet holds after any buffer, accepted or refused: nothing new below 8 bytes; else the header; the message if it is all there; then the last byte as checksum, right or wrong, unless the flag is off and it is not 0xAA |
| `Packets.CreateParse` | NetworkCard/src/packet_header.c:34-90 | what ph_create made is parsed back exactly when there is a message and the checksum is used or happens to be 0xAA; then with the same fields |
| `Packets.UncheckedPacketRefused` | NetworkCard/src/packet_header.c:78-88 | a message sent without a checksum that the parser refuses |
| `Packets.DrainedTogether` | NetworkCard/src/packet_header.c:58-90 | a packet with any bytes behind it in the buffer is parsed as that packet with the last byte as its checksum, and accepted exactly when the two checksums are equal |
| `Packets.BurstRefused` | NetworkCard/src/packet_header.c:78-88 | an accepted packet damaged within eight consecutive bits of message and checksum is refused |
| `Packets.OddFlipsRefused` | NetworkCard/src/packet_header.c:78-88 | an accepted packet with an odd number of flipped bits in message and checksum is refused |
| `Packets.TwoFlipsRefused` | NetworkCard/src/packet_header.c:78-88 | with two flipped bits a checksummed packet still passes exactly when they are a multiple of 127 bits apart |
| `Manchester.EncodeManchester` | NetworkCard/src/transmitter.c:282-290 | the symbol's bits in sending order are each data bit's complement and the bit, most significant first |
| `Manchester.EncodedBits` | NetworkCard/src/transmitter.c:251-256 | the buffered bytes, bit by bit, are the half-bits of the message's bits |
| `Manchester.LineIffPairsDiffer` | NetworkCard/src/transmitter.c:282-290 | a half-bit stream is some message's stream exactly when both halves of every pair differ |
| `Manchester.StreamProperties` | NetworkCard/src/transmitter.c:251-290 | no three equal half-bits in a row even across bytes, as many ones as zeros, and no two messages with the same stream |
| `Transmitters.Transmitter.TransmitByte` | NetworkCard/src/transmitter.c:251-256 | the two symbol bytes join the buffer behind those of the bytes before |
| `Transmitters.Transmitter.TransmitMessage` | NetworkCard/src/transmitter.c:262-272 | the buffer holds the encoding of the packet's bytes in order, the message at its own length |
| `Transmitters.Transmitter.ToggleRetransmission` | NetworkCard/src/transmitter.c:169-189 | the timer is stopped and set either to a random back-off in milliseconds or to the half-bit rate |
| `Transmitters.BackOff` | NetworkCard/src/transmitter.c:176-177 | the delay is 5 * (rand mod 200) milliseconds, so at most 995 |
| `Transmitters.Transmitter.StartTransmission` | NetworkCard/src/transmitter.c:296-300 | transmission on, timer running, all else unchanged |
| `Transmitters.Transmitter.StopTransmission` | NetworkCard/src/transmitter.c:305-309 | transmission off, line released high, timer stopped, all else unchanged |
| `Transmitters.Transmitter.DriveHalfBit` | NetworkCard/src/transmitter.c:230-244 | the bit under the cursors goes to the pin and the cursors advance |
| `Transmitters.Transmitter.Tim2Handler` | NetworkCard/src/transmitter.c:195-246 | the new state in each of the four cases, completion before collision |
| `Transmitters.Transmitter.MainRoutineUpdate` | NetworkCard/src/transmitter.c:66-142 | the new state in each branch: collect, launch, start a retransmission, or nothing |
| `Transmitters.Transmitter.ReadCharacter` | NetworkCard/src/transmitter.c:81-100 | a carriage return ends or discards the line, any other character is stored while there is room |
| `Transmitters.Transmitter.Launch` | NetworkCard/src/transmitter.c:102-134 | the collected message, as packet or text, is encoded into the emptied buffer and sending starts |
| `TransmissionRuns.LaunchSendsPayload` | NetworkCard/src/transmitter.c:110-133 | what is buffered is the encoding of header, message and checksum (or of the text), unaffected by the terminator written for display |
| `TransmissionRuns.InvariantKept` | NetworkCard/src/transmitter.c:76-246 | every step keeps: put <= 522, cursors in range and on a byte boundary at the end, the timer running exactly while transmitting, back-off only between attempts with both cursors zero, currBit zero when idle and complete, half-bit rate whenever bits are driven, line released when idle |
| `TransmissionRuns.RunsAreSound` | NetworkCard/src/transmitter.c:66-246 | over every run: aborted attempts drove a proper prefix, completed ones the whole stream; each attempt sends the first message not yet completed; the buffer is that message's until it completes |
| `TransmissionRuns.DeliveredInOrder` | NetworkCard/src/transmitter.c:136-141 | the frames that went out whole are the accepted messages, in order, none twice and none skipped |
| `TransmissionRuns.RunDelivers` | NetworkCard/src/transmitter.c:66-246 | from the fresh transmitter, over any run: the frames gone out whole encode exactly the messages accepted, in order, less the one still engaged |
| `TransmissionRuns.RetryLoads` | NetworkCard/src/transmitter.c:136-205 | after an aborted attempt, an idle pass and the end of the back-off put the same frame back to its start |
| `TransmissionRuns.CharacterCollected` | NetworkCard/src/transmitter.c:81-100 | whatever the monitor says, characters collect up to 254 |
| `TransmissionRuns.CarriageReturn` | NetworkCard/src/transmitter.c:83-134 | on an idle line, an empty or NUL-led line is dropped, any other starts to be sent, cut to 254 bytes |
| `TransmissionRuns.StartsIffIdle` | NetworkCard/src/transmitter.c:76-141 | a pass of a transmitter that is not sending starts to send if and only if the monitor is idle and an attempt was given up or a message pends |
| `TransmissionRuns.RetryStarts` | NetworkCard/src/transmitter.c:137-189 | after an attempt was given up no character is read; an idle pass puts the cursors back and sets the timer to the random delay, any other pass does nothing |
| `TransmissionRuns.PassEnters` | NetworkCard/src/transmitter.c:80-134 | a pass of a transmitter with nothing engaged, whatever the monitor says: the character joins the line, even an ended one; an ended line is sent as it then is if the monitor is idle, and waits otherwise |
| `TransmissionRuns.BusyPasses` | NetworkCard/src/transmitter.c:80-103 | over any number of passes that do not find the line idle, everything typed makes one waiting line |
| `TransmissionRuns.EchoPrinted` | NetworkCard/src/transmitter.c:110-117 | the sender's own display of a packet: its fields, and the message exactly under the conditions of `PacketPrinted` |
| `Starts.StartsAfterQuiet` | NetworkCard/src/transmitter.c:103-141 | over any run of both cards on one line that anybody may drive: a pass starts to send if and only if the last edge has left the card's line high, 17760 ticks have passed since, and an attempt was given up or a message pends |
| `Monitors.Monitor.EdgeInterrupt` | NetworkCard/src/monitor.c:151-158 | busy, level noted, timeout restarted at 16 * 1110 ticks |
| `Monitors.Monitor.ResetTimer` | NetworkCard/src/monitor.c:101-113 | the timer runs from zero with the given limit |
| `Monitors.Monitor.SysTickHandler` | NetworkCard/src/monitor.c:118-133 | timer off; idle on a high line, collision on a low one |
| `Monitors.TimeoutAfterEdge` | NetworkCard/src/monitor.c:101-158 | after an edge the monitor is busy for 17760 ticks, and from then on idle on a high line and in collision on a low one |
| `Link.TimeoutAtStation` | NetworkCard/src/monitor.c:101-158 | so at a station, whatever passes run meanwhile |
| `Receivers.Receiver.ExtiHandler` | NetworkCard/src/receiver.c:104-157 | the new state of monitor and receiver after an edge, sampled or not |
| `Receivers.Receiver.SampleBit` | NetworkCard/src/receiver.c:126-138 | the bit enters the byte at its place; the eighth puts the byte into the ring |
| `Receivers.Receiver.Tim4Handler` | NetworkCard/src/receiver.c:161-172 | the next edge will be sampled, the timer stops |
| `Receivers.Receiver.MainRoutineUpdate` | NetworkCard/src/receiver.c:51-102 | the new state after reset, collision drop, drain and display |
| `Receivers.Receiver.DrainRing` | NetworkCard/src/receiver.c:79-84 | up to 262 bytes move from the ring to the buffer in order, the rest stay |
| `Receivers.Receiver.Show` | NetworkCard/src/receiver.c:86-100 | the drained bytes are parsed and displayed with the parser's verdict; or, as text, the buffer with its terminator is printed up to the first NUL |
| `Receivers.HalfBitTimeout` | NetworkCard/src/receiver.c:117-172 | 8107 ticks after a sampled edge the next edge is one to sample; an edge between bits stops the timeout and takes no bit |
| `Receivers.CollisionPass` | NetworkCard/src/receiver.c:68-84 | a pass that finds a collision drops the ring if a reception is on, and drains it otherwise |
| `Receivers.TextPrintedExactly` | NetworkCard/src/receiver.c:96-100 | what is printed of drained text without a NUL: the text, then one old byte unless it is a NUL; of 254 bytes or more, whatever was left behind them |
| `Link.EdgeSampledIffTimedOut` | NetworkCard/src/receiver.c:117-171 | the next edge after a sampled bit is sampled exactly when 8107 ticks have passed: the origin of the tolerance |
| `Link.SettleReceiving` | NetworkCard/src/receiver.c:58-79 | main-loop passes during a frame do nothing: BUSY blocks the reset, currentlyReceiving the drain |
| `Link.SettleResting` | NetworkCard/src/receiver.c:58-84 | between frames nothing decoded is lost and no bit is made up, whatever passes run |
| `Link.TakeBytes` | NetworkCard/src/receiver.c:126-138 | the bits of a byte string enter the ring as exactly these bytes, nothing left over |
| `Link.HalfBitStep` | NetworkCard/src/receiver.c:104-171 | one more half-bit of any length from 4054 to 8106 ticks keeps the receiver in step with the frame, leading ones included |
| `Link.FollowFrame` | NetworkCard/src/receiver.c:104-171 | so do any number of half-bits, each of its own length, with passes anywhere |
| `Link.HeardExactly` | NetworkCard/src/receiver.c:117-142 | what is heard equals what was sent exactly when the first bit is 0 |
| `Link.FrameDecoded` | NetworkCard/src/receiver.c:51-172 | line round trip with tolerance and interleaved passes: as many bytes as were sent, the same ones if and only if the first bit is 0; ready again after the half-bit timeout, the line's return to high adding nothing |
| `Link.FramesDecoded` | NetworkCard/src/receiver.c:117-171 | any sequence of frames of any bytes that fits in the ring decodes to what is heard of each, in order, without help from the main loop |
| `Link.AllHeardExactly` | NetworkCard/src/receiver.c:117-142 | that is their concatenation exactly when each starts with a 0 bit |
| `Link.Stabilises` | NetworkCard/src/receiver.c:58-84 | from any receiver state, one pass while the monitor is idle makes it ready, stale timeouts notwithstanding, and leaves in the ring at most what one drain cannot take |
| `Link.FrameAfterIdlePass` | NetworkCard/src/receiver.c:58-172 | so the next frame that fits decodes to what is heard of it, exactly if it starts with a 0 bit |
| `Link.RecoversOnceQuiet` | NetworkCard/src/receiver.c:58-84 | from any receiver state, collision included, a line gone or kept high and quiet for the monitor's timeout and one pass make the station ready |
| `Link.FrameAfterRecovery` | NetworkCard/src/receiver.c:58-172 | so after any disturbance the next frame that fits decodes to what is heard of it, exactly if it starts with a 0 bit |
| `Limits.ToleranceIsTight` | NetworkCard/src/receiver.c:104-171 | half-bits of one length decode every frame that starts with a 0 bit if and only if that length is from 4054 to 8106 ticks |
| `Limits.TooSlow` | NetworkCard/src/receiver.c:117-171 | from 8107 ticks on, a zero byte is heard as two bytes 0x55 |
| `Limits.TooFast` | NetworkCard/src/receiver.c:117-155 | up to 4053 ticks, the synch byte is not heard at all |
| `Limits.ShiftedFrame` | NetworkCard/src/receiver.c:117-142 | a frame that meets a byte in progress enters the ring shifted by its bits, and exactly if and only if the shifted bits are its own |
| `Limits.PacketNeedsByteBoundary` | NetworkCard/src/receiver.c:117-142 | a packet that meets a station otherwise ready is decoded exactly if and only if no byte is in progress at its first edge |
| `Deliveries.SettleDrains` | NetworkCard/src/receiver.c:58-84 | while the line stays high, every pass that finds the monitor idle moves up to 262 bytes from the ring to one delivery, and nothing else touches either, for any content of the ring |
| `Deliveries.PendingSettles` | NetworkCard/src/receiver.c:58-101 | what fits one drain is shown, all of it in one delivery, by the first pass that finds the monitor idle, and not before |
| `Deliveries.FrameDelivered` | NetworkCard/src/receiver.c:58-101 | a frame of any bytes that fits one drain is shown as one delivery of what is heard, never in part |
| `Deliveries.FramesShown` | NetworkCard/src/receiver.c:51-172 | after any number of frames of any bytes, with passes anywhere and any content of the ring before, overflows included: what is shown and what is in the ring is what the frames, joining the ring one by one, and the idle passes between and behind them make of it |
| `Deliveries.DeliveriesAreCut` | NetworkCard/src/receiver.c:79-101 | unless a frame overflows the ring: the deliveries and then the ring are exactly what was heard, in order; each delivery has 262 bytes or ends where a frame ends, and is accepted exactly if the parser would accept its bytes |
| `Deliveries.ShownPacketExactly` | NetworkCard/src/receiver.c:86-94 | the displayed packet for any drained bytes, accepted or refused: every byte of the message array and the checksum, with the terminator behind a length below 254 and what an earlier packet left |
| `Deliveries.OverflowShown` | NetworkCard/src/receiver.c:79-101 | any number of frames without an idle pass between them: all that is shown is drained from the bytes behind the last multiple of 1028 |
| `Deliveries.BatchesShown` | NetworkCard/src/receiver.c:58-101 | frames with no idle pass between them make one batch; if every batch fits one drain, each is shown as one delivery, in order, and nothing else |
| `Deliveries.AloneIffSeparated` | NetworkCard/src/receiver.c:58-84 | there are as many batches as frames, and they are the frames, exactly when an idle pass falls between each frame and the next |
| `Deliveries.TogetherUnlessSeparated` | NetworkCard/src/receiver.c:58-84 | without any idle pass between them all frames are one batch |
| `Collisions.ConsistentRun` | NetworkCard/src/receiver.c:104-172 | whatever the line does, the two timers agree, and in a collision the receiver is waiting for a bit edge, never for an edge between bits |
| `Collisions.NothingShownUnlessIdle` | NetworkCard/src/receiver.c:58-84 | whatever the line does and with any timing, what has arrived is not shown before a pass finds the monitor idle |
| `Collisions.CollisionDropsRing` | NetworkCard/src/receiver.c:68-77 | the pass that finds a collision empties the ring and shows nothing, but keeps the bits of the byte in progress |
| `Collisions.AfterCollision` | NetworkCard/src/receiver.c:58-142 | after that pass, the released line and quiet show nothing if and only if the byte in progress did not have seven bits; else exactly one delivery, of these bits and a 1 |
| `Collisions.CollisionOutcome` | NetworkCard/src/receiver.c:58-142 | the same over any run of edges, time and non-idle passes that ends in a collision |
| `Collisions.UnseenCollision` | NetworkCard/src/receiver.c:58-142 | when no pass falls between collision and release, all that is in the ring, with the completed byte if seven bits were in progress, is shown, 262 bytes for each idle pass; nothing exactly if there is nothing |
| `Collisions.CollisionLeaks` | NetworkCard/src/receiver.c:68-77 | a failing input: seven zero bits, a line held low until a pass finds the collision, and its release show the byte 1 |
| `Link.NoCollisionBefore` | NetworkCard/src/monitor.c:118-158 | only an edge ends a collision, so none at the end of a quiet stretch means none in it |
| `Network.SendingRun` | NetworkCard/src/transmitter.c:195-246 | the k-th interrupt of a sole sender drives the k-th half-bit, with main-loop passes anywhere |
| `Network.SoleSender` | NetworkCard/src/transmitter.c:195-246 | the monitor reports no collision at any point, the frame ends on the interrupt after 8 * put drives, and the monitor returns to idle |
| `Network.PinsAreTheFrame` | NetworkCard/src/transmitter.c:230-244 | the levels of the pin are the half-bits of the message's bits |
| `Messages.PacketHeard` | NetworkCard/src/receiver.c:51-172 | a listener with an empty ring shows the message of any packet it hears, of 1 to 254 bytes, once, accepted, with all its fields |
| `Messages.PacketPrinted` | NetworkCard/src/receiver.c:90-94 | what is printed of a packet's message is the message if and only if it has no NUL and is shorter than 254 or an earlier packet left a NUL behind it |
| `Messages.FourLongPackets` | NetworkCard/src/ringbuffer.c:5-11 | of four packets of 254 message bytes without an idle pass between them, all that is ever shown is one delivery of the last 16 bytes |
| `Network.EndToEnd` | NetworkCard/src/transmitter.c:110-290 | every message of 1 to 254 bytes is shown by the listener as one accepted packet with the same source, destination, length, message and checksum |
| `Network.TextPrinted` | NetworkCard/src/receiver.c:96-100 | what is printed of a text is the text if and only if its first character is below 128, it has no NUL, and it is shorter than 254 or the buffer has a NUL behind it |
| `Network.StaleText` | NetworkCard/src/receiver.c:79-100 | a failing run: two texts of 130 characters drained together, then any text of 254 characters, first character below 128: it arrives as it was sent, and something else is printed |
| `Network.TextEndToEnd` | NetworkCard/src/transmitter.c:125-134 | text mode: every text of 1 to 254 bytes gives one delivery, equal to what was sent if and only if the first character is below 128, and printed as in the row above |
| `Retries.RetriedMessageShown` | NetworkCard/src/transmitter.c:136-246 | after any run of the transmitter with any aborted attempts, the line quiet for the monitor's timeout, one pass at the sender and as many at the listener as its ring needs, the attempt that starts shows the message accepted last, once and whole, and leaves nothing to send |
| `Retries.SurviveScraps` | NetworkCard/src/receiver.c:58-142 | any number of disturbances that end in a collision found by a pass, each followed by quiet, show at most one byte each, never as an accepted packet, and leave the listener ready with an empty ring |
| `Retries.MessageAppearsOnce` | NetworkCard/src/transmitter.c:66-246 | over one run of both cards on one line that anybody else may drive, from acceptance to completion, with any number of aborted attempts: if all that the listener meets is quiet and collisions that a pass finds, no earlier attempt has completed, they have shown nothing but refused single bytes, and the attempt that goes through shows the message once |
| `Tales.RetriedRunMeets` | NetworkCard/src/transmitter.c:136-246 | such a run between any two cards at rest: a message accepted, an attempt aborted by a collision that the listener's pass finds, the release, quiet, the pass that starts a back-off and the interrupt that ends it |
| `Collisions.HeldLow` | NetworkCard/src/receiver.c:58-142 | whatever has been received when the line goes low for the monitor's timeout, and whatever passes run: after the release all of it is shown if no pass found the collision, else only the byte that the release completes, if seven bits were in progress |
| `Tears.TornShownIff` | NetworkCard/src/receiver.c:51-172 | a packet torn after any number of its bits by a line held low is shown if and only if no pass finds the collision and the listener has all bits, or all but the last and the checksum is odd |
| `Endings.TellHalves` | NetworkCard/src/transmitter.c:195-246 | on a line that nobody else drives, sender and listener follow any number of half-bits of a packet as the results about each of them say |
| `Endings.MessageAppearsTwice` | NetworkCard/src/transmitter.c:209-224 | a run for every message whose checksum ends in the bits 0, 1: the sender gives up one half-bit before the end, the listener shows the message, accepted, and the retry shows it again |
| `Endings.CompletedButLost` | NetworkCard/src/transmitter.c:207-213 | a run for every message: the attempt completes, nothing is sent again, and the listener shows nothing of it |
| `Messages.PacketsShownWhen` | NetworkCard/src/receiver.c:51-172 | any number of packets in a row, whatever piles up or is lost in the ring: at any time after the last they have been shown each by itself, whole and in order, if and only if an idle pass has fallen between each and the next and after the last |
| `Messages.PacketsShownIffSeparated` | NetworkCard/src/receiver.c:58-101 | so after the monitor's timeout and one pass: if and only if an idle pass falls between each and the next |
| `Messages.PacketsShownTogether` | NetworkCard/src/receiver.c:58-101 | two or more packets that fit the ring, no idle pass between them: the first delivery has all their bytes or the first 262, is accepted if and only if its last byte is the first packet's checksum, and is then shown as the first; if it has all the bytes it is the only one, its last byte the last packet's checksum |
| `Network.NominalRateIsTolerable` | NetworkCard/inc/transmitter.h:14 | the code's half-bit is within the tolerance, and is half of a 1000th of a second at 16 MHz |
| `Sessions.PowerUp` | NetworkCard/src/main.c:13-23 | initialisation and the transmission timer's first interrupt leave a transmitter with nothing engaged and a receiver that has taken the pin's rise for one bit, with nothing in the ring and nothing shown |
| `Sessions.PowerUpSettles` | NetworkCard/src/receiver.c:58-66 | once the line has been quiet for the monitor's timeout, one pass forgets that bit, and the card is in the state that the results over runs and sessions start from |
| `Sessions.SessionExists` | NetworkCard/src/main.c:27-30 | between two cards at rest there is a session of any number of lines, at the code's own rate |
| `Sessions.RoundShown` | NetworkCard/src/main.c:27-30 | a line typed at one card is shown by the other, and both are back where they can do it again |
| `Sessions.SessionShown` | NetworkCard/src/main.c:27-30 | over any number of typed lines: each shown once, whole and in order |

## Left out

- Register, clock, GPIO, LED and NVIC setup (`tim.c`, `gpio.c`, `led.c`, `delay.c`): only "timer starts, stops, fires", "pin level" and "edge seen" are kept.
- Pre-emption inside a handler or a main-loop pass: the code does not protect finer interleavings, and the model has none.
- The extra tick a hardware counter spends at its limit, and which of two events comes first when they fall on the same tick: the timer is taken to fire first.
- The layout of the printed lines: a delivery records the bytes drained, and the verdict with the packet as displayed or the string printed.
- A printed string that meets no NUL: the model stops at the end of the array, 262 bytes of text or 255 of a packet's message.
- The blocking wait of `usart2_getch`: a pass of an idle transmitter always has a character.
- A character typed or a pass made between initialisation and the first timer interrupt, and a line that rises for another reason than the card's own pin.
- How long a back-off lasts: the timer's setting is stated, but it may be zero, and then depends on the hardware; any number of passes and interrupts may come before it ends.
- Two cards sending at once: another driver may do anything to the line, and the transmitter's runs allow any monitor reports, but there is no second transmitter whose pin is combined with the first.
- `hasSpace` and `numElements`: nothing in the data path calls them, and they do not track the queue after a wrap.
- `EXTI9_5_IRQHandler` and `monitor_jam`, which are not used.
