# RFNETHM protocol model

RFNETHM bridges a HomeMatic radio stick to several network clients. This project models the parts of
its firmware that carry protocol, state and arithmetic, and proves what they promise over all inputs
and all runs.

- **Frame codec** (`Crc16`, `CrcDistance`, `HmuFrame`, `HmuDecoder`, `HmuStream`, `HmuCounters`,
  `KnownFrames`). The byte-at-a-time decoder delivers exactly the frames that a batch reading of the
  stream finds, however the stream is cut. Encoding followed by decoding is the identity from every
  decoder state. The CRC misses no burst of up to sixteen bits, no odd number of flipped bits, and two
  flipped bits exactly when they lie a multiple of 32767 apart, so accepted messages of one length up to
  4095 bytes differ in at least four bits. The decoder's counters are those of the batch reading. A
  frame and a packet are given byte by byte.
- **TX-master lock** (`TxLock`, `TxRuns`, `TxCalls`). Every mutex-protected section is one step and any
  number of calls may be in flight. The reject counters, the time stamp and the ownership rules hold in
  every interleaving. A success guards the next five seconds if and only if no other sink was the last
  to be admitted between the sender's check and its stamp; refused, failing and system calls in between
  are harmless, and a run from the start in which an overlapping call breaks the window is given. A
  whole call is the run of its sections, a master setting admits exactly the sink that its identifier
  names, and every counter is what it is named after.
- **HB-RF-ETH sessions** (`HbSessions`, `HbRuns`, `HbFlow`, `HbHeard`, `HbCounters`). The four-slot
  table keeps its invariant over every run of packets, timer ticks and fanouts; each session's counters
  run 0, 1, 2, … modulo 256 without gap or repeat; frames reach exactly the clients whose latest command
  was STARTCONN; and a client that stays started decodes exactly the frames of the stick's own byte
  stream. A tick keeps exactly the clients from which an intact packet came within the five seconds
  before its clock sample and none after it, and the statistics agree with the sessions, packets and
  damage of the run.
- **Legacy emulation** (`PendingAcks`, `CancelRuns`, `LegacySink`, `LegacyRuns`, `LegacyAnswers`,
  `AppSendPath`). A frame of a client is ignored if it is empty, answered at once, or sent on to the
  stick. What a client gets for a request that is sent on is stated for any sections of other tasks
  during the blocking transmission: an ACK if and only if one reaches its entry, with the status the
  stick gave, a refusal if and only if the transmission fails, and an entry left waiting if and only if
  the transmission succeeds and everything in between spared the entry. Both translations are followed
  from the bytes that go in to the frames the other side decodes, outwards through the TX lock and the
  chunks of the USB driver. Every pending allocation is still active or has ended in exactly one way.
- **Log ring** (`LogLine`, `LogRing`, `LogReading`, `LogAnswer`, `LogParse`). A log call's text becomes
  one stored line, without its colours; the ring agrees with the unbounded log and no call is lost from
  the accounts. A reader gets exactly the log's own lines if and only if every entry begun fits, and
  such an answer parses back into their numbers, time stamps and messages.
- **USB transfers** (`UsbTransfer`). Received data is gathered without loss until it no longer leaves
  room for a packet; a blocking transmission succeeds exactly if every chunk does.

`Bytes` holds the unsigned machine integers and exclusive-or, `Wrappers` the optional value. Code that
updates state in place is a class whose methods are proved against functions on values; the lemmas are
about those functions. 32-bit counters wrap.

Seven facts that a reader of the firmware may not expect are stated as lemmas, each with an exact
condition and with an input:

- An overlapping call can break the five-second window (`TxRuns.OverlapBreaksWindow`): exactly if
  another sink is admitted last between a sender's check and its stamp (`TxRuns.SuccessGuardsIff`).
- Freeing a pending entry by its index can end another allocation: exactly if, since the entry was made,
  it was collected after more than 300 ms, acknowledged or freed, and its slot was given away again and
  spared since (`CancelRuns.CancelIff`). A slow transmission does it (`PendingAcks.LateCancelHitsOther`),
  and so does an early ACK with the same counter, even one meant for another sink
  (`CancelRuns.EarlyAckHitsOther`).
- One request can be answered twice or not at all. Twice if and only if an ACK reaches its entry and the
  transmission fails all the same; not at all, with nothing left waiting, if and only if the transmission
  succeeds and the entry was lost without an ACK (`LegacyAnswers.AnsweredOnceIff`). An ACK during a
  failing transmission does the one (`LegacyAnswers.AnsweredTwice`), another client's request during a
  transmission of more than 300 ms the other (`LegacyAnswers.AnswerLost`).
- An ACK whose counter two entries share goes to the lower slot (`LegacyRuns.AckReachesSender`), so of
  two clients that wait for one counter the second is left waiting (`LegacyRuns.SharedCounter`).
- A sink attached under an identifier of more than fifteen characters cannot be pinned by it, only by its
  first fifteen characters (`TxCalls.AttachThenPin`).
- A log entry can be left unclosed although the size check passed (`LogReading.WholeIffFits`,
  `LogReading.WholeIffRoomy`); a log that does this to the web page's answer is `LogAnswer.WebAnswerBroken`.
- A client heard between a keepalive tick's clock sample and its mutex is dropped
  (`HbRuns.KeepaliveDecision`), a client that just connected included (`HbFlow.HeardAfterSampleDropped`).

Where the documentation and the code disagree the model follows the code. `docs/diagrams/hbrfeth_protocol.mmd`
gives other type codes and says that a session stays open after five silent seconds; the code closes it.
`bridge.h` names `ESP_ERR_NOT_PERMITTED` where the code returns `ESP_ERR_NOT_ALLOWED`. `log_buffer.h`
promises lines with numbers above `since`; the code starts at `since`.

## Model

| member | source | states |
|---|---|---|
| Crc16.HmuCrc16 | firmware/src/hmu_frame.c:16-30 | the nested loops compute the register run that all CRC lemmas speak about |
| Crc16.ShiftLinear | firmware/src/hmu_frame.c:22-26 | one shift-and-reduce step is linear over exclusive or |
| Crc16.ShiftNZero | firmware/src/hmu_frame.c:21-27 | only the cleared register is cleared by shifting |
| Crc16.AbsorbInjective | firmware/src/hmu_frame.c:19-28 | registers that agree after the same byte agreed before it |
| Crc16.Residue | firmware/src/hmu_frame.c:160-168 | two trailing bytes clear the register if and only if they are its content |
| Crc16.ResidueOfChecked | firmware/src/hmu_frame.c:16-30 | a message followed by its CRC has residue zero |
| Crc16.RunIsRunBits | firmware/src/hmu_frame.c:16-30 | the byte-wise register equals a serial register fed bit by bit |
| Crc16.RunBitsLinear | firmware/src/hmu_frame.c:16-30 | the whole serial run is linear in register and bits together |
| Crc16.AcceptedIsResidue | firmware/src/sink_hbrfeth.c:160-163 | the comparison of received and computed CRC accepts exactly the messages of residue zero |
| Crc16.AcceptedDifference | firmware/src/hmu_frame.c:160-168 | two accepted messages of one length differ by a pattern of residue zero |
| Crc16.BurstDetected | firmware/src/hmu_frame.c:160-176 | two different messages of one length that differ only within sixteen consecutive bits are never both accepted |
| Crc16.ParityOfChecked | firmware/src/hmu_frame.c:16-30 | message and CRC together always hold an odd number of one bits |
| Crc16.OddErrorDetected | firmware/src/hmu_frame.c:160-176 | messages of one length that differ in an odd number of bits are never both accepted |
| CrcDistance.Recurrence | firmware/src/hmu_frame.c:22-26 | the register's low bit, with the factor x + 1 cancelled, obeys the recurrence of x^15 + x + 1 |
| CrcDistance.PeriodIff | firmware/src/hmu_frame.c:22-26 | the low-bit sequence repeats after k steps if and only if 32767 divides k |
| CrcDistance.ReturnsIff | firmware/src/hmu_frame.c:22-26 | a lone top bit comes back after k shifts if and only if 32767 divides k |
| CrcDistance.TwoBitErrorMissedIff | firmware/src/hmu_frame.c:160-176 | two flipped bits in an accepted message go unnoticed if and only if their distance is a multiple of 32767 |
| CrcDistance.AcceptedFarApart | firmware/src/sink_hbrfeth.c:160-163 | different accepted messages of one length up to 4095 bytes differ in at least four bits |
| CrcDistance.FewBitErrorsNotDelivered | firmware/src/hmu_frame.c:160-176 | a segment that differs from an encoded frame in one to three bits behind the length field is not delivered |
| HmuFrame.EmitEscaped | firmware/src/hmu_frame.c:32-41 | writes one byte or its two-byte escape at the position and leaves the rest of the buffer alone |
| HmuFrame.EmitAll | firmware/src/hmu_frame.c:65-73 | appends the escaped form of every byte in order |
| HmuFrame.FrameEncode | firmware/src/hmu_frame.c:43-76 | succeeds if and only if payload and capacity allow, then leaves exactly the encoding; a failure leaves the buffer alone |
| HmuFrame.EscapeAllMagicFree | firmware/src/hmu_frame.c:32-41 | an escaped stretch never contains the magic byte |
| HmuFrame.UnescapeSnoc | firmware/src/hmu_frame.c:96-109 | how one more raw byte extends the unescaped reading, with a pending escape |
| HmuFrame.UnescapeEscapeAll | firmware/src/hmu_frame.c:96-109 | unescaping undoes escaping and leaves no escape pending |
| HmuFrame.EncodeShape | firmware/src/hmu_frame.h:54-56 | the length of an encoding, the magic byte only in front, and the bound the encoder checks for |
| KnownFrames.ShiftIsNext | firmware/src/hmu_frame.c:22-26 | one shift-and-reduce step in plain arithmetic, without exclusive or |
| KnownFrames.KnownEscapes | firmware/src/hmu_frame.c:32-41 | fd travels as fc 7d, fc as fc 7c, every other byte as itself |
| KnownFrames.KnownFrame | firmware/src/hmu_frame.c:43-76 | the frame fd 00 03 00 01 02 1e 0c, byte by byte |
| KnownFrames.KnownPacket | firmware/src/sink_hbrfeth.c:120-125 | the keepalive packet 02 00 7f 0d, byte by byte |
| HmuDecoder.Decoder.constructor | firmware/src/hmu_frame.c:80-86 | a fresh decoder hunts for a magic byte with all counters zero |
| HmuDecoder.Step | firmware/src/hmu_frame.c:111-184 | every raw byte keeps the decoder invariant (indices inside the body, lengths legal) and delivers at most one frame |
| HmuDecoder.Decoder.Resync | firmware/src/hmu_frame.c:88-94 | back to hunting without touching the counters |
| HmuDecoder.Decoder.StoreByte | firmware/src/hmu_frame.c:150-155 | stores a body byte inside the buffer and moves on when the length is reached |
| HmuDecoder.Decoder.CheckFrame | firmware/src/hmu_frame.c:160-179 | compares the CRC, delivers or counts, and starts over |
| HmuDecoder.Decoder.TakeByte | firmware/src/hmu_frame.c:135-182 | the state switch in place does what the step function says |
| HmuDecoder.Decoder.FeedByte | firmware/src/hmu_frame.c:113-133 | magic byte, hunting and escapes in place do what the step function says |
| HmuDecoder.Decoder.Feed | firmware/src/hmu_frame.c:111-184 | one feed call delivers the frames of the consumed bytes in order |
| HmuStream.CuttingIsInvisible | firmware/src/hmu_frame.c:111-184 | how a stream is cut into feed calls changes neither state nor frames |
| HmuStream.WantedIsAccepted | firmware/src/hmu_frame.c:160-168 | the decoder's comparison is the acceptance test of the whole checked message |
| HmuStream.ConsumeSegment | firmware/src/hmu_frame.c:116-183 | from any state, a magic byte and what follows it is read as that segment alone |
| HmuStream.DecoderRefinesBatch | firmware/src/hmu_frame.c:88-184 | for every stream the decoder delivers exactly the frames of the batch reading and ends where that reading says |
| HmuStream.DecoderRefinesBatchInPieces | firmware/src/hmu_frame.c:88-184 | the same for every way of cutting the stream |
| HmuStream.AtMostOneFrameEach | firmware/src/hmu_frame.c:116-124 | a stream yields at most one frame per magic byte |
| HmuStream.RoundTrip | firmware/src/hmu_frame.c:43-184 | from any valid state an encoded frame is delivered once, unchanged, and the decoder ends hunting |
| HmuStream.TransmissionDelivered | firmware/src/hmu_frame.c:43-184 | a list of encoded frames with magic-free noise between them is delivered in order |
| HmuStream.DeliveredAfterGarbage | firmware/src/hmu_frame.c:43-184 | the same after any garbage prefix |
| HmuStream.EncodingsPrefixFree | firmware/src/hmu_frame.c:43-76 | no encoding is a prefix of the encoding of another frame |
| HmuStream.CutDeliversNothing | firmware/src/hmu_frame.c:88-184 | an encoding cut short anywhere delivers nothing, whatever state the decoder was in |
| HmuStream.BurstNotDelivered | firmware/src/hmu_frame.c:160-176 | a segment that differs from an encoded frame within sixteen consecutive bits behind the length field is not delivered |
| HmuStream.CountersBalance | firmware/src/hmu_frame.c:111-184 | magic bytes consumed = frames ok + CRC errors + truncated + the open one, and frames ok counts the callbacks, modulo 2^32 |
| HmuCounters.CountersAreBatched | firmware/src/hmu_frame.c:111-184 | for every stream the four counters are those of the batch reading, modulo 2^32: segments with a frame, complete ones with a wrong CRC, illegal lengths and frames cut short by a magic byte, and the bytes skipped in front of, behind and inside of those |
| TxLock.Bridge.constructor | firmware/src/bridge.c:52-58 | AUTO without owner, nothing attached |
| TxLock.Bridge.FindSinkIdx | firmware/src/bridge.c:33-39 | the first position of the sink, or none |
| TxLock.Bridge.FindSinkId | firmware/src/bridge.c:41-50 | the first position of the identifier; a missing or empty one is found nowhere |
| TxLock.Bridge.AttachSink | firmware/src/bridge.c:100-121 | appends sink and shortened identifier, refused when all eight places are taken |
| TxLock.Bridge.CheckReady | firmware/src/bridge.c:151-158 | an unready source is counted and ends the call |
| TxLock.Bridge.CheckLock | firmware/src/bridge.c:161-205 | admission, claim and refusal counting in place are the claim section |
| TxLock.Bridge.StampTx | firmware/src/bridge.c:208-213 | only the success section moves the stamp and the byte count |
| TxLock.Bridge.TxToSource | firmware/src/bridge.c:146-215 | an undisturbed call is its sections in sequence, with its result |
| TxLock.Bridge.SetTxMaster | firmware/src/bridge.c:217-238 | AUTO clears the owner, a known identifier is pinned, an unknown one changes nothing |
| TxLock.Bridge.OnSourceRx | firmware/src/bridge.c:123-144 | received bytes go to all attached sinks in order, are counted, and leave the lock alone |
| TxRuns.StepKeepsInv | firmware/src/bridge.c:146-238 | every section of every call keeps lock, sink list and reject counters consistent |
| TxRuns.RejectsAlwaysBalance | firmware/src/bridge.c:184-197 | in every reachable state the three ways of counting refusals agree, modulo 2^32 |
| TxRuns.StampIsLatestSuccess | firmware/src/bridge.c:200-213 | in every interleaving tx_last_us is the stamp of the latest successful transmission |
| TxRuns.OwnerChanges | firmware/src/bridge.c:167-181 | ownership moves only by the master setting, or in AUTO without owner or after five idle seconds, to the claiming sink |
| TxRuns.PinnedAdmitsOwner | firmware/src/bridge.c:167-168 | PINNED admits the pinned sink and nobody else |
| TxRuns.OwnerKeepsWindow | firmware/src/bridge.c:160-213 | while a sink owns the lock, no other sink is admitted until five seconds after its stamp, in any interleaving without a master setting |
| TxRuns.OwnerIsLastAdmitted | firmware/src/bridge.c:161-205 | over any interleaving without a master setting the owner is the sink admitted last |
| TxRuns.SuccessGuardsIff | firmware/src/bridge.c:146-215 | a success guards the five seconds after it, in every further run, if and only if no other sink was the last admitted between its check and its stamp |
| TxRuns.HarmlessOverlap | firmware/src/bridge.c:161-213 | overlaps in which no other sink is admitted leave the sender the last admitted |
| TxRuns.UndisturbedCallGuards | firmware/src/bridge.c:146-215 | after a successful call during which no other sink was admitted, though others may be refused, fail or bypass the lock, the window holds in every further run |
| TxRuns.OverlapBreaksWindow | firmware/src/bridge.c:146-215 | a run from the start with two overlapping calls in which the other sink is admitted one microsecond after a success |
| TxCalls.CallIsRun | firmware/src/bridge.c:146-215 | from every consistent state a whole call leaves the lock as the run of its sections does and returns how that run ended: source not ready, refused, sent, failed, with or without a sink |
| TxCalls.CallStamps | firmware/src/bridge.c:207-214 | after any run a call moves tx_last_us to the end of its transmission if it succeeds and leaves it at the latest success if not |
| TxCalls.CallGuards | firmware/src/bridge.c:146-215 | a call that succeeds keeps every other sink out for five seconds, in every further run |
| TxCalls.HandoverIff | firmware/src/bridge.c:160-181 | after any run, who is admitted: the pinned sink; in AUTO the owner, or anybody attached if there is none or the latest success is more than 5,000,000 µs old |
| TxCalls.MasterPins | firmware/src/bridge.c:226-237 | after a setting that names an attached sink, that sink alone is admitted, at every time and in every run without another setting |
| TxCalls.MasterFrees | firmware/src/bridge.c:220-225 | after a missing, empty or "auto" identifier the mode is AUTO and every attached sink is admitted at once |
| TxCalls.MasterUnknown | firmware/src/bridge.c:226-231 | an identifier that no attached sink has changes nothing |
| TxCalls.AttachThenPin | firmware/src/bridge.c:100-115 | a sink is pinned by the identifier it was attached under, of which only the first fifteen characters count |
| TxCalls.CountersCount | firmware/src/bridge.c:151-213 | after every run: bytes of the successful transmissions, calls without a ready source, and for each sink its own refusals, modulo 2^32 |
| HbSessions.HbSink.constructor | firmware/src/sink_hbrfeth.c:47-56 | the table starts empty |
| HbSessions.HbSink.FindClient | firmware/src/sink_hbrfeth.c:62-70 | the first slot connected to the address, or none |
| HbSessions.HbSink.EvictIp | firmware/src/sink_hbrfeth.c:83-87 | every slot of the IP is disconnected |
| HbSessions.HbSink.FindFree | firmware/src/sink_hbrfeth.c:89-99 | the first free slot, or none |
| HbSessions.HbSink.ClientDisconnect | firmware/src/sink_hbrfeth.c:102-108 | clears a connected slot and counts it, leaves a free one alone |
| HbSessions.HbSink.SendTyped | firmware/src/sink_hbrfeth.c:142-154 | the counter comes from the slot the address search finds, and advances; an address without a slot gets 0 |
| HbSessions.HbSink.WelcomeClient | firmware/src/sink_hbrfeth.c:193-241 | both protocol versions and other payloads, with endpoint and reply |
| HbSessions.HbSink.HandleConnect | firmware/src/sink_hbrfeth.c:179-241 | find, evict, take a free slot and greet, or refuse |
| HbSessions.HbSink.HandleOther | firmware/src/sink_hbrfeth.c:190-304 | every other packet type on the sender's slot |
| HbSessions.HbSink.HandlePacket | firmware/src/sink_hbrfeth.c:158-307 | short packets, CRC errors, unknown senders and all packet types in place |
| HbSessions.HbSink.TickOne | firmware/src/sink_hbrfeth.c:369-383 | one slot is dropped or assigned a keepalive |
| HbSessions.HbSink.KeepaliveTick | firmware/src/sink_hbrfeth.c:354-390 | the tick over all slots in order |
| HbSessions.HbSink.FanoutOne | firmware/src/sink_hbrfeth.c:411-421 | one slot is skipped, counted as not started, or assigned the bytes |
| HbSessions.HbSink.OnRx | firmware/src/sink_hbrfeth.c:397-428 | the fanout over all slots in order, nothing for empty data |
| HbRuns.WelcomeIsOwnSlot | firmware/src/sink_hbrfeth.c:142-154 | the reply's address search always finds the slot that was just greeted |
| HbRuns.RunFrom | firmware/src/sink_hbrfeth.c:62-108 | after every run: active clients = connected slots = connects - disconnects (mod 2^32), no IP holds two slots, only connected slots are started |
| HbRuns.ConnectRefused | firmware/src/sink_hbrfeth.c:72-100 | a CONNECT is refused if and only if all slots are taken and none by the sender's IP, and a refusal changes nothing |
| HbRuns.CountersNeverSkip | firmware/src/sink_hbrfeth.c:142-154 | over every run the counters of a live session are 0, 1, 2, … modulo 256, replies, keepalives and frames together |
| HbRuns.FanoutConserved | firmware/src/sink_hbrfeth.c:397-428 | frames sent + drops for clients not started = connected clients summed over all fanouts, modulo 2^32 |
| HbRuns.TickOutcome | firmware/src/sink_hbrfeth.c:367-389 | a tick clears exactly the expired clients and sends each other one exactly one keepalive |
| HbRuns.KeepaliveDecision | firmware/src/sink_hbrfeth.c:371-371 | a client counts as expired if and only if it was last heard more than five seconds before the sample, or after it |
| HbFlow.HeardAfterSampleDropped | firmware/src/sink_hbrfeth.c:354-384 | a run in which a client that connects a microsecond after a tick's clock sample is dropped by that tick |
| HbRuns.FanoutOutcome | firmware/src/sink_hbrfeth.c:410-427 | exactly the started clients get the bytes, each once and unchanged |
| HbRuns.PacketReadsBack | firmware/src/sink_hbrfeth.c:115-125 | every packet sent passes the receiver's CRC test and reads back as type, counter and payload |
| HbRuns.DamagedPacketIgnored | firmware/src/sink_hbrfeth.c:160-170 | a packet damaged within sixteen consecutive bits only bumps the CRC error counter |
| HbFlow.StartedIffCommanded | firmware/src/sink_hbrfeth.c:192-290 | after every run a connected client is started if and only if STARTCONN is the latest CONNECT, STARTCONN or STOPCONN from its address |
| HbFlow.FramesFlowIffStarted | firmware/src/sink_hbrfeth.c:397-428 | after every run source bytes reach a connected client exactly if its latest command was STARTCONN |
| HbFlow.ConnectAnswered | firmware/src/sink_hbrfeth.c:200-240 | an accepted CONNECT gets one reply mirroring its counter, under the session's next counter; a named endpoint is adopted even in a new session, any other is two above the session's last |
| HbFlow.OtherVersionUnanswered | firmware/src/sink_hbrfeth.c:192-241 | a CONNECT of an unknown version opens or restarts the session, stopped, and nothing is sent |
| HbFlow.StreamReachesClient | firmware/src/sink_hbrfeth.c:397-428 | while a client stays started, its frame packets carry exactly the pieces the source delivered, complete and in order, whatever interleaves |
| HbFlow.ClientReadsStickFrames | firmware/src/sink_hbrfeth.c:397-428 | a client that decodes those payloads reads the batch reading of the stick's byte stream |
| HbFlow.FrameForwarded | firmware/src/sink_hbrfeth.c:291-299 | a frame packet's payload goes to the bridge unchanged if and only if its sender holds a slot |
| HbFlow.FewBitDamageIgnored | firmware/src/sink_hbrfeth.c:160-170 | a packet with one to three flipped bits only bumps the CRC error counter |
| HbHeard.HeardIsLatest | firmware/src/sink_hbrfeth.c:160-190 | after every run a connected client's last_rx_us is the time of the latest intact packet from its address, of whatever type |
| HbHeard.KeptIffHeard | firmware/src/sink_hbrfeth.c:354-390 | after every run a tick keeps a client if and only if it was heard in the 5,000,000 µs before the clock sample and not after it, and sends it one keepalive; any other is cleared and sent nothing |
| HbHeard.KeepaliveKeeps | firmware/src/sink_hbrfeth.c:246-248 | a client that sends a keepalive still holds its slot after a tick within the next five seconds |
| HbHeard.DisconnectEnds | firmware/src/sink_hbrfeth.c:242-245 | after an intact DISCONNECT no slot holds the sender's address, and no other slot has changed |
| HbCounters.ActionsCounted | firmware/src/sink_hbrfeth.c:102-108 | after every run the counters of connects, disconnects and frames sent are the sessions opened, the sessions closed and the frame packets, modulo 2^32 |
| HbCounters.EventsCounted | firmware/src/sink_hbrfeth.c:160-303 | after every run the other counters are the payloads handed to the bridge, the sessions closed by ticks, the damaged packets and the packets of unknown type, modulo 2^32 |
| PendingAcks.AllocFails | firmware/src/sink_hmuartlgw_legacy.c:455-481 | allocation fails if and only if all eight entries are active and at most 300 ms old |
| PendingAcks.StepIsTableOperation | firmware/src/sink_hmuartlgw_legacy.c:455-492 | the bookkeeping of runs moves the table exactly as the table operations do |
| PendingAcks.StepConserved | firmware/src/sink_hmuartlgw_legacy.c:455-492 | every step keeps each allocation in its slot or ended once, and never changes how one ended |
| PendingAcks.Reached | firmware/src/sink_hmuartlgw_legacy.c:455-492 | the same in every reachable state |
| PendingAcks.AllocationsBalance | firmware/src/sink_hmuartlgw_legacy.c:561-632 | allocations = ACKs routed + ACKs dropped + expiries + cancellations + active entries |
| PendingAcks.LateCancelHitsOther | firmware/src/sink_hmuartlgw_legacy.c:574-578 | a run in which a cancellation after a slow transmission ends another client's allocation |
| CancelRuns.SlotStep | firmware/src/sink_hmuartlgw_legacy.c:455-492 | what one event does to a slot: filled, spared or freed |
| CancelRuns.TakenIff | firmware/src/sink_hmuartlgw_legacy.c:455-492 | after any events a slot is taken if and only if its entry was spared or a later one was put there and spared since |
| CancelRuns.OwnIff | firmware/src/sink_hmuartlgw_legacy.c:455-492 | an allocation still lives after any events if and only if each spares its slot: no collection later than 300 ms, no ACK routed to it, no cancellation of it |
| CancelRuns.CancelIff | firmware/src/sink_hmuartlgw_legacy.c:561-585 | in every run a cancellation by index ends the caller's own allocation if and only if all events since spared its slot, a later one if and only if they did not and the slot was refilled and spared since, and otherwise nothing |
| CancelRuns.QuickAndUnacked | firmware/src/sink_hmuartlgw_legacy.c:455-492 | enough to be safe: no collection later than 300 ms, no ACK with the entry's counter, no cancellation of its slot |
| CancelRuns.EarlyAckHitsOther | firmware/src/sink_hmuartlgw_legacy.c:574-578 | a run of microseconds in which an early ACK makes the cancellation end another client's allocation |
| CancelRuns.RoutedIff | firmware/src/sink_hmuartlgw_legacy.c:455-632 | over any events an allocation is ended as routed if and only if an ACK for an active client finds its slot first while every event before spared it |
| LegacySink.LegacyServer.SendFrame | firmware/src/sink_hmuartlgw_legacy.c:149-168 | an encodable frame goes out encoded if the socket is open, otherwise nothing |
| LegacySink.LegacyServer.PendingGc | firmware/src/sink_hmuartlgw_legacy.c:455-466 | exactly the stale entries become inactive |
| LegacySink.LegacyServer.PendingAlloc | firmware/src/sink_hmuartlgw_legacy.c:468-481 | collects, then fills the first inactive entry |
| LegacySink.LegacyServer.PendingFindAndTake | firmware/src/sink_hmuartlgw_legacy.c:483-492 | takes the first entry waiting for the counter |
| LegacySink.LegacyServer.Repack | firmware/src/sink_hmuartlgw_legacy.c:533-559 | the repacked frame as encoded bytes, nothing above 256 bytes |
| LegacySink.LegacyServer.PrepareAppSend | firmware/src/sink_hmuartlgw_legacy.c:505-572 | every check before the transmission, the repacked bytes and the reserved entry |
| LegacySink.LegacyServer.SettleAppSend | firmware/src/sink_hmuartlgw_legacy.c:574-586 | after a failed transmission the entry with that index is released in whatever the table has become |
| LegacySink.LegacyServer.RespondOs | firmware/src/sink_hmuartlgw_legacy.c:238-296 | the reply to every OS command |
| LegacySink.LegacyServer.RespondApp | firmware/src/sink_hmuartlgw_legacy.c:300-369 | the reply to every APP command, none to APP_SEND, and the module address it sets |
| LegacySink.LegacyServer.AppFrame | firmware/src/sink_hmuartlgw_legacy.c:753-766 | up to the transmission: an APP_SEND is refused at once or leaves its bytes and reserved entry, everything else is answered at once |
| LegacySink.LegacyServer.Probe | firmware/src/sink_hmuartlgw_legacy.c:738-749 | the first probe settles the host mode |
| LegacySink.LegacyServer.OnFrameFrom | firmware/src/sink_hmuartlgw_legacy.c:726-773 | the whole client frame handler in place, up to the transmission |
| LegacySink.LegacyServer.SettleFrame | firmware/src/sink_hmuartlgw_legacy.c:574-586 | the handler after the transmission: a failure frees the entry with that index and is told to the client |
| LegacySink.LegacyServer.RouteLlmacAck | firmware/src/sink_hmuartlgw_legacy.c:595-632 | the ACK goes to the taken entry's client if its slot is active |
| LegacySink.LegacyServer.RouteLlmacRecv | firmware/src/sink_hmuartlgw_legacy.c:657-696 | length limits, translation, counter and broadcast |
| LegacySink.LegacyServer.OnFrameFromSource | firmware/src/sink_hmuartlgw_legacy.c:700-722 | dispatch of the stick's frames |
| LegacyRuns.EncodedReadsAs | firmware/src/hmu_frame.c:43-184 | a receiver in any decoder state reads exactly the encoded frame |
| LegacyRuns.AppSendHanded | firmware/src/sink_hmuartlgw_legacy.c:505-574 | a request is handed to the bridge if and only if length, source and table allow; then as one LLMAC frame and with one fresh entry |
| LegacyRuns.AppSendEndToEnd | firmware/src/sink_hmuartlgw_legacy.c:505-574 | client bytes of an APP_SEND of 13 to 256 bytes become bytes for the stick that decode to one LLMAC_SEND with the same counter and [06 80 00 80] in front of the payload from byte 4 |
| AppSendPath.ChunksDeliver | firmware/components/usb_host_cdc_acm/cdc_acm_host.c:1033-1061 | of an encoded frame sent in chunks the stick reads the frame once the last chunk has arrived, and nothing before, for every cutting and every decoder state |
| AppSendPath.AppSendReachesStick | firmware/src/bridge.c:146-215 | the bridge accepts the request if and only if the TX lock admits the sink and every chunk succeeds; the stick reads one LLMAC_SEND if and only if all chunks arrive |
| LegacyRuns.BroadcastOutcome | firmware/src/sink_hmuartlgw_legacy.c:683-689 | each listening client gets the frame once, nobody else anything |
| LegacyRuns.RecvEndToEnd | firmware/src/sink_hmuartlgw_legacy.c:657-696 | stick bytes of an LLMAC_RECV of 5 to 257 bytes become, for every probed client, bytes that decode to one APP_RECV with [05 01] in front of the payload from byte 3 |
| LegacyRuns.RecvCounterAdvances | firmware/src/sink_hmuartlgw_legacy.c:682-682 | over any stick frames the counter advances by the number of translated RECV frames, modulo 256 |
| LegacyRuns.AckReachesSender | firmware/src/sink_hmuartlgw_legacy.c:595-632 | an entry is served by an ACK for its counter if and only if no earlier slot waits for that counter, and its client then reads 04 01 if the ACK's second byte is 01, and 04 84 otherwise |
| LegacyRuns.SharedCounter | firmware/src/sink_hmuartlgw_legacy.c:483-632 | of two clients waiting for one counter the one that asked first gets the ACK and the other is left waiting |
| LegacyRuns.SendThenAck | firmware/src/sink_hmuartlgw_legacy.c:505-632 | an APP_SEND that was handed on, followed by the stick's ACK for its counter, gives its client one readable ACK, and a second ACK is ignored |
| LegacyRuns.AckOnlyToWaiting | firmware/src/sink_hmuartlgw_legacy.c:595-632 | an ACK goes to at most one client, named by an active entry for that counter |
| LegacyRuns.ForeignAckIgnored | firmware/src/sink_hmuartlgw_legacy.c:601-617 | an ACK nobody waits for changes nothing and is sent to nobody |
| LegacyAnswers.StepValid | firmware/src/sink_hmuartlgw_legacy.c:455-773 | every section of every task keeps the sink consistent and every allocation in its slot or ended once |
| LegacyAnswers.RepliedOrSentOn | firmware/src/sink_hmuartlgw_legacy.c:238-369 | a frame with payload is either answered at once, with the bytes its command asks for under its destination and counter, or sent on without an answer; an empty one is ignored |
| LegacyAnswers.AnswersDuring | firmware/src/sink_hmuartlgw_legacy.c:595-632 | over any sections of other tasks a waiting request is answered once, with the status of the ACK that reached its entry, and otherwise not |
| LegacyAnswers.SettlingOutcome | firmware/src/sink_hmuartlgw_legacy.c:574-586 | the refusal is sent if and only if the transmission failed, whatever has become of the entry |
| LegacyAnswers.RequestOutcome | firmware/src/sink_hmuartlgw_legacy.c:561-632 | for a request that is sent on, with anything in between: one ACK with the stick's status if and only if one reached its entry, then one refusal if and only if the transmission failed, an entry left waiting if and only if it succeeded and all sections spared the entry |
| LegacyAnswers.AnsweredOnceIff | firmware/src/sink_hmuartlgw_legacy.c:561-632 | exactly when a request is answered twice, when it is lost, and when it is answered once or left waiting |
| LegacyAnswers.AnsweredTwice | firmware/src/sink_hmuartlgw_legacy.c:566-586 | the stick's ACK during a transmission that then fails gives the client an ACK and a refusal for one request |
| LegacyAnswers.AnswerLost | firmware/src/sink_hmuartlgw_legacy.c:455-591 | another client's request during a transmission of more than 300 ms leaves the first without an answer and with nothing waiting |
| LegacyAnswers.ConnectionAnswered | firmware/src/sink_hmuartlgw_legacy.c:726-773 | for every client byte stream in any cutting and any sections of other tasks: each frame of the batch reading is ignored, answered at once, or sent on with that outcome |
| LegacyAnswers.HostIsFirstProbe | firmware/src/sink_hmuartlgw_legacy.c:738-749 | the host mode is what the first probe of the connection decided, and never returns to waiting |
| LegacyAnswers.HmidReadsBack | firmware/src/sink_hmuartlgw_legacy.c:307-330 | a module address that was set is the one reported to every client, over any sections that set no other |
| LogLine.SkipSequence | firmware/src/log_buffer.c:32-35 | the read pointer ends behind the next m, or at the end |
| LogLine.StripInPlace | firmware/src/log_buffer.c:28-41 | both pointers over one buffer leave exactly the text without its colour sequences |
| LogLine.Prepare | firmware/src/log_buffer.c:48-72 | cutting, stripping, trimming and ending at the first line break in place give the specified line, or none |
| LogLine.PreparedShape | firmware/src/log_buffer.c:53-72 | a prepared line fits its slot and holds no line break and no NUL |
| LogLine.PreparedPlain | firmware/src/log_buffer.c:53-72 | fewer than 200 printable characters are stored as they are, without the line breaks at their end |
| LogLine.PreparedCut | firmware/src/log_buffer.c:54-57 | printable text of 200 characters or more is stored as its first 199 |
| LogLine.ColourTakenOut | firmware/src/log_buffer.c:28-41 | a colour sequence reaches to the next m and is taken out; what is in front of it stays and what follows is treated alike |
| LogLine.UnfinishedTakenOut | firmware/src/log_buffer.c:33-34 | a colour sequence without an m is taken out to the end |
| LogLine.PreparedColoured | firmware/src/log_buffer.c:43-72 | a coloured line as the logging macros write it is stored as its bare text |
| LogLine.EmptyLineIff | firmware/src/log_buffer.c:53-72 | an empty line is stored if and only if the text without its colour sequences begins with a line break and holds something else than line breaks |
| LogLine.LeadingBreakLeavesEmpty | firmware/src/log_buffer.c:53-72 | a message that begins with a line break is stored as an empty line, unless nothing but line breaks is left of it |
| LogRing.CallsConserved | firmware/src/log_buffer.c:74-97 | log calls = stored lines + drops counted in markers + drops pending, modulo 2^32 |
| LogRing.DropsReported | firmware/src/log_buffer.c:74-97 | calls without the mutex leave no line; the next with it is stored behind a line with their number and the marker's own time stamp, if there were any |
| LogRing.LogBuffer.constructor | firmware/src/log_buffer.c:20-23 | the ring starts as the empty log |
| LogRing.LogBuffer.Append | firmware/src/log_buffer.c:87-90 | writes one slot; the ring then agrees with the log one entry longer |
| LogRing.LogBuffer.LogHook | firmware/src/log_buffer.c:43-99 | the whole hook: text without a line leaves no trace, otherwise the prepared line is recorded or counted |
| LogRing.LogBuffer.Hook | firmware/src/log_buffer.c:74-97 | for a prepared line: marker and line with the mutex, a count without it |
| LogRing.LogBuffer.PrintEscaped | firmware/src/log_buffer.c:143-155 | the escaped characters that fit, inside the buffer |
| LogRing.LogBuffer.EmitEntry | firmware/src/log_buffer.c:130-160 | one entry written, cut off, or not begun for lack of room |
| LogRing.LogBuffer.GetSince | firmware/src/log_buffer.c:110-165 | head, oldest, count and terminated text, never written past the capacity |
| LogReading.SlotHoldsLine | firmware/src/log_buffer.c:119-130 | every number offered to a reader names the entry that many places before the newest, also after the counter wraps |
| LogReading.WholeIffFits | firmware/src/log_buffer.c:131-160 | an entry that passed the size check is written whole if and only if it fits at its place, with the room kept before each character |
| LogReading.WholeIffRoomy | firmware/src/log_buffer.c:131-160 | behind any text, the size check keeps an entry whole in every buffer if and only if header and escapes stay within the estimate |
| LogReading.PlainLinesRoomy | firmware/src/log_buffer.c:131-133 | lines of twelve or more characters that need no escapes are never cut |
| LogAnswer.CleanIff | firmware/src/log_buffer.c:124-164 | the answer is the whole entries of consecutive numbers, ended only by the head or for lack of room, if and only if every entry fits that the size check lets begin together with all before it |
| LogAnswer.ReaderGetsLog | firmware/src/log_buffer.c:118-164 | a reader gets the unbounded log's lines from the later of `since` and the oldest kept one, whole, in order, without gap, if and only if the same holds of the log itself |
| LogAnswer.PlainLogFits | firmware/src/log_buffer.c:131-133 | in a log of lines of twelve or more characters without escapes every entry begun fits |
| LogAnswer.ShortLineBroken | firmware/src/log_buffer.c:131-156 | behind any text of 6963 characters an empty line passes the size check of a 7000-character buffer and is left unclosed |
| LogAnswer.LateLogRecorded | firmware/src/log_buffer.c:43-99 | the log calls, one a second, that leave the log of the next row |
| LogAnswer.WebAnswerBroken | firmware/src/webui.c:667-670 | a log whose answer in the web page's buffer is 105 whole entries and one unclosed |
| LogParse.MessageReads | firmware/src/log_buffer.c:143-157 | a JSON reader gets every message back from its escaped form (section 7 of RFC 8259) up to the closing quote |
| LogParse.ItemReads | firmware/src/log_buffer.c:136-158 | it gets number, time stamp and message back from an entry |
| LogParse.LogReadsBack | firmware/src/log_buffer.c:129-161 | it gets back the list of all lines from the text of consecutive entries |
| LogParse.AnswerReadsBack | firmware/src/log_buffer.c:110-165 | if every entry begun fits, the answer reads back as the log's own lines from where the reader starts |
| UsbTransfer.InTransfer.constructor | firmware/components/usb_host_cdc_acm/cdc_acm_host.c:552-566 | the first request is the length asked for |
| UsbTransfer.InTransfer.Reset | firmware/components/usb_host_cdc_acm/cdc_acm_host.c:113-123 | nothing kept, the request is the largest multiple of the packet size |
| UsbTransfer.InTransfer.InXferCb | firmware/components/usb_host_cdc_acm/cdc_acm_host.c:784-838 | one completion in place: kept, appended, or emptied with an overrun |
| UsbTransfer.After | firmware/components/usb_host_cdc_acm/cdc_acm_host.c:784-838 | after every run what is kept and what is requested fit the buffer |
| UsbTransfer.AfterCallback | firmware/components/usb_host_cdc_acm/cdc_acm_host.c:802-832 | the next request is the largest multiple of the packet size that fits, positive if and only if one packet fits the buffer; an overrun if and only if less than one packet fits |
| UsbTransfer.HoldsAllSinceEmptied | firmware/components/usb_host_cdc_acm/cdc_acm_host.c:793-833 | the buffer holds everything received since the last processed answer or overrun, in order |
| UsbTransfer.GatheredIffRoomLeft | firmware/components/usb_host_cdc_acm/cdc_acm_host.c:802-832 | pieces that are always to be extended are gathered whole if and only if they leave room for one packet |
| UsbTransfer.ChunksAreData | firmware/components/usb_host_cdc_acm/cdc_acm_host.c:1033-1061 | the chunks in order are the data, all but the last filling the buffer |
| UsbTransfer.DataTxBlocking | firmware/components/usb_host_cdc_acm/cdc_acm_host.c:1006-1068 | success if and only if every chunk is submitted, ends in time, completes and is transferred whole; otherwise the error of the first that does not, with only the chunks up to it submitted, and the limit each was given |
| UsbTransfer.InTimeIff | firmware/components/usb_host_cdc_acm/cdc_acm_host.c:1047-1049 | for which readings the signed 32-bit difference counts as in time, and that it is then what is left of the limit |

## Left out

- Web UI, HTTP handlers, OTA, mDNS, Improv, Wi-Fi and captive DNS: input and output around calls whose code is not part of this model.
- source_usb.c and source_uart.c: a source is a readiness flag and a transmission that may succeed or fail; its attaching and detaching is not modelled.
- main.c and sink_tcp.c: the supervisor and the raw TCP client table; short case splits beside the tables modelled here.
- CDC descriptor parsing, opening, suspend and resume, and the notification pipe of the USB driver.
- Network, clocks and the operating system: clock readings, readiness, transmission results and callback answers are inputs; what is sent is an output trace. The order in which packets leave after a mutex is released is not modelled, only the order in which their counters are assigned.
- Clocks: readings are unbounded integers, except in the keepalive comparison and the tick arithmetic of the USB driver, where the unsigned difference matters.
- HbSessions: the tick before the socket is bound, sends refused by the network stack, payloads above 1496 bytes that are dropped after their counter was assigned, and the hardware effect of the LED and reset packets. The first clock reading of a new slot is left out because it is overwritten before the mutex is released.
- LegacySink: Hello timers, bypass mode, key storage and the statistics that nothing else depends on.
- LegacyAnswers: the refusal after a failed transmission is sent in the section that frees the entry, where the code sends it just after releasing the mutex. Statements about answers speak of a socket that stays open.
- LegacySink.LegacyServer.PendingAlloc: the client pointer is a slot number; slots can be reused, and which TCP connection holds one is not modelled.
- TxRuns: every sink is attached at most once, as main.c does; the run-time statistics of received bytes are in TxLock only.
- LogRing.LogBuffer.LogHook: starts from the formatted text; the formatting itself and the output on the serial port are not modelled, and increments of the drop counter are taken as atomic.
- LogAnswer.ReaderGetsLog: speaks about fewer than 2^32 lines, when numbers and positions agree; LogReading.SlotHoldsLine says which line a number names after the counter has wrapped.
- HbFlow.StreamReachesClient: packets are in the order in which their counters were assigned; what the network loses or reorders is not modelled.
- HmuStream.BurstNotDelivered: speaks about unescaped bytes behind the length field; damage that creates or destroys escapes or the length itself moves the CRC and can do anything to a CRC.
- CrcDistance.FewBitErrorsNotDelivered: the same restriction as for bursts.
- CrcDistance.AcceptedFarApart: stops at 4095 bytes because two bits 32767 apart go unnoticed, as CrcDistance.TwoBitErrorMissedIff states.
- HmuFrame.FrameEncode: leaves out the second length check of the source, which no payload that passed the first can fail.
- UsbTransfer.InTransfer.InXferCb: the variant for chips without cache restrictions; transfers that did not complete end the polling and are not modelled.
- UsbTransfer.HoldsAllSinceEmptied: needs a callback that is always present; without one the data stays where the next transfer overwrites it.
- UsbTransfer.DataTxBlocking: the conversion between ticks and milliseconds is left out.
