# Protocol core of the RS-485 home controller, modelled and proved in Dafny

The home controller ("hukong") sits between a room controller, a set of RS-485 devices (lights,
curtains, air conditioners, meters) and remote callers. This project models the parts of its code
that everything else depends on, and proves what they promise:

* **Frames on the bus.** `Packets`, `Buffers`, `Utility`, `Stream`, `Comm`: a growable byte buffer
  filled in arbitrary pieces, frames `F7 F8 len ... checksum FD` cut off its front, any malformed
  frame clearing the buffer. The way a stream is split over receive events has no effect; built
  frames come back byte for byte; nothing is lost, invented or reordered.
* **The bus gateway.** `Gateway` is `ProtocolMethod::transform` call by call; `Freshness` says what
  its query cache means over sequential runs; `Interleaving` is the same code as a state machine with
  any number of threads and the receiving thread, one step per critical section. `RequestQueue` is
  the side that answers the room controller.
* **YMODEM.** `YmodemFormat` (packets, block 0), `YmodemSender` (the nested loops of `ymodem_send`,
  proved to follow an automaton for every sequence of answers), `YmodemTurns` (what the sender does
  next, told from the record of the conversation alone), `YmodemSession` (the sender together with a
  standard receiver: Forsberg, "XMODEM/YMODEM Protocol Reference", chapters 5, 7 and 8).
* **CRC.** `CrcTheory`, `CrcBurst` and `CrcParity` (what any such code guarantees: damage to adjacent
  bytes, to sixteen consecutive bits, to an odd number of bits), `CrcCcitt` and `CrcModbus` (bitwise loops,
  generated tables, the literal table), `ModbusFrames` (framing of "MODBUS over Serial Line",
  section 2.5.1.2 and appendix section 6.2.2).
* **Three smaller cores.** `Poller` (round robin over the devices), `Sensors` (binding table),
  `Ini`, `IniRoundTrip` and `IniReading` (configuration files).

`dafny verify dfyconfig.toml` checks everything.

Code that changes things step by step is written as methods and classes over arrays and fields;
each is proved against a specification function, and the promises are lemmas about that function.
These lemmas state bytes, bits and positions as numbers of their own where the protocol fixes them,
so that they do not depend on how the function is written.
`byte` is a number below 256; the CRC modules use bit vectors, and `Bytes` holds the exact
correspondence.

## What the proofs found

Some promises fail on part of their domain. The code is modelled as it is, and the exact condition
is proved.

* `BuildPacket` with more than 250 data bytes wraps the length byte and puts the checksum inside the
  header; fields and data survive the line exactly up to 250 bytes (`Stream.RoundTripExactly`).
* Rewriting a command reply into a query reply for the cache yields a frame with the right codes
  exactly when the length byte is not 2, 3 or 4, up to three coincidences that are spelled out
  (`Gateway.TranslationExactly`); with the configured translation map it is the length byte 4 alone
  (`Gateway.ConfiguredTailSafeExactly`). The receiver accepts such a reply, eight bytes long, once
  one more byte follows (`Gateway.ShortReplyIsReceived`), and from then on the command itself is
  answered from the cache: `Interleaving.ShortReplyExecution` is a whole execution that ends so.
  `Interleaving.CommandsReachTheBus` says that this is the only way it can happen: at every moment
  of every execution commands go to the bus if and only if no such reply was stored before.
* A saved reply is found again by the same query exactly when the device answered under the source
  address it was asked from; `WaitCheckResult` does not look at that address
  (`Freshness.SavedReplyFoundExactly`).
* `next_pow_of_2` answers 0 for 0 and for everything above 2^31 (`Utility.NextPowOf2`). With a
  capacity that is a power of two, the `int` multiplication in `realloc` overflows exactly when the
  rounded need passes 2^30 (`Buffers.OverflowExactly`).
* A NAK to block 0 aborts the transfer, although the source's loop is there to repeat the block,
  unless an earlier block 0 was answered with 'C' (`YmodemSender.NakRepeatsHeaderExactly`; the
  shortest such conversation is `YmodemSender.FirstNakAborts`).
* `crc16` and `CRC16.py` differ on the empty input (`CrcModbus.BothTables`).
* `IniConfigParser::Set` accepts keys, values and names that can be printed but not read back;
  `IniRoundTrip.SetStaysReadable` and `IniRoundTrip.ReadsBackExactly` say which.
* Responding to a request empties the whole queue, so older requests of other callers are dropped
  with it (`RequestQueue.SentEmptiesTheQueue`).

## Model

| member | source | states |
|---|---|---|
| `Utility.NextPowOf2` | lib-linux/src/utility.h:158-171 | for every 32-bit word: the least power of two at or above it when there is one in the word, otherwise 0 (wrap-around) |
| `Utility.SingleBit` | lib-linux/src/utility.h:160 | `x & (x-1)` is zero if and only if `x` is a power of two |
| `Utility.Smeared` | lib-linux/src/utility.h:165-169 | the five shift-or steps turn any non-zero word into all ones below its bit length |
| `Utility.RoundUpIsLeast` | lib-linux/src/utility.h:158-171 | exactly one value is the least power of two, and it is the one buffer growth uses |
| `Buffers.Buffer.constructor` | lib-linux/src/buffer.h:36-40 | an empty buffer of the asked capacity |
| `Buffers.Buffer.Copy` | lib-linux/src/buffer.h:43-48 | same capacity and bytes in memory of its own |
| `Buffers.Buffer.Realloc` | lib-linux/src/buffer.h:69-77 | the bytes held stay, more than `n` bytes become free, the capacity is multiplied as stated |
| `Buffers.Buffer.Put` | lib-linux/src/buffer.h:83-96 | the bytes held are followed by all the new ones, grown only when they do not fit |
| `Buffers.Buffer.Get` | lib-linux/src/buffer.h:101-122 | what is returned followed by what is left is what was held; as much as asked for or all |
| `Buffers.Buffer.Del` | lib-linux/src/buffer.h:135-151 | exactly the counted prefix goes; a negative count drops nothing |
| `Buffers.Buffer.MovePos` | lib-linux/src/buffer.h:190-193 | bytes written into the free space now count as held |
| `Buffers.Buffer.MoveBuf` | lib-linux/src/buffer.h:198-207 | exactly `n` bytes are dropped from the front |
| `Buffers.Buffer.Clear` | lib-linux/src/buffer.h:127-131 | nothing is held, the memory stays |
| `Buffers.GrownStaysPow2` | lib-linux/src/buffer.h:69-77 | a capacity that starts as a power of two stays one |
| `Buffers.OverflowExactly` | lib-linux/src/buffer.h:69-77 | for such capacities the C `int` product overflows if and only if the rounded need is above 2^30 |
| `Packets.Packet.CheckSum` | src/protocol/protocol_packet.cpp:16-19 | the sum of the counted bytes modulo 256 |
| `Packets.SumIsTotal` | src/protocol/protocol_packet.cpp:16-19 | cutting after every addition gives the whole sum modulo 256 |
| `Packets.SumChanged` | src/protocol/protocol_packet.cpp:16-19 | one changed byte, wherever it is, changes the checksum |
| `Packets.Packet.BuildPacket` | src/protocol/protocol_packet.cpp:21-46 | the whole struct memory after building, stale bytes and a wrapped length byte included |
| `Packets.HeadedAt` | src/protocol/protocol_packet.cpp:24-38 | where each header field and data byte of a built packet stands, and that the rest of the memory is untouched |
| `Packets.Packet.SetType` | src/protocol/protocol_packet.h:61-64 | only the type byte changes |
| `Packets.Packet.SetFunction` | src/protocol/protocol_packet.h:71-74 | only the function byte changes |
| `Packets.Packet.ReCheckSum` | src/protocol/protocol_packet.h:82-85 | only the checksum byte changes, to the sum of the counted bytes |
| `Packets.Carried` | src/protocol/protocol_packet.h:36-44 | the bytes handed on as data, for every length byte; the data block when there is one |
| `Stream.JudgeStable` | src/protocol/protocol_packet.cpp:56-106 | once a verdict (frame or exception) is given, more bytes behind do not change it |
| `Stream.WaitingIsShort` | src/protocol/protocol_packet.cpp:56-106 | bytes that still wait are fewer than the longest frame |
| `Stream.DrainConcat` | src/protocol/protocol_comm.cpp:47-70 | draining in two portions gives what draining at once gives |
| `Stream.SplitIrrelevant` | src/protocol/protocol_comm.cpp:19-70 | any split of any byte stream over receive events gives the packets of the unsplit stream up to the first framing error |
| `Stream.SameStreamSameFrames` | src/protocol/protocol_comm.cpp:19-70 | two splits of the same stream give the same packets, remainder and error |
| `Stream.DrainConserves` | src/protocol/protocol_comm.cpp:47-70 | the frames cut off, followed by the rest, are the stream itself; each is a complete valid frame |
| `Stream.FramesRecovered` | src/protocol/protocol_comm.cpp:47-70 | a concatenation of built frames is cut back into exactly these frames, with an empty buffer and no exception |
| `Stream.FramesRecoveredFromAnySplit` | src/protocol/protocol_comm.cpp:19-70 | the same for every split over receive events |
| `Stream.BuiltFields` | src/protocol/protocol_packet.cpp:21-46 | up to 250 data bytes: a valid frame that holds the addresses, type, function and data given |
| `Stream.RoundTripExactly` | src/protocol/protocol_packet.cpp:21-138 | build, send, receive returns fields and data and leaves the bytes behind alone, whatever the receiver's memory held, if and only if there are at most 250 data bytes |
| `Stream.WrappedLength` | src/protocol/protocol_packet.cpp:31-38 | above 250 data bytes the length byte is 0 to 4 |
| `Stream.DamageBreaks` | src/protocol/protocol_packet.cpp:73-103 | one wrong byte in a frame at the front of the buffer, the length byte excepted, is an exception, whatever stands behind the frame |
| `Stream.TakenShape` | src/protocol/protocol_packet.cpp:69-80 | what is taken begins with F7 F8 and ends with the whole sum of the counted bytes modulo 256 and FD |
| `Stream.PrefixWaits` | src/protocol/protocol_packet.cpp:56-106 | a built frame that is still arriving waits, at whatever byte it is cut |
| `Stream.WaitsExactly` | src/protocol/protocol_packet.cpp:56-106 | when the buffer waits: fewer than two bytes, or the right two and fewer than nine or than announced; a wrong head never waits |
| `Stream.WholeFrameTakenExactly` | src/protocol/protocol_packet.cpp:73-80 | a whole frame by itself is taken if and only if its length byte is at least 5 |
| `Stream.IdentifierIs` | src/protocol/protocol_packet.h:94-98 | the identifier of a built packet: length, addresses, codes and data summed modulo 256 |
| `Stream.IdentifierTells` | src/protocol/protocol_packet.h:94-98 | it does not depend on the memory the packet was built in, and differs for data that differ in one byte |
| `Comm.PacketVaild` | src/protocol/protocol_packet.cpp:56-106 | false, true or exception exactly as the frame predicate says |
| `Comm.GetPacket` | src/protocol/protocol_packet.cpp:113-138 | the front frame is copied over the packet memory and deleted, the bytes behind stay; otherwise nothing changes |
| `Comm.ReceivedIsFrame` | src/protocol/protocol_packet.cpp:131 | the copied packet is the frame that was on the line, whatever the memory held before |
| `Comm.ProtocolComm.constructor` | src/protocol/protocol_comm.cpp:9-13 | empty buffer and queue, repetition off |
| `Comm.ProtocolComm.OnReceive` | src/protocol/protocol_comm.cpp:19-70 | queue and buffer after a receive event are those of draining the old bytes and the new ones; all announced bytes are taken when they are there; no overflow for announced lengths up to 357913769, and the capacity stays within six times the announced length and a constant |
| `Comm.ProtocolComm.Receive` | lib-linux/src/serialport.h:189-247 | any sequence of receive events: packets and buffer are those of the pieces read, exceptions included, and with announced lengths of at most N the capacity never exceeds the larger of its first value and 6N + 1032 |
| `Comm.ReceptionIsFeed` | src/protocol/protocol_comm.cpp:19-70 | until the first exception that is the draining of the whole stream |
| `Comm.DamageCostsItsBatch` | src/protocol/protocol_comm.cpp:19-70 | a damaged frame costs what was received together with it: all frames before it and all received later are delivered, and the buffer ends empty |
| `Buffers.GrowthBounded` | lib-linux/src/buffer.h:69-77 | growing for n bytes with at most 258 held stays within 6n + 1032 |
| `Comm.ProtocolComm.ParseAll` | src/protocol/protocol_comm.cpp:47-69 | the loop pushes exactly the frames of the buffered bytes and ends with the remainder, or cleared after an exception |
| `Comm.ProtocolComm.WaitPop` | lib-linux/src/jobqueue.h:51-75 | the oldest packet; on an empty queue the first of what is pushed during the wait, or nothing when that is nothing |
| `Comm.ProtocolComm.WaitPopLast` | src/protocol/protocol_comm.cpp:123-142 | exactly the packet a sweep ends with: pops go on over the queue and everything pushed meanwhile until a wait brings nothing |
| `Comm.SweepTakesLast` | src/protocol/protocol_comm.cpp:123-142 | everything before that packet was popped too and nothing behind it is lost; there is one exactly when anything was there |
| `Comm.SweepAlone` | src/protocol/protocol_comm.cpp:123-142 | without pushes meanwhile it is the newest packet of the queue |
| `Comm.ProtocolComm.SendFrame` | src/protocol/protocol_comm.cpp:72-92 | the queue is cleared if asked, the built frame goes out once, the result is that of the write |
| `Comm.ProtocolComm.WaitResponse` | src/protocol/protocol_comm.cpp:144-178 | exactly the answer of the waits: one repetition of the unchanged frame per silent wait, at most two, none when repetition is off; gives up exactly when all waits were silent |
| `Comm.ProtocolComm.SendResponseFrame` | src/protocol/protocol_comm.cpp:101-121 | withheld exactly when the packet the sweep ends with is another request, which is then alone in the queue; otherwise the response goes out once |
| `Comm.RespondsAtomically` | src/protocol/protocol_comm.cpp:101-121 | without pushes meanwhile that is the atomic step of the request queue |
| `Gateway.KeyInjective` | src/protocol/protocol_packet.h:100-106 | different addresses or codes give different packet type identifiers |
| `Gateway.CodeInjective` | src/protocol/protocol_method.cpp:507 | different type and function bytes give different codes |
| `Gateway.ProtocolMethod.SetCmdPacketTransMap` | src/protocol/protocol_method.cpp:584-593 | one new entry in the translation map |
| `Gateway.ProtocolMethod.WaitCheckResult` | src/protocol/protocol_method.cpp:20-37 | accepted exactly when a packet came and destination, type and function match |
| `Gateway.AcceptedExactly` | src/protocol/protocol_method.cpp:20-37 | a built reply is accepted if and only if destination, type and function match, from whatever source and with whatever data |
| `Gateway.ProtocolMethod.Exchange` | src/protocol/protocol_method.cpp:514-529 | answer, packets still to come and number of copies are those of the waits; the copies are of one frame and nothing else is written; the repetition flag ends as it began; success exactly when the answer matches |
| `Gateway.CopiesBounded` | src/protocol/protocol_method.cpp:514-529 | one to three copies, exactly one when repetition is off or suspended |
| `Gateway.LateAnswerHeard` | src/protocol/protocol_comm.cpp:144-178 | a device that answers after n silent waits is heard if and only if n is below the number of waits |
| `Gateway.FramesPerExchange` | src/protocol/protocol_method.cpp:514-529 | with repetition such an answer takes n + 1 frames up to the third, then the call gives up; with repetition off or suspended one frame and one wait |
| `Gateway.AnswerReceived` | src/protocol/protocol_method.cpp:514-529 | the answer was received during the exchange, everything before it was popped too, and nothing behind it is lost |
| `Gateway.ProtocolMethod.Transform` | src/protocol/protocol_method.cpp:486-582 | cache hit, refusal or exchange exactly as the look-up says; the new cache and block set; nothing changes without an exchange; a saving call always writes a frame |
| `Gateway.ProtocolMethod.CacheTranslated` | src/protocol/protocol_method.cpp:562-574 | the rewritten reply is stored under its own new identifier |
| `Gateway.TranslationExactly` | src/protocol/protocol_method.cpp:562-566 | rewriting type and function and the checksum leaves a valid frame with the new codes and the old addresses and length, if and only if the tail is clear of the two bytes or fits by coincidence |
| `Gateway.TranslatedGood` | src/protocol/protocol_method.cpp:557-566 | the same for a packed code out of the translation map |
| `Gateway.ConfiguredTailSafeExactly` | src/repeat_comm.cpp:378-380 | with the configured translation map a command reply is rewritten rightly if and only if its length byte is not 4 |
| `Gateway.ShortReplyIsReceived` | src/protocol/protocol_packet.cpp:56-106 | a concrete frame of length byte 4 waits by itself and is delivered once one more byte follows |
| `Gateway.ShortReplyIsCached` | src/protocol/protocol_method.cpp:562-574 | as the reply to a forwarded light command with its three data bytes, over whatever packet memory, it makes that very command be answered from the cache |
| `Gateway.RewrittenIsFrameExactly` | src/protocol/protocol_method.cpp:562-566 | a rewritten reply is still a frame if and only if a length byte of 2 or 3 does not put the end byte where something else is written |
| `Gateway.KeepsFramesExactly` | src/protocol/protocol_method.cpp:557-566 | a translation map keeps every frame a frame if and only if it takes an end byte on a code byte to an end byte there |
| `Gateway.ConfiguredKeepsEnds` | src/repeat_comm.cpp:378-380 | the configured map does |
| `Gateway.UpdateKeepsOwnKeys` | src/protocol/protocol_method.cpp:531-579 | every update keeps each entry under the identifier of the packet it holds |
| `Freshness.CacheIsLatest` | src/protocol/protocol_method.cpp:486-582 | in every sequential run with echoed addresses and replies that are rewritten rightly, each cache entry is exactly the latest event for its key: saved reply, translated reply, or absence after a failed saved query |
| `Freshness.QueryReturnsLatest` | src/protocol/protocol_method.cpp:492-512 | a non-saving query is answered from the cache with precisely that event, and only then |
| `Freshness.SavedReplyFoundExactly` | src/protocol/protocol_method.cpp:531-547 | a saved reply is found again by the same query if and only if the device echoed the source address |
| `Freshness.PollRefreshes` | src/protocol/protocol_method.cpp:492-547 | after any run, a saving query leaves exactly the reply it just got under its key, or no entry when it failed |
| `Freshness.PollKeepsOthers` | src/protocol/protocol_method.cpp:531-547 | and leaves every other entry as it was |
| `Freshness.RefusedExactly` | src/protocol/protocol_method.cpp:492-512 | a non-saving call is refused if and only if its key has no reply to show and an earlier call saved its type and function; with neither it goes to the device |
| `Freshness.BlockIsSaved` | src/protocol/protocol_method.cpp:533-536 | a code is blocked if and only if an earlier call of that code saved |
| `Freshness.CommandAnswersQuery` | src/protocol/protocol_method.cpp:549-579 | after a forwarded command whose code is translated, the query of the same addresses is answered from the cache with the codes of the query, the addresses and data of the reply, as a valid frame |
| `Freshness.OtherCallsKeepAll` | src/protocol/protocol_method.cpp:549-579 | a call that does not save blocks nothing, and changes no entry unless it succeeded with a translated command |
| `Interleaving.BusAlways` | src/protocol/protocol_method.cpp:514-529 | in every interleaving: one thread on the bus, at most three identical frames per exchange and one when repetition is off, repetition flag as at start-up whenever `m_mutex` is free |
| `Interleaving.BusStep` | src/protocol/protocol_method.cpp:514-529 | every step of every thread keeps that invariant |
| `Interleaving.CacheAlways` | src/protocol/protocol_method.cpp:486-582 | in every interleaving, whatever is received: each cache entry is a valid frame under its own identifier, translated ones included, and each answer to a caller is a valid frame matching its request; all that is asked of the map is that it keeps ends |
| `Interleaving.ConfiguredCacheAlways` | src/repeat_comm.cpp:378-380 | the same with the configured map and no hypothesis |
| `Interleaving.CacheStep` | src/protocol/protocol_method.cpp:486-582 | every step of every thread keeps that invariant |
| `Interleaving.UpdateCodesExactly` | src/protocol/protocol_method.cpp:531-579 | one update keeps the cache to query codes if and only if it was and no short reply is stored; no update takes such an entry out again |
| `Interleaving.CodesAlways` | src/protocol/protocol_method.cpp:486-582 | with the configured map, at every moment of every interleaving: cached and blocked codes are within the four query codes if and only if no reply of length byte 4 to a translated command was stored before |
| `Interleaving.CommandsReachTheBus` | src/protocol/protocol_method.cpp:492-512 | at every moment of every interleaving: no other command would be answered from the cache or refused, if and only if no such reply was stored before |
| `Interleaving.ShortReplyExecution` | src/protocol/protocol_method.cpp:479-582 | an execution, from the first look-up to the last update, after which the command just sent is answered from the cache |
| `Interleaving.BlockGrows` | src/protocol/protocol_method.cpp:533-536 | a blocked code stays blocked |
| `Interleaving.BlockedStaysOffTheBus` | src/protocol/protocol_method.cpp:503-511 | once a code is blocked, no later look-up of a non-saving call of that code goes to the bus |
| `Interleaving.SavingCallsAskTheDevice` | src/protocol/protocol_method.cpp:492-516 | in every interleaving a saving call goes to the bus, whatever is cached |
| `Interleaving.SavingCallsRefresh` | src/protocol/protocol_method.cpp:531-547 | and when it ends its reply is in the cache under its own key, or its old entry is gone, and its code is blocked |
| `Interleaving.StoreChangesAtTheEnd` | src/protocol/protocol_method.cpp:486-582 | no other step of any thread changes cache or block set |
| `RequestQueue.PendingIsNewest` | src/protocol/protocol_comm.cpp:101-142 | in every run the last element of the queue is the pending request as told from the history alone, and there is none when the queue is empty |
| `RequestQueue.ResponseSentExactly` | src/protocol/protocol_comm.cpp:101-121 | a response goes out if and only if no other request is pending |
| `RequestQueue.WithheldKeepsNewest` | src/protocol/protocol_comm.cpp:108-115 | a withheld response leaves the pending request as the only element of the queue, still pending |
| `RequestQueue.SentEmptiesTheQueue` | src/protocol/protocol_comm.cpp:101-121 | a response that goes out leaves no request in the queue |
| `RequestQueue.CycleAnswersExactly` | src/protocol/protocol_comm.cpp:101-142 | a handler that took the newest request answers exactly if nothing arrived meanwhile or the latest arrival has the identifier of its answer; what the queue holds then |
| `RequestQueue.OvertakenStaysSilent` | src/protocol/protocol_comm.cpp:101-121 | a handler overtaken by another request sends nothing, however often it tries and whatever else arrives |
| `YmodemFormat.U32ToStr` | ymodem/src/ymodem.c:120-138 | the decimal digits of every 32-bit value, within the ten slots |
| `YmodemFormat.DigitsParsed` | ymodem/src/ymodem.c:120-138 | decimal parsing inverts it |
| `YmodemFormat.BuildHeader` | ymodem/src/ymodem.c:175-195 | exactly 128 bytes: name, zero, size, zeros; all zeros for the closing block |
| `YmodemFormat.PutNameAndSize` | ymodem/src/ymodem.c:182-190 | the name cut to 110 bytes, a zero, the digits of the size |
| `YmodemFormat.HeaderReadsBack` | ymodem/src/ymodem.c:175-198 | block 0 decodes to the name cut to 110 bytes and the size, and is never the closing block |
| `YmodemFormat.NullBlockIsNoFile` | ymodem/src/ymodem.c:181-195 | the closing block announces no file |
| `YmodemFormat.NameKept` | ymodem/src/ymodem.c:182-198 | a name of at most 110 bytes arrives whole, a longer one as its first 110 bytes, the size unchanged |
| `YmodemFormat.PacketIntact` | ymodem/src/ymodem.c:140-172 | a receiver finds number, complement, data and checksum of a sent packet in order |
| `YmodemFormat.PacketLayout` | ymodem/src/ymodem.c:140-172 | the 133 bytes: 0x01, number, complement, 128 data bytes, and the only two bytes that bring the data to remainder zero |
| `YmodemFormat.DamageRejected` | ymodem/src/ymodem.c:140-172 | a packet damaged in one byte, or in data and checksum in two adjacent bytes, within sixteen consecutive bits, or in an odd number of bits, is never taken for a good one |
| `YmodemSender.AlwaysRemembers` | ymodem/src/ymodem.c:271-320 | at every moment of every negotiation the sender excuses a 'C' exactly if no block 0 was answered with 'C' before |
| `YmodemSender.NakRepeatsHeaderExactly` | ymodem/src/ymodem.c:289-321 | a NAK to block 0, wherever in whatever conversation, repeats the block if and only if an earlier block 0 was answered with 'C'; otherwise the transfer is aborted |
| `YmodemSender.FirstNakAborts` | ymodem/src/ymodem.c:289-321 | the shortest instance: 'C', then NAK, whatever follows |
| `YmodemSender.Line.SendPacket` | ymodem/src/ymodem.c:140-172 | the 133 bytes of one packet go out |
| `YmodemSender.Line.SendPacket0` | ymodem/src/ymodem.c:175-198 | the packet of block 0, or the closing packet |
| `YmodemSender.Line.SendDataPackets` | ymodem/src/ymodem.c:201-269 | data packets, EOT and closing block follow the automaton for every answer sequence; 0 exactly when it ends in success |
| `YmodemSender.Line.FinishTransfer` | ymodem/src/ymodem.c:247-268 | the part behind the data packets does |
| `YmodemSender.Line.Negotiate` | ymodem/src/ymodem.c:290-321 | the loop around block 0 does, the two CAN bytes included |
| `YmodemSender.Line.YmodemSend` | ymodem/src/ymodem.c:271-327 | for every answer sequence the conversation is the automaton's, and the size is returned exactly when it ends in success |
| `YmodemTurns.DataPacketSent` | ymodem/src/ymodem.c:212-228 | the packet on the line is always the one whose number is that of the packets acknowledged so far |
| `YmodemTurns.DataPacketRepeated` | ymodem/src/ymodem.c:235-244 | an answer to a data packet other than ACK, CAN or a timeout brings the same packet again |
| `YmodemTurns.DataPacketFollowed` | ymodem/src/ymodem.c:235-250 | an ACK brings the next packet, or EOT behind the last |
| `YmodemTurns.DataPacketGivenUp` | ymodem/src/ymodem.c:241-243 | CAN or a timeout ends the transfer there |
| `YmodemTurns.EotAnswered` | ymodem/src/ymodem.c:247-257 | EOT is repeated until ACK or a timeout; behind its ACK the closing block follows if and only if the receiver says C |
| `YmodemTurns.ClosingAnswered` | ymodem/src/ymodem.c:256-264 | the closing block is repeated until ACK, which is the success, or a timeout, which is not |
| `YmodemTurns.HeaderAnswered` | ymodem/src/ymodem.c:290-321 | block 0 is repeated when no C follows its ACK, and once when C comes instead of the ACK; any further C and every other answer but NAK aborts |
| `YmodemTurns.ThreeTimeoutsExcused` | ymodem/src/ymodem.c:283-289 | up to three timeouts before the first C add silent turns and change nothing else |
| `YmodemTurns.NoStartFails` | ymodem/src/ymodem.c:283-289 | four timeouts, or anything else in place of that C, end the transfer with nothing sent |
| `YmodemTurns.PatientReceiverSucceeds` | ymodem/src/ymodem.c:271-327 | a receiver that acknowledges every packet, EOT and the closing block in the end gets the whole transfer, however often it refused before without giving up: block 0 by an excused C and NAKs, data packets by anything but CAN and a timeout, EOT and the closing block by anything but a timeout |
| `YmodemSession.SuccessSentEverything` | ymodem/src/ymodem.c:212-327 | for every answer sequence: success means the acknowledged transmissions are block 0, then all data packets in order with numbers 1.. at consecutive 128-byte offsets, then EOT, then the closing block |
| `YmodemSession.ResentUnchanged` | ymodem/src/ymodem.c:212-327 | what was sent and not acknowledged is what is sent next, if anything is |
| `YmodemSession.AlwaysInStep` | ymodem/src/ymodem.c:201-327 | sender and receiver states agree at every moment of every session over a line that loses and damages |
| `YmodemSession.SendingTurn` | ymodem/src/ymodem.c:212-245 | whatever happens to one data packet, the receiver is at most one packet ahead; numbers modulo 256 never confuse two packets |
| `YmodemSession.StoredIsPrefix` | ymodem/src/ymodem.c:201-327 | at every moment the receiver has whole packets from the front of the file, as many as the sender counted or one more |
| `YmodemSession.SuccessMeansReceived` | ymodem/src/ymodem.c:271-327 | a returned size means the receiver has name, size and every byte of the file |
| `YmodemSession.LosslessSucceeds` | ymodem/src/ymodem.c:271-327 | over a line that delivers everything unchanged the transfer of every named file succeeds |
| `YmodemSession.LosslessSessionExists` | ymodem/src/ymodem.c:271-327 | and such a conversation exists for every named file |
| `CrcTheory.DamageDetected` | ymodem/src/ymodem.c:101-118 | messages of any equal length that differ only within one byte or two adjacent bytes have different remainders, for every sound code |
| `CrcBurst.BurstDetected` | ymodem/src/ymodem.c:101-118 | messages of any equal length that differ only within sixteen consecutive bits, wherever these lie in the bytes, have different remainders, for every code that can be divided bit by bit |
| `CrcBurst.MessageRemainder` | ymodem/src/ymodem.c:101-118 | dividing bit by bit in the order of the line gives the remainder of the bytes |
| `CrcBurst.CcittFaithful` | ymodem/src/ymodem.c:107-115 | the 0x1021 code is divided bit by bit, highest bit of a byte first, and no bit is gone before sixteen more |
| `CrcBurst.ModbusFaithful` | outside_env/modbus_debug/CRCModules/CRC16.py:40-44 | the 0xA001 code likewise, lowest bit first |
| `CrcBurst.CcittBurst` | ymodem/src/ymodem.c:101-118 | the detection of bursts for the one code, from any starting value |
| `CrcBurst.ModbusBurst` | outside_env/src/protocol/crc16.cpp:62-67 | and for the other |
| `CrcParity.OddDamageDetected` | ymodem/src/ymodem.c:101-118 | messages of any equal length that differ in an odd number of bits, wherever these are, have different remainders, for every code that keeps parity |
| `CrcParity.RemainderParity` | ymodem/src/ymodem.c:101-118 | the parity of the remainder is the parity of start and message together |
| `CrcParity.CcittKeepsParity` | ymodem/src/ymodem.c:110-114 | the 0x1021 step keeps parity |
| `CrcParity.ModbusKeepsParity` | outside_env/modbus_debug/CRCModules/CRC16.py:42-44 | the 0xA001 step keeps parity |
| `CrcTheory.TwoBytesInjective` | ymodem/src/ymodem.c:101-118 | two bytes can be recovered from the remainder they leave |
| `CrcTheory.RemainderInjective` | ymodem/src/ymodem.c:101-118 | different remainders stay different whatever follows |
| `CrcTheory.RemainderConcat` | outside_env/src/protocol/crc16.cpp:62-67 | the CRC of a concatenation is the CRC continued from the prefix |
| `CrcTheory.ResidueUnique` | outside_env/src/protocol/protocol_packet.cpp:38-40 | only its own two bytes bring a message to residue zero |
| `CrcCcitt.Crc16` | ymodem/src/ymodem.c:101-118 | the bitwise loop computes the remainder of the first `count` bytes from zero |
| `CrcCcitt.CcittSound` | ymodem/src/ymodem.c:110-114 | the 0x1021 step is linear and injective and no byte is lost in eight steps |
| `CrcCcitt.MessagesTold` | ymodem/src/ymodem.c:101-118 | the detection result for this code and any starting value |
| `CrcCcitt.ResidueZero` | ymodem/src/ymodem.c:157-171 | message and two bytes have residue zero if and only if the two are its checksum |
| `CrcCcitt.CheckValue` | ymodem/src/ymodem.c:101-118 | the remainder of the nine characters 1 to 9 is 0x31C3, the published check value |
| `CrcCcitt.FrameDamageDetected` | ymodem/src/ymodem.c:140-172 | a damaged message with checksum never has residue zero |
| `CrcCcitt.TableStep` | outside_env/modbus_debug/CRCModules/CRCCCITT.py:41-43 | one table look-up does the work of eight division steps |
| `CrcCcitt.CrcCcittTable.constructor` | outside_env/modbus_debug/CRCModules/CRCCCITT.py:22-31 | the table holds what eight steps make of each byte |
| `CrcCcitt.CrcCcittTable.GenerateEntry` | outside_env/modbus_debug/CRCModules/CRCCCITT.py:52-61 | the generator, which shifts dividend and remainder side by side, gives the same entry |
| `CrcCcitt.CrcCcittTable.Calculate` | outside_env/modbus_debug/CRCModules/CRCCCITT.py:34-45 | the table-driven loop computes the remainder from the starting value, and 0 for the empty string |
| `CrcCcitt.BothWays` | outside_env/modbus_debug/CRCModules/CRCCCITT.py:34-45 | 'XModem' mode gives what `crc16` of ymodem.c gives, for every input |
| `CrcModbus.ModbusSound` | outside_env/modbus_debug/CRCModules/CRC16.py:42-44 | the reflected 0xA001 step is linear and injective and no byte is lost in eight steps |
| `CrcModbus.MessagesTold` | outside_env/src/protocol/crc16.cpp:62-67 | the detection result for this code and any starting value |
| `CrcModbus.ResidueZero` | outside_env/src/protocol/protocol_packet.cpp:38-40 | message and two bytes have residue zero from 0xFFFF if and only if the two are its checksum, low byte first |
| `CrcModbus.CheckValue` | outside_env/src/protocol/crc16.cpp:62-67 | the remainder of the nine characters 1 to 9 from 0xFFFF is 0x4B37, the published check value |
| `CrcModbus.TableStep` | outside_env/src/protocol/crc16.cpp:49-52 | one table look-up does the work of eight division steps |
| `CrcModbus.LiteralTableGenerated` | outside_env/src/protocol/crc16.cpp:14-47 | all 256 literal entries are what eight division steps make of their index |
| `CrcModbus.Crc16Byte` | outside_env/src/protocol/crc16.cpp:49-52 | one look-up in the literal table is one byte of the division |
| `CrcModbus.Crc16` | outside_env/src/protocol/crc16.cpp:62-67 | the loop computes the remainder continued from `crc` |
| `CrcModbus.Crc16Table.constructor` | outside_env/modbus_debug/CRCModules/CRC16.py:18-20 | the generated table holds the same entries |
| `CrcModbus.Crc16Table.GenerateEntry` | outside_env/modbus_debug/CRCModules/CRC16.py:38-45 | the generator loop makes them |
| `CrcModbus.Crc16Table.Calculate` | outside_env/modbus_debug/CRCModules/CRC16.py:23-33 | the remainder from 0xFFFF in Modbus mode and from 0 otherwise, and 0 for the empty string |
| `CrcModbus.BothTables` | outside_env/modbus_debug/CRCModules/CRC16.py:23-33 | literal and generated table give the same if and only if the input is not empty |
| `ModbusFrames.BuildPacket` | outside_env/src/protocol/protocol_packet.cpp:22-44 | a server reads back address, command, register and count, high byte first, then the data behind its length; the size is that of these fields, and their checksum makes residue zero |
| `ModbusFrames.CheckSum` | outside_env/src/protocol/protocol_packet.cpp:16-20 | the remainder of the first `n` bytes from 0xFFFF |
| `ModbusFrames.PacketVaild` | outside_env/src/protocol/protocol_packet.cpp:54-89 | for commands 0x03 and 0x10: waits exactly while bytes are missing, then accepts if and only if the first `GetPacketLen` bytes have residue zero |
| `ModbusFrames.BodyRead` | outside_env/src/protocol/protocol_packet.cpp:22-37 | where a server finds each field of a request |
| `ModbusFrames.ReadReplyTaken` | outside_env/src/protocol/protocol_packet.h:23-65 | a reply to 0x03 with any data and its checksum is taken as long as it is and no longer |
| `ModbusFrames.WriteReplyTaken` | outside_env/src/protocol/protocol_packet.h:23-65 | a reply to 0x10 is eight bytes with its checksum |
| `ModbusFrames.ResidueZeroExactly` | outside_env/src/protocol/protocol_packet.cpp:38-40 | message and two bytes have residue zero if and only if the two are its checksum bytes |
| `ModbusFrames.ComparisonExact` | outside_env/src/protocol/protocol_packet.cpp:66-68 | comparing stored and computed checksum is asking for residue zero |
| `ModbusFrames.DamagedFrameRejected` | outside_env/src/protocol/protocol_packet.cpp:54-89 | a valid frame damaged in one byte or two adjacent ones has no residue zero |
| `ModbusFrames.OddDamageRejected` | outside_env/src/protocol/protocol_packet.cpp:54-89 | nor has one with an odd number of flipped bits |
| `ModbusFrames.BurstRejected` | outside_env/src/protocol/protocol_packet.cpp:54-89 | nor has one damaged within sixteen consecutive bits |
| `Ini.StripExactly` | lib-linux/src/utility.h:123-138 | exactly the blanks at both ends are removed |
| `Ini.StripFacts` | lib-linux/src/utility.h:123-138 | the result is stripped, keeps a non-blank first character, and a stripped string is left alone |
| `Ini.TxtConfigParser.Input` | lib-linux/src/config_parser.h:44-95 | the loop over the lines ends with the map of the section, or rejects exactly the texts that have a bad line |
| `Ini.IniConfigParser.Input` | lib-linux/src/config_parser.h:145-203 | the loop ends with the configuration the text stands for, each section passed through a parser of its own, or rejects |
| `Ini.IniConfigParser.FinishSection` | lib-linux/src/config_parser.h:170-175 | an empty name or a bad section rejects; otherwise the section replaces any earlier one of its name |
| `Ini.IniConfigParser.Output` | lib-linux/src/config_parser.h:205-213 | every section once with every key once, in some order |
| `Ini.IniConfigParser.OutputSection` | lib-linux/src/config_parser.h:98-106 | every key once, then an empty line |
| `Ini.IniConfigParser.Set` | lib-linux/src/config_parser.h:215-227 | one entry is set, everything else stays |
| `Ini.IniConfigParser.Get` | lib-linux/src/config_parser.h:229-239 | the value of the entry, or the empty string |
| `Ini.LinesOfUnlines` | lib-linux/src/config_parser.h:50 | lines written one by one are read back one by one |
| `IniRoundTrip.AcceptedIsWellFormed` | lib-linux/src/config_parser.h:145-203 | whatever is accepted has non-empty one-line names, keys that cannot be mistaken for anything else, and stripped one-line values |
| `IniRoundTrip.PrintedReadsBack` | lib-linux/src/config_parser.h:145-213 | a well-formed configuration printed in any order reads back as the same maps |
| `IniRoundTrip.ReadsBackExactly` | lib-linux/src/config_parser.h:145-213 | printing and reading returns the configuration if and only if it is well formed |
| `IniRoundTrip.ParsePrintParse` | lib-linux/src/config_parser.h:145-213 | for every accepted text, parse, print, parse gives the maps of the first parse |
| `IniRoundTrip.SetStaysReadable` | lib-linux/src/config_parser.h:215-227 | after `Set` the configuration can still be printed and read if and only if section, key and value are of that shape |
| `IniRoundTrip.CommentsAreSkipped` | lib-linux/src/config_parser.h:156-164 | a blank or comment line changes nothing, wherever it stands |
| `IniRoundTrip.LastEntryCounts` | lib-linux/src/config_parser.h:68-87 | of several entries for a key the last one counts |
| `IniRoundTrip.LastSectionCounts` | lib-linux/src/config_parser.h:165-202 | of several sections of a name the last one replaces the others as a whole |
| `IniRoundTrip.EntryReadsBack` | lib-linux/src/config_parser.h:62-92 | an entry splits at its first equals sign, so a value may contain more of them |
| `IniRoundTrip.SectionText` | lib-linux/src/config_parser.h:98-106 | the text of one section: its title in brackets, key=value for every key, and an empty line |
| `IniRoundTrip.TextsJoin` | lib-linux/src/config_parser.h:205-213 | the texts of separate sections stand one behind the other with nothing around them |
| `IniReading.LooseEntry` | lib-linux/src/config_parser.h:52-88 | blanks around the line and around the first equals sign are not part of key or value |
| `IniReading.PaddedLine` | lib-linux/src/config_parser.h:156-158 | blanks around a line of any kind change nothing |
| `IniReading.LastNewlineOptional` | lib-linux/src/config_parser.h:155 | the newline behind the last line may be missing |
| `IniReading.StrayLineRejects` | lib-linux/src/config_parser.h:66-70 | behind the first title, a line that is neither comment nor title and has no equals sign makes the whole text unreadable |
| `IniReading.NamelessEntryRejects` | lib-linux/src/config_parser.h:72-93 | so does an entry with nothing before its equals sign |
| `IniReading.BadTitleRejects` | lib-linux/src/config_parser.h:165-184 | so does a title that is not closed or has no name |
| `IniReading.PrefaceIgnored` | lib-linux/src/config_parser.h:185-191 | whatever stands before the first title is ignored |
| `IniReading.SetThenGet` | lib-linux/src/config_parser.h:215-239 | what was set is there, and every other entry is as before |
| `Poller.ConfiguredDevices` | src/repeat_comm.cpp:1520-1542 | the polling list holds each configured device, up to the limit of its kind, exactly once |
| `Poller.DevicesInOrder` | src/repeat_comm.cpp:1520-1542 | lights, curtains, air conditioners, meters, and the addresses of each kind upwards from 1 |
| `Poller.TimerQuery.Rebuild` | src/repeat_comm.cpp:32-50 | the list built from the five counts, human groups left out |
| `Poller.TimerQuery.MarkMeters` | src/repeat_comm.cpp:53-65 | every meter is marked for time synchronization, nothing else changes |
| `Poller.TimerQuery.QueryTurn` | src/repeat_comm.cpp:79-88 | up to three queries, stopped by the first answer or a waiting setting command |
| `Poller.TimerQuery.PassAlarm` | src/repeat_comm.cpp:125-144 | a changed fire alarm is told one to three times and remembered for that address |
| `Poller.TimerQuery.PollFront` | src/repeat_comm.cpp:67-203 | the turn of the front device, which is at the back afterwards: a marked meter gets the time once and nothing else; any other device is queried one to three times unless a setting command waits, and no other device is; the alarm is told exactly when an air conditioner that answered knows another |
| `Poller.TimerQuery.Round` | src/repeat_comm.cpp:26-210 | one pass of the loop: list rebuilt or kept, requests marked, the front served and moved, and the bus asked what that turn calls for |
| `Poller.TimerQuery.Run` | src/repeat_comm.cpp:22-210 | from one change of the devices to the next, turns and queue are those of the round robin; each meter is sent the time as often as it had a synchronizing turn, and exactly once more after a single request |
| `Poller.TriedUntil` | src/repeat_comm.cpp:79-88 | the queries of a turn end only with an answer, a setting command or the third attempt |
| `Poller.TurnsGoAround` | src/repeat_comm.cpp:53-203 | for any number of rounds and any requests: the turns go around the list, and a meter's turn is a time synchronization if and only if one was requested since its last turn |
| `Poller.OneTurnPerCycle` | src/repeat_comm.cpp:67-203 | in any n consecutive rounds, n the length of the list, every device has exactly one turn |
| `Poller.OneSyncPerRequest` | src/repeat_comm.cpp:53-65 | after a single request each meter has exactly one turn with a time synchronization, within the next n rounds, and in all its other turns of the whole run, before and after, it is queried |
| `Poller.OneTimeDue` | src/repeat_comm.cpp:53-65 | so each meter is due the time exactly once in that run |
| `Poller.ActionsLogged` | src/repeat_comm.cpp:67-203 | what a turn asks of the bus, counted per device and kind of message |
| `Poller.SyncTurnsExactly` | src/repeat_comm.cpp:53-65 | which turns of the whole run are time synchronizations |
| `Poller.DevicesConserved` | src/repeat_comm.cpp:201-202 | the multiset of devices never changes |
| `Sensors.RepeatComm.ProcessSen` | src/repeat_comm.cpp:1437-1461 | afterwards a sensor is set if and only if some of the 36 inputs bound to it is open; everything else is cleared |
| `Sensors.RepeatComm.IsHasManByXinfeng` | src/repeat_comm.cpp:1463-1491 | true if and only if a set human sensor group is bound to the air conditioner |
| `Sensors.RepeatComm.IsHasManByCurtain` | src/repeat_comm.cpp:1493-1518 | true if and only if the sensor bound to the curtain is set |
| `Sensors.OccupiedExactly` | src/repeat_comm.cpp:1437-1491 | both together: somebody is there if and only if the two binding tables lead from an open input to the air conditioner |
| `Sensors.OpeningSetsItsSensor` | src/repeat_comm.cpp:1404-1461 | an input that opens sets the sensor it is bound to, if that is a valid code, and changes no other |
| `Sensors.InputsAreIndependent` | src/repeat_comm.cpp:1437-1461 | an input can change no other sensor than its own |
| `Sensors.SensedFromBytes` | src/repeat_comm.cpp:1404-1461 | byte by byte: a sensor from 1 to 13 is set if and only if one half of the eighteen table bytes names it and the switch bit of that half is 0 |
| `Sensors.KindsExactly` | src/repeat_comm.cpp:1404-1426 | 1 to 8 are human groups, 9 to 12 water, 13 gas, and nothing else is a sensor |
| `Sensors.OccupiedFromBytes` | src/repeat_comm.cpp:1437-1491 | the same for an air conditioner, from the four bytes that bind human groups to it |
| `Sensors.CurtainFromBytes` | src/repeat_comm.cpp:1493-1518 | and the halves of the four bytes that name the sensors of curtains 1 to 8 |

## Left out

- Realloc: requires that the new capacity fits an `int`; the source multiplies without a check, and `Buffers.OverflowExactly` says when that goes wrong.
- Put: requires the same bound when it has to grow.
- OnReceive: requires that bound only for announced lengths above 357913769; the error return -1 of `Read`, which the source passes on to `move_pos`, is not part of the model; `Flush` and the LED are left out.
- Modbus `GetPacket`: it is the RS-485 one over again.
- WaitPop: a wait on the empty queue is one entry of the scripted surroundings, however long it lasts; the receiving thread pushes during waits only.
- WaitResponse: time is counted in waits, not milliseconds.
- BuildPacket: in `ModbusFrames` more than 249 data bytes are excluded, since the source then writes behind its struct.
- PacketVaild: in `ModbusFrames` other commands than 0x03 and 0x10 are excluded, since the source aborts on them.
- Transform: requests carry at most 255 data bytes, the range of the length parameter.
- YmodemSend: the file memory is taken to end on a packet boundary, since `send_packet` always reads 128 bytes; sizes are below 2^32. When the scripted input ends every wait times out, so endless repetitions are not covered.
- AlwaysInStep: the receiver takes EOT only as a transmission of one byte; the line may lose a transmission, or damage it as `YmodemFormat.DamageRejected` lists, and may turn a reply into anything but an ACK.
- CodesAlways: for callers that ask for saving only with the four queries, as all callers in the source do.
- Run: the polling loop is followed between two changes of the device list; an exception for an invalid address cannot occur for listed addresses, and one while the fire alarm is told counts as not acknowledged. Sleeps are left out.
- Input: a failed `assert` and an exception both count as rejection; the sections `IniConfigParser` has read before a rejection are not described.
- Buffer assignment: `operator=` allocates before it copies, so assigning a buffer to itself loses its bytes and it never frees the old memory; the model has the copy constructor only.
- Whether the cache order agrees with the bus order: the bus lock is released before the cache lock is taken, so an older reply can replace a newer one; freshness is stated for sequential runs.
- A receiving thread between the pop and the push of `SendResponseFrame`: runs of the request queue are made of atomic steps.
- The encoders of the single device commands, `InnerProcess`, price and metering setters, floating-point conversions: field copying.
- `HumanSenToDev`: it reads the binding bytes in the other direction and is no inverse of `IsHasManByXinfeng`.
- Serial port, GPIO, sockets, files, clocks, network settings, logging, the XML-RPC server: input and output.
- The 1K-block branches of ymodem.c (`_ALWAY_128` is defined), the 32-bit CRC, the other Python CRC modules.
- The packed C struct is an image of 262 bytes held by value; `std::map` is walked in an unspecified order.
