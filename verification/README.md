# A verified model of the CardEmu and OpenCT smart-card stack

The stack talks to a smart card through a reader. A host driver (`ifd-cardemu.c`) exchanges small
checksummed frames with an Arduino firmware; beside it the OpenCT engine speaks T=1, T=0 and
synchronous protocols, walks answers to reset, keeps a lock table, and serves clients over sockets
with its own packet and tag-length-value formats. This project models those parts in Dafny and
proves what they are for. `dafny verify dfyconfig.toml` checks everything.

What the source does in place is modelled in place: classes with the source's fields and loops
(`T1Protocol.T1`, `Firmware.Device`, `Buffer.CtBuf`, `Packet.Socket`, `Tlv.Builder`, `T0.Protocol`,
`Atr.Slot`, `Atr.AtrInfo`, `Locks.LockTable` with its linked nodes, `SyncWrite.Driver`). Each method
is tied by its contract to a function on values, and the theorems are about those functions, so that
they hold for every input, every run and every schedule.

| file | what it models |
|---|---|
| Bytes, Checksum, CheckValues | bytes and bits; CRC-8, CRC-16 and LRC against bit-serial registers, and their published check values |
| T1Block, T1Session | T=1 blocks, the `t1_transceive` loop as steps |
| T1Heard, T1Safety | which blocks stood on the line, and what holds against any card |
| T1Rules | what `t1_transceive` sends for each block it hears, by control byte |
| T1Card, T1Conformance | a card that follows ISO/IEC 7816-3:2006 sections 11.6.2 and 11.6.3, and the proof that T=1 over it is a plain call |
| T1Protocol, T1Control | the protocol object and the loop as written, tied to T1Session; its other operations, seen on the line |
| SerialFrame, SerialReceive | frames of the serial protocol, built and received on both sides |
| Firmware, HostDriver, SerialLink | the device's and the host's state machines, and both together |
| SerialCalls, HostRetries | each request by number, a reset from end to end; how often the host tries |
| Buffer, Packet, Tlv | the compacting buffer, packets over a fragmented stream, the TLV builder and parser |
| T0 | the T=0 procedure-byte loop, section 10.3.3 |
| Atr, AtrFormat | the four walks over an answer to reset, section 8.2, and answers put together as that section lays them out |
| Locks | the lock table as a linked list, and mutual exclusion over every run |
| SyncWrite | paged, verified writes to memory cards |

Outside the model lie clocks, randomness, devices and the kernel. They are parameters: what the
card or line delivers (bytes, pauses, failing reads), which writes go through and how far, the
challenges of a resync, whether memory can be allocated. A timeout is seen only when the line is idle.

Where the source falls short of what one might expect of it, the model keeps the source, and a lemma
says exactly when the expectation is met, most with an input on which it is not:

- `T0.ReceivesExactly`: on ACK the receiving side takes as many bytes as its room holds, so a NULL
  between data and status is taken for SW1 (`T0.NullTakenForStatus`), and a card that ends early is
  not understood.
- `T0.OverrunExactly`, `T0.SendingOverruns`, `HostDriver.OverrunExactly`: when SW2, or a part of an
  ATR, is written behind its buffer. `Buffer.CtBuf.GetLine`: when a line is, with a size of 0.
- `T1Safety.BlocksFitExactly`, `T1Protocol.ResyncRequestFits`: when a block fits its buffer.
- `T1Block.ReceiveSound`: en bloc, `t1_xcv` receives over the block just sent and nothing compares what
  came with the length byte, so an incomplete delivery is completed with the host's own bytes. One byte
  can make `t1_transceive` return the host's command as the answer (`T1Safety.CommandReturned`), and two
  can make an IFSD agreed on (`T1Protocol.AgreedWithItself`).
- `T1Safety.AnyCard`: a call can succeed with part of the command never sent (`T1Safety.ChainCutShort`),
  or with none of it acknowledged (`T1Safety.AnsweredDuringResync`).
- `T1Safety.AcksExactly`: which R-blocks make the host drop bytes. While it waits for the answer to a
  resync request its own number is 0 already, so that an R-block that asks for the last block again
  can count as its acknowledgement (`T1Safety.AckDuringResync`).
- `T1Conformance.OnUnreadable`: a checksum error after part of a chain was acknowledged leads to a
  resync, not a repetition. After a resync `t1_transceive` goes on from where the send buffer stands
  (proto-t1.c:310-319), so nothing is claimed about delivery of a whole command across a resync.
- `Locks.UnlockIsExact`: an unlock removes all the locks it names only while handles are not given twice,
  as they are after 2^32 (`Locks.HandleTwice`).
- `Tlv.SurvivesExactly`: a small tag lets 256 to 266 bytes through and wraps their length.
- `Atr.CheckByteIff`: the reader looks for a check byte by the last TD byte only.
- `Atr.ReadParses`: answers that the reader completes and the parser rejects.
- `SyncWrite.TrustedExactly`: the result of a read-back is not looked at, so one that fails may pass
  for a verified write.

## Model

| member | source | states |
|---|---|---|
| Checksum.Table8IsSerial | ArduinoCardEmu/crc8.cpp:14-47 | every entry of the 256-entry CRC-8 table is eight shifts of its index by the polynomial 0x31 |
| Checksum.Table16IsSerial | OpenCTDriver/src/ifd/checksum.c:21-54 | every entry of the CRC-16 table is eight shifts by the reflected polynomial 0x8408 |
| Checksum.TableStepIsSerial | OpenCTDriver/src/ifd/checksum.c:79-81 | one table step equals taking in the byte bit by bit |
| Checksum.Crc8 | ArduinoCardEmu/crc8.cpp:49-55 | the loop computes the bit-serial CRC-8 from 0xFF, for messages of every length |
| Checksum.LrcCompute | OpenCTDriver/src/ifd/checksum.c:59-69 | the loop computes the exclusive-or of all bytes |
| Checksum.CrcCompute | OpenCTDriver/src/ifd/checksum.c:74-89 | the loop computes the bit-serial ISO 3309 register from 0xFFFF, high byte first |
| Checksum.FoldDiffers | OpenCTDriver/src/ifd/checksum.c:59-89 | a register that loses nothing tells apart any two messages that differ in one place |
| Checksum.Crc8Differs | OpenCTDriver/src/ifd/ifd-cardemu.c:46-52 | one changed byte changes the CRC-8, wherever it is |
| Checksum.SumDiffers | OpenCTDriver/src/ifd/checksum.c:59-89 | one changed byte changes the LRC and the CRC-16 |
| CheckValues.CheckValuesHold | OpenCTDriver/src/ifd/checksum.c:59-89 | of "123456789" the CRC-8 is F7, the LRC 31, and the CRC-16 6F91 with its high byte first |
| T1Block.ChangedBlockFailsCheck | OpenCTDriver/src/ifd/proto-t1.c:506-522 | a valid block with one byte changed, payload or checksum, fails `t1_verify_checksum` under both checksums |
| T1Block.FrameInBuffer | OpenCTDriver/src/ifd/proto-t1.c:446-478 | a built block, laid over any old buffer content, has its fields where the receiver looks and passes the check |
| T1Block.FrameIsReceived | OpenCTDriver/src/ifd/proto-t1.c:527-586 | a frame comes through `t1_xcv` unchanged if and only if its payload passes: on a serial line up to 253 bytes; en bloc up to one byte more than the IFSD, within the frame buffer |
| T1Block.ReceiveSound | OpenCTDriver/src/ifd/proto-t1.c:506-586 | a block that passes the check stood on the line, as a frame at the start of what was read, if and only if the delivery had a header and all the bytes it announces; on a serial line it always did |
| T1Safety.BuiltIBlock | OpenCTDriver/src/ifd/proto-t1.c:446-478 | an I-block carries min(ifsc, left) bytes and its more bit is set exactly when more remain |
| T1Safety.OnRKeeps | OpenCTDriver/src/ifd/proto-t1.c:245-275 | handling any R-block keeps the invariant of the loop: bytes leave the send buffer only if the block asks for another number than that of the last I-block sent, or than 0 after a resync request |
| T1Safety.OnIKeeps | OpenCTDriver/src/ifd/proto-t1.c:277-307 | handling any I-block keeps it: what is stored is the block in the buffer when the check passed, and its number is not that of the one stored before; the first I-block acknowledges what was sent |
| T1Safety.OnSKeeps | OpenCTDriver/src/ifd/proto-t1.c:309-359 | handling any S-block keeps it |
| T1Safety.StepKeeps | OpenCTDriver/src/ifd/proto-t1.c:221-376 | every turn of the loop, whatever is received, keeps conservation of the command, earned acknowledgements, the next-bytes rule with the size the card last asked for, alternating numbers of the blocks stored, what of the command remains, and the resync budget; only a failed call is DEAD |
| T1Safety.RunKeeps | OpenCTDriver/src/ifd/proto-t1.c:221-384 | the same over every run, from any point |
| T1Safety.AnyCard | OpenCTDriver/src/ifd/proto-t1.c:194-384 | a whole call against any card: acknowledged payloads and what is left make up the command, and each acknowledgement is one by the block heard before it; each I-block carried the next bytes; what is returned are payloads of blocks heard whose numbers alternate, and fits; blocks heard come from the deliveries, in order, and stood there exactly if complete; resync requests are at most 3 times (1 + accepted answers); it fails exactly into DEAD; nothing is left exactly if the last I-block has no more bit and, unless empty, was acknowledged, which at success without a resync request it was |
| T1Heard.StepHears | OpenCTDriver/src/ifd/proto-t1.c:221-243 | one turn hears the block of its own delivery or none |
| T1Heard.RunHears | OpenCTDriver/src/ifd/proto-t1.c:221-384 | the blocks heard in a run were read from the deliveries, each from its own and in their order |
| T1Safety.SaidByTheCard | OpenCTDriver/src/ifd/proto-t1.c:194-384 | every stored payload and every acknowledging block of a call was read from one of the deliveries, and stood there if and only if it was complete; on a serial line it was |
| T1Safety.CommandReturned | OpenCTDriver/src/ifd/proto-t1.c:549-560 | en bloc with equal counters and a one-byte checksum: a delivery of the checksum of nothing, one zero byte with the LRC, makes the call return its own command |
| T1Safety.ChainCutShort | OpenCTDriver/src/ifd/proto-t1.c:277-307 | an I-block in answer to the first block of a chain ends the call well, with the rest of the command never sent |
| T1Safety.AnsweredDuringResync | OpenCTDriver/src/ifd/proto-t1.c:277-319 | so does one while the answer to a resync request is awaited, with nothing acknowledged |
| T1Safety.NeverStoredTwice | OpenCTDriver/src/ifd/proto-t1.c:277-307 | between resync requests, a block with the number of the last one stored is never stored |
| T1Safety.AcksExactly | OpenCTDriver/src/ifd/proto-t1.c:258-275 | an R-block makes the host drop bytes if and only if it reports no error, the host is not receiving, it asks for another number than the host's own, and bytes are under way |
| T1Safety.AckDuringResync | OpenCTDriver/src/ifd/proto-t1.c:309-359 | a run in which the card asks for the block sent last and the host takes it for acknowledged, because a resync request has reset its number |
| T1Safety.BlocksFitExactly | OpenCTDriver/src/ifd/proto-t1.c:446-478 | every I-block fits the 259 bytes of the frame buffer if and only if ifsc + 3 + checksum bytes do |
| T1Safety.NothingOverruns | OpenCTDriver/src/ifd/proto-t1.c:194-384 | over a whole call no block overruns the frame buffer if the sizes in force fit; with the LRC no size a card asks for can change that |
| T1Rules.ControlBytes | OpenCTDriver/src/ifd/proto-t1.c:421-444 | I-, R- and S-blocks by number, with what each bit of the control byte says |
| T1Rules.ErrorReported | OpenCTDriver/src/ifd/proto-t1.c:245-251 | an R-block with an error leads to a resync request, or without budget to failure |
| T1Rules.AskedWhileReceiving | OpenCTDriver/src/ifd/proto-t1.c:253-257 | an R-block while the card answers is met with the R-block for the number expected |
| T1Rules.AskedWhileSending | OpenCTDriver/src/ifd/proto-t1.c:258-275 | another number than the host's drops the bytes under way; then the next I-block, or a resync if nothing is left |
| T1Rules.WrongNumber | OpenCTDriver/src/ifd/proto-t1.c:277-295 | an I-block with the other number is refused with error 2 and nothing is stored |
| T1Rules.RightNumber | OpenCTDriver/src/ifd/proto-t1.c:296-307 | one with the expected number is stored if there is room, and the next asked for if more comes |
| T1Rules.RequestAnswered | OpenCTDriver/src/ifd/proto-t1.c:325-358 | each of the sixteen requests: size and waiting time are granted and answered in kind, abort is answered, all others and size 0 lead to a resync |
| T1Rules.ResponseTaken | OpenCTDriver/src/ifd/proto-t1.c:309-323 | a response restarts a resync from what is left, with all tries and three resyncs again, and is an error otherwise |
| T1Rules.NotReadable | OpenCTDriver/src/ifd/proto-t1.c:233-241 | a block that fails the check is asked for again with error 1, unless the tries, counted in 32 bits, are used up or part of a chain was acknowledged |
| T1Rules.ThreeResyncs | OpenCTDriver/src/ifd/proto-t1.c:359-369 | a call survives three resyncs in a row and not a fourth |
| T1Conformance.HostAnswersRequest | OpenCTDriver/src/ifd/proto-t1.c:325-358 | a WTX or IFS request is answered in kind, its value is taken over, and nothing else in the conversation moves |
| T1Conformance.OnAcknowledge | OpenCTDriver/src/ifd/proto-t1.c:258-275 | the R-block that acknowledges a chained block makes the host send the next part, and the card takes exactly that |
| T1Conformance.OnPiece | OpenCTDriver/src/ifd/proto-t1.c:277-307 | a piece of the answer is stored once and either ends the call or makes the card send the next one |
| T1Conformance.OnUnreadable | OpenCTDriver/src/ifd/proto-t1.c:233-241 | an unreadable block leads to a request for repetition exactly when retries last and no part of a chain was acknowledged; otherwise to a resync or, without budget, failure |
| T1Conformance.CardRepeats | OpenCTDriver/src/ifd/proto-t1.c:233-241 | the error R-block makes the card repeat its last block and nothing else |
| T1Conformance.Round | OpenCTDriver/src/ifd/proto-t1.c:221-376 | one exchange over a disturbed link keeps host and card in the same conversation and brings it nearer its end, or ends it well |
| T1Conformance.Converse | OpenCTDriver/src/ifd/proto-t1.c:221-384 | from any point of the conversation to its end in finitely many exchanges |
| T1Conformance.TransceiveIsACall | OpenCTDriver/src/ifd/proto-t1.c:194-384 | for every non-empty command, every ifsc in 1..254, any interposed requests, and a card that takes no block longer than it last asked for, the card executes exactly the command once, the host returns exactly its answer if it fits, sequence numbers end in step; unreadable replies within the retries change nothing, at any point for a one-block command, and before the first acknowledgement for a chain; no resync is sent |
| T1Conformance.AnyNumberOfCalls | OpenCTDriver/src/ifd/proto-t1.c:194-384 | any sequence of transceives, each with disturbances that one call tolerates: commands executed once, in order, each call returning its own answer |
| T1Protocol.StepSends | OpenCTDriver/src/ifd/proto-t1.c:221-376 | each turn that goes on has built exactly one block, which is the next one sent |
| T1Protocol.T1.SetParam | OpenCTDriver/src/ifd/proto-t1.c:139-166 | each parameter sets its field only; state and counters stay, also in DEAD |
| T1Protocol.T1.Xcv | OpenCTDriver/src/ifd/proto-t1.c:527-586 | both ways of receiving, as written: sends one block, receives into the same buffer what the line delivers, prolongs the first wait by wtx seconds and clears wtx |
| T1Protocol.T1.OnRBlock | OpenCTDriver/src/ifd/proto-t1.c:245-275 | the branch as written does what the step function says for R-blocks |
| T1Protocol.T1.OnIBlock | OpenCTDriver/src/ifd/proto-t1.c:277-307 | the same for I-blocks |
| T1Protocol.T1.OnSBlock | OpenCTDriver/src/ifd/proto-t1.c:309-359 | the same for S-blocks |
| T1Protocol.T1.Turn | OpenCTDriver/src/ifd/proto-t1.c:221-376 | one turn of the loop is one step, and sends exactly the block built before |
| T1Protocol.T1.Transceive | OpenCTDriver/src/ifd/proto-t1.c:194-384 | the loop as written has the result, state, counters and blocks sent of the specified run; an empty command or a DEAD protocol returns -1 and sends nothing |
| T1Protocol.T1.Resynchronize | OpenCTDriver/src/ifd/proto-t1.c:386-420 | at most three requests, each the same four bytes; 0 exactly when one is answered, else DEAD; never out of DEAD; what is left on the line is what it did not read |
| T1Protocol.T1.NegotiateIfsd | OpenCTDriver/src/ifd/proto-t1.c:588-642 | agreement keeps the state, a lost line is DEAD, refusal resynchronizes; never out of DEAD; the blocks sent are the repeated request and then those of the resync |
| T1Protocol.T1.RequestResync | OpenCTDriver/src/ifd/proto-t1.c:386-420 | the loop over resync requests, tied to the number of requests, the answer and what is left on the line |
| T1Protocol.T1.OfferIfsd | OpenCTDriver/src/ifd/proto-t1.c:588-642 | the loop of the negotiation, in the same way |
| T1Protocol.AgreedByTheCard | OpenCTDriver/src/ifd/proto-t1.c:588-642 | an agreement was read from one of the deliveries and stood there if and only if that was complete |
| T1Protocol.AgreedWithItself | OpenCTDriver/src/ifd/proto-t1.c:588-642 | two bytes that make the host agree with itself, en bloc |
| T1Protocol.ResyncRequestFits | OpenCTDriver/src/ifd/proto-t1.c:386-420 | the resync request fits its four-byte array if and only if the checksum has one byte |
| T1Control.ResyncExactly | OpenCTDriver/src/ifd/proto-t1.c:386-420 | 0 with the state kept if and only if one of the first three deliveries is the four-byte answer with only four-byte deliveries before it; otherwise -1 and DEAD; up to three equal requests |
| T1Control.SilentCard | OpenCTDriver/src/ifd/proto-t1.c:386-420 | after a resync on a silent card the next transceive fails without sending |
| T1Control.NegotiationEnds | OpenCTDriver/src/ifd/proto-t1.c:588-642 | whatever blocks come first, the answer decides: agreed on the size asked for, the state stays; any other is -1, and DEAD if and only if no resync is answered |
| T1Control.NegotiationCutOff | OpenCTDriver/src/ifd/proto-t1.c:588-642 | a lost line is -1 and DEAD |
| T1Control.FirstBlock | OpenCTDriver/src/ifd/proto-t1.c:194-219 | the first block of a command has min(ifsc, length) bytes and the more bit if that is not all |
| T1Control.ParamsTake | OpenCTDriver/src/ifd/proto-t1.c:139-166 | what each parameter changes, seen on the line |
| T1Control.WhatIsReturned | OpenCTDriver/src/ifd/proto-t1.c:194-384 | an empty command is refused; otherwise the length of what was received is returned, or -1 and DEAD |
| T1Control.TransceiveReturns | OpenCTDriver/src/ifd/proto-t1.c:194-384 | the protocol object over a conforming card returns exactly its answer |
| T1Protocol.DeadForever | OpenCTDriver/src/ifd/proto-t1.c:139-642 | over any sequence of parameter changes, transceives, resynchronizations and IFSD negotiations, and any card, DEAD stays DEAD, and every transceive among them returns -1, sends nothing and changes nothing |
| T1Protocol.FailsIntoDead | OpenCTDriver/src/ifd/proto-t1.c:194-384 | a transceive of a non-empty command returns -1 if and only if the protocol is DEAD after it |
| SerialFrame.CopyPayload | OpenCTDriver/src/ifd/ifd-cardemu.c:144-153 | copying in either direction moves the old bytes, for every overlap of source and destination |
| SerialFrame.CommMessage | OpenCTDriver/src/ifd/ifd-cardemu.c:140-164 | the frame built in place is header, original payload and CRC, whatever the overlap; an oversize payload leaves memory alone |
| SerialFrame.ChangedFrameFailsVerify | OpenCTDriver/src/ifd/ifd-cardemu.c:127-138 | a valid frame with one byte changed fails `comm_verify` |
| SerialFrame.MessageVerifies | OpenCTDriver/src/ifd/ifd-cardemu.c:127-164 | what `comm_message` builds passes `comm_verify` |
| SerialReceive.ReceiveRequest | ArduinoCardEmu/comm_helper.cpp:64-133 | the receive loop decodes what the specification says from any line of bytes and pauses, or waits |
| SerialReceive.RequestRoundTrip | ArduinoCardEmu/comm_helper.cpp:64-133 | every legal request is decoded to itself, whatever follows |
| SerialReceive.RequestSound | ArduinoCardEmu/comm_helper.cpp:64-133 | nothing else is decoded: a request that is not Invalid was read from exactly its own frame |
| SerialReceive.RequestsRoundTrip | ArduinoCardEmu/comm_helper.cpp:64-133 | any row of legal requests sent back to back is decoded to the same row |
| SerialReceive.CommRecvMessage | OpenCTDriver/src/ifd/ifd-cardemu.c:193-226 | the host's receive loop computes the specified answer from any line |
| SerialReceive.AnswerRoundTrip | OpenCTDriver/src/ifd/ifd-cardemu.c:97-226 | a legal answer is accepted unchanged, whatever follows |
| SerialReceive.AnswerSound | OpenCTDriver/src/ifd/ifd-cardemu.c:97-226 | whatever is accepted is a legal frame, and it is exactly the bytes read off the line; what is left is the rest of the line |
| SerialReceive.AnswersRoundTrip | OpenCTDriver/src/ifd/ifd-cardemu.c:193-226 | any row of legal answers is accepted unchanged |
| SerialReceive.SendAnswer | ArduinoCardEmu/comm_helper.cpp:139-162 | the device sends exactly the frame, and nothing for an oversize payload |
| Firmware.ResyncExit | ArduinoCardEmu/main_loop.cpp:45-93 | on arbitrary input, `resync()` returns exactly when a Resync is directly followed by a ResyncComplete, which are then the last two requests it decoded, and its last replies are the echo and the Ok |
| Firmware.ResyncRunHandshake | ArduinoCardEmu/main_loop.cpp:49-92 | the loop ends at the first completed handshake and not before |
| Firmware.ResyncRunReplies | ArduinoCardEmu/main_loop.cpp:49-92 | the last things sent after a completed handshake are the echo and the Ok |
| Firmware.Device.AnswerInResync | ArduinoCardEmu/main_loop.cpp:53-91 | one request in `resync()`: reply, new resyncState, and whether it returns |
| Firmware.Device.ResyncLoop | ArduinoCardEmu/main_loop.cpp:45-93 | the loop as written is the specified run |
| Firmware.Device.CardReset | ArduinoCardEmu/main_loop.cpp:103-121 | sends the length frame and then parts of at most 14 bytes, in order |
| Firmware.Device.Loop | ArduinoCardEmu/main_loop.cpp:123-218 | one pass of `loop()`: the switch, and on failure the pending write is dropped and `resync()` entered |
| HostDriver.SyncedIsConfirmed | OpenCTDriver/src/ifd/ifd-cardemu.c:235-333 | whatever it receives, `resync` returns 1 only after one attempt saw a pause, the empty echo, its own 14 challenge bytes echoed, and then an Ok |
| HostDriver.ResyncSafe | OpenCTDriver/src/ifd/ifd-cardemu.c:235-333 | on arbitrary input and with any sends failing: if `resync` returns 1, the challenge frame of that attempt was sent, and from the input after it the frame that echoes it and then the Ok frame were read, with RESYNC_COMPLETE sent between them |
| HostDriver.Resync | OpenCTDriver/src/ifd/ifd-cardemu.c:235-333 | the loop as written has the result, the bytes sent, the sends used up and the rest of the input of the specified run |
| HostDriver.TryResync | OpenCTDriver/src/ifd/ifd-cardemu.c:239-330 | one attempt: what it sends and reads is that part of the run |
| HostDriver.Drain | OpenCTDriver/src/ifd/ifd-cardemu.c:248-257 | reads away bytes until the line pauses, or gives the attempt up, leaving the input the run leaves |
| HostDriver.CollectParts | OpenCTDriver/src/ifd/ifd-cardemu.c:482-498 | the loop collects the parts of an ATR as specified, and says when a part is longer than what remains |
| HostDriver.OverrunExactly | OpenCTDriver/src/ifd/ifd-cardemu.c:482-498 | whatever parts a device sends, if they are enough: the ATR is complete if and only if some first parts make up its length exactly; otherwise a part is written behind the buffer and the 8-bit remainder wraps |
| HostDriver.ResetLoop | OpenCTDriver/src/ifd/ifd-cardemu.c:461-508 | all tries of a reset, with a resync after each that fails: outcome, bytes sent and rest of the input |
| HostDriver.CardReset | OpenCTDriver/src/ifd/ifd-cardemu.c:454-517 | the slot check, the tries and the copy: hands out the first min(size, length) bytes of the ATR it read, or fails |
| SerialLink.PartsArrive | OpenCTDriver/src/ifd/ifd-cardemu.c:482-498 | the parts sent are put together to exactly the ATR |
| SerialLink.AtrArrives | OpenCTDriver/src/ifd/ifd-cardemu.c:478-513 | for every ATR of 0 to 255 bytes, what the device sends is read back as that ATR |
| SerialLink.PartsSize | ArduinoCardEmu/main_loop.cpp:110-120 | an ATR is sent in as few parts as there can be: two bytes more for every 14 |
| SerialCalls.ResetArrives | OpenCTDriver/src/ifd/ifd-cardemu.c:454-517 | end to end: the host's reset request makes the device send bytes from which the host hands out exactly the card's ATR, with nothing left over |
| SerialCalls.CardStatusServed | ArduinoCardEmu/main_loop.cpp:130-153 | by number: query, deactivation and reset, with their answers and the card in or out |
| SerialCalls.StatusRemembered | ArduinoCardEmu/main_loop.cpp:130-153 | over any row of queries, resets and deactivations the last of them but for queries decides what a query is told |
| SerialCalls.SendServed | ArduinoCardEmu/main_loop.cpp:174-200 | by number: data are announced in two bytes, low one first, and accepted while some are pending |
| SerialCalls.OthersServed | ArduinoCardEmu/main_loop.cpp:154-173 | by number: commit unless data are pending, read, read complete |
| SerialCalls.ResyncServed | ArduinoCardEmu/main_loop.cpp:45-93 | by number: the resync requests, in `resync()` and outside it |
| SerialCalls.OthersInResync | ArduinoCardEmu/main_loop.cpp:45-93 | every other request, and bytes that begin none, are notified and undo the handshake |
| SerialCalls.Serve | ArduinoCardEmu/main_loop.cpp:123-218 | `loop()` as written, run until it waits, serves what came |
| SerialLink.HostKeeps | OpenCTDriver/src/ifd/ifd-cardemu.c:239-330 | a host step keeps the two-party invariant, stale bytes on both ways included, and lowers the rank |
| SerialLink.DeviceKeeps | ArduinoCardEmu/main_loop.cpp:45-93 | a device step keeps it and lowers the rank, from `loop()` or either resyncState |
| SerialLink.SchedulesKeep | OpenCTDriver/src/ifd/ifd-cardemu.c:235-333 | every schedule keeps it, with a bound on the steps |
| SerialLink.ResyncConverges | OpenCTDriver/src/ifd/ifd-cardemu.c:235-333 | under every schedule and for every challenge, each of the ten attempts that begins so ends with the host synced, the device in `loop()` with no pending write, and both queues empty, with any stale bytes on both ways, as long as those for the host and all that the device can send for the others are fewer than 4096 |
| SerialLink.DeviceAnswers | ArduinoCardEmu/main_loop.cpp:45-218 | what the device takes of the bytes that came, and sends for it, is counted exactly |
| SerialLink.RepliesAtMostBound | ArduinoCardEmu/main_loop.cpp:45-218 | whatever comes, the device sends at most 100 bytes for each stale one, and 200 more |
| SerialLink.FewAreHarmless | OpenCTDriver/src/ifd/ifd-cardemu.c:235-333 | so 38 arbitrary stale bytes to the device, with up to 95 back, are harmless |
| SerialLink.GarbageEndsAttempt | OpenCTDriver/src/ifd/ifd-cardemu.c:239-257 | with 4096 bytes or more the attempt ends after just 4096, and the next begins |
| HostRetries.GivesUpAfterTen | OpenCTDriver/src/ifd/ifd-cardemu.c:239-333 | on a silent line ten attempts, with two requests each |
| HostRetries.UnsentRequest | OpenCTDriver/src/ifd/ifd-cardemu.c:243-313 | a send that fails ends the attempt, whichever it is, and the next begins |
| HostRetries.AnswerDecides | OpenCTDriver/src/ifd/ifd-cardemu.c:266-327 | each answer is right only as the very frame due, and otherwise the next attempt begins |
| HostRetries.AtrAnswerDecides | OpenCTDriver/src/ifd/ifd-cardemu.c:473-491 | the ATR is read from answers of type 2 only |
| HostRetries.FailedTry | OpenCTDriver/src/ifd/ifd-cardemu.c:464-501 | a reset that fails is followed by a resync, and by another try exactly if that succeeded |
| HostRetries.TryEnds | OpenCTDriver/src/ifd/ifd-cardemu.c:464-513 | one that does not fail ends the reset, with the ATR or with an overrun |
| HostRetries.OverrunReported | OpenCTDriver/src/ifd/ifd-cardemu.c:482-498 | parts of any sizes, end to end: the ATR if some first parts make it up, an overrun otherwise |
| HostRetries.ThreeResets | OpenCTDriver/src/ifd/ifd-cardemu.c:464 | three tries |
| Buffer.PutLaw | OpenCTDriver/src/ct/buffer.c:72-84 | a put fails exactly when contents and data exceed the size, and then keeps the contents; it compacts exactly if the data do not fit behind them |
| Buffer.GetAndPushLaw | OpenCTDriver/src/ct/buffer.c:33-94 | when a get and a push fail, and what each moves |
| Buffer.PushUndoesGet | OpenCTDriver/src/ct/buffer.c:33-94 | pushing back what a get took restores the queue |
| Buffer.GetsTakesOneLine | OpenCTDriver/src/ct/buffer.c:43-70 | gets consumes exactly the first line and its newline, however small the caller's buffer, and returns as much of it as fits; all of it with a size of 0 |
| Buffer.Fifo | OpenCTDriver/src/ct/buffer.c:33-158 | over any trace of get, put, gets, compact and push, where a push gives back the last bytes taken: bytes taken and not given back, followed by the contents, are the old contents followed by the bytes added |
| Buffer.CtBuf.GetBytes | OpenCTDriver/src/ct/buffer.c:33-41 | moves head as the queue specification says |
| Buffer.CtBuf.PutBytes | OpenCTDriver/src/ct/buffer.c:72-84 | compacts when needed, appends or marks an overrun |
| Buffer.CtBuf.PushBytes | OpenCTDriver/src/ct/buffer.c:86-94 | writes before the head if the gap takes it |
| Buffer.CtBuf.GetLine | OpenCTDriver/src/ct/buffer.c:43-70 | both loops together take one line; as much of it as fits, and a NUL, stand in the caller's array, which is overrun if and only if the size is 0 and the line as long as the array |
| Buffer.CtBuf.Compact | OpenCTDriver/src/ct/buffer.c:147-158 | the contents move to the start unchanged |
| Packet.HeaderRoundTrip | OpenCTDriver/src/ct/socket.c:412-500 | a header is read back as written, in both byte orders |
| Packet.HeaderLayout | OpenCTDriver/src/ct/socket.c:432-438 | the twelve bytes of a header, on hosts of both orders, with error and count in network order where asked for |
| Packet.NextPacket | OpenCTDriver/src/ct/socket.c:463-500 | with 12 bytes there, the header read is that of the next packet sent |
| Packet.TakeDecides | OpenCTDriver/src/ct/socket.c:463-500 | taken exactly when all its bytes are there, given up exactly when they are not and never fit |
| Packet.PutDecides | OpenCTDriver/src/ct/socket.c:412-444 | put behind what is there if it fits, otherwise all of that is written first |
| Packet.TakeKeeps | OpenCTDriver/src/ct/socket.c:463-500 | taking delivers the next packet or leaves everything; when it is incomplete the next fill has room |
| Packet.SendKeeps | OpenCTDriver/src/ct/socket.c:412-444 | putting a packet that fits always succeeds, flushing if it must |
| Packet.MoveKeeps | OpenCTDriver/src/ct/socket.c:510-607 | partial writes and reads lose nothing and keep the order |
| Packet.RunKeeps | OpenCTDriver/src/ct/socket.c:412-607 | the bytes under way are the packets not yet received, over every run |
| Packet.StreamRoundTrip | OpenCTDriver/src/ct/socket.c:412-607 | for any packets and any fragmentation, what is received is a prefix of what was sent, and all of it exactly when no byte is under way |
| Packet.Drains | OpenCTDriver/src/ct/socket.c:412-607 | from any point, writing, reading and taking alone deliver all the rest |
| Packet.Socket.FlushBuffer | OpenCTDriver/src/ct/socket.c:568-607 | bytes only move from the buffer to the kernel, in order, also when a write fails |
| Packet.Socket.SendPacket | OpenCTDriver/src/ct/socket.c:412-444 | on success exactly the packet's frame follows what was there; on an error nothing is added |
| Packet.Socket.ReceivePacket | OpenCTDriver/src/ct/socket.c:463-500 | takes a packet as specified: 1, 0 or -1 |
| Packet.Socket.FillBuffer | OpenCTDriver/src/ct/socket.c:510-563 | bytes only move from the kernel to the buffer; -1 if there is no room at all, the timeout error if nothing comes in time |
| Tlv.ParseEncoded | OpenCTDriver/src/ct/tlv.c:24-60 | a sendable item is parsed back, with both tag sizes |
| Tlv.ItemLayout | OpenCTDriver/src/ct/tlv.c:186-241 | an item in memory, byte by byte |
| Tlv.MeetsWhatWasBuilt | OpenCTDriver/src/ct/tlv.c:33-40 | the parser learns of large tags exactly from items built with them |
| Tlv.SurvivesExactly | OpenCTDriver/src/ct/tlv.c:186-241 | an item survives the wire if and only if its tag lacks bit 0x40 and its value is neither empty nor longer than the length field holds |
| Tlv.SmallTagWrapsLength | OpenCTDriver/src/ct/tlv.c:231-235 | 256 bytes under a small tag pass the builder's limit and do not parse |
| Tlv.ItemsRoundTrip | OpenCTDriver/src/ct/tlv.c:24-60 | any list of sendable items parses back to itself |
| Tlv.LookupLast | OpenCTDriver/src/ct/tlv.c:53-56 | each tag holds the value of the last item with it |
| Tlv.Parser.Parse | OpenCTDriver/src/ct/tlv.c:24-60 | the loop leaves under each tag what the parsed items say; 0 exactly when all is well formed, and then the buffer is used up |
| Tlv.IntRoundTrip | OpenCTDriver/src/ct/tlv.c:82-159 | getting inverts putting, for every 32-bit value of the shortest encoding |
| Tlv.IntLayout | OpenCTDriver/src/ct/tlv.c:144-159 | the fewest bytes that hold the value, the highest first |
| Tlv.IntReading | OpenCTDriver/src/ct/tlv.c:82-98 | the number the bytes spell, as far as 32 bits hold it |
| Tlv.GetInt | OpenCTDriver/src/ct/tlv.c:82-98 | the shifting loop computes the big-endian value |
| Tlv.Builder.PutTag | OpenCTDriver/src/ct/tlv.c:186-204 | opens an item with an empty header, or fails and keeps the error |
| Tlv.Builder.AddBytes | OpenCTDriver/src/ct/tlv.c:211-241 | appends and patches the length field in place; a sticky error changes nothing |
| Tlv.Builder.PutOpaque | OpenCTDriver/src/ct/tlv.c:161-184 | appends exactly the item's encoding if room and length allow, or records an error |
| Tlv.Builder.PutInt | OpenCTDriver/src/ct/tlv.c:144-159 | appends the shortest big-endian encoding |
| Tlv.BuildsAndParses | OpenCTDriver/src/ct/tlv.c:24-241 | any list of sendable items goes into an empty buffer without error if and only if there is room for all, and is then parsed to a map where each tag has its last value |
| Tlv.PutRow | OpenCTDriver/src/ct/tlv.c:161-241 | any row of items, one after the other, with the error of the first that fails |
| Tlv.BuildAndParse | OpenCTDriver/src/ct/tlv.c:24-241 | the items are built into the memory, which then holds exactly their encodings, and parsed from it: no error, and each tag has its last value |
| T0.StepSafe | OpenCTDriver/src/ifd/proto-t0.c:236-287 | whatever byte comes, a round sends the next bytes or none, keeps what was received, counts no more than the room, and lowers NULLs left + bytes to send + room if it goes on |
| T0.RunSafe | OpenCTDriver/src/ifd/proto-t0.c:211-295 | against any card the loop ends; every byte is sent at most once and in order, and no more is counted as received than fits |
| T0.ProcedureByte | OpenCTDriver/src/ifd/proto-t0.c:236-263 | every procedure byte by number: NULL, a first status byte, INS and its complement with either last bit, and what no byte of these means |
| T0.DataAskedFor | OpenCTDriver/src/ifd/proto-t0.c:270-323 | what is sent or taken when data are asked for, and when that fails or ends the loop |
| T0.OverrunExactly | OpenCTDriver/src/ifd/proto-t0.c:236-323 | a round writes behind the room if and only if two bytes come and either SW1 fills the room, or a complemented ACK meets a full one |
| T0.SendingOverruns | OpenCTDriver/src/ifd/proto-t0.c:211-323 | while sending, a whole run overruns if and only if the room is for one byte and a status comes |
| T0.ReceivingOverruns | OpenCTDriver/src/ifd/proto-t0.c:211-323 | while receiving: a conforming card that gives one byte less than the room overruns it if and only if it gives all of them one by one |
| T0.SendsOnce | OpenCTDriver/src/ifd/proto-t0.c:211-310 | a conforming card mixing NULL, ACK and complemented ACK in any order, each with either last bit, with NULLs before the status too, gets every data byte exactly once, and its status, any of 61 to 6F and 90 to 9F, comes back |
| T0.ReceivesExactly | OpenCTDriver/src/ifd/proto-t0.c:211-323 | from a conforming card that mixes NULL, ACK and complemented ACK in any order, every data byte is stored exactly once, in order, with SW1 SW2 after it, if and only if all of them come one by one, or no NULL stands before the status and the room is filled exactly |
| T0.NullTakenForStatus | OpenCTDriver/src/ifd/proto-t0.c:270-323 | a NULL between data and status is taken for SW1, and SW1 for SW2 |
| T0.Protocol.Xcv | OpenCTDriver/src/ifd/proto-t0.c:211-295 | both branches as written: the loop has the result, state and traffic of the specified run, and a reader that frames by itself gets the command in one piece and gives what comes; a failed header is CONFUSED, an unexpected byte is -1 with the state kept |
| T0.Protocol.ByteWise | OpenCTDriver/src/ifd/proto-t0.c:211-295 | the loop over procedure bytes as written |
| Atr.CountBits | OpenCTDriver/src/ifd/utils.c:34-44 | the nibble-table loop counts the set bits of every word |
| Atr.MarksByBit | OpenCTDriver/src/ifd/atr.c:49-57 | the count of announced bytes is that of the TA, TB, TC and TD bits |
| Atr.AtrComplete | OpenCTDriver/src/ifd/reader.c:373-397 | the check as written decides completeness |
| Atr.CompleteOfPrefix | OpenCTDriver/src/ifd/reader.c:373-397 | acceptance is monotone in the length |
| Atr.CompleteExactly | OpenCTDriver/src/ifd/reader.c:373-397 | of a complete answer, exactly the prefixes of the total length or more are complete |
| Atr.DirectTwice | OpenCTDriver/src/ifd/utils.c:46-58 | conversion of the inverse convention is its own inverse and takes 03 to 3F |
| Atr.DirectBits | OpenCTDriver/src/ifd/utils.c:46-58 | each bit stands complemented at the other end |
| Atr.RevertByte | OpenCTDriver/src/ifd/utils.c:50-57 | the bit loop mirrors and complements |
| Atr.Slot.RecvAtr | OpenCTDriver/src/ifd/reader.c:343-368 | appends exactly the bytes asked for, converted, or fails for want of room or bytes |
| Atr.Slot.ReadAtr | OpenCTDriver/src/ifd/reader.c:272-317 | the byte-wise reader stops at exactly the shortest complete prefix of what the card sends, or fails because none fits |
| Atr.Select | OpenCTDriver/src/ifd/protocol.c:69-95 | the inlined walk yields the first protocol named as default and all named as supported, T=0 when none |
| Atr.AtrInfo.Store | OpenCTDriver/src/ifd/atr.c:52-57 | each announced TA, TB and TC byte goes to its own place |
| Atr.AtrInfo.Parse | OpenCTDriver/src/ifd/atr.c:11-84 | accepts exactly the parsable answers, fills in the interface bytes, and then finds the same default protocol and supported set as the walk in selection |
| Atr.ChainOfRead | OpenCTDriver/src/ifd/protocol.c:77-90 | on what the reader delivers the walk meets every TD byte, but for a bare last one without check byte |
| Atr.ReadOffers | OpenCTDriver/src/ifd/protocol.c:69-95 | so parser, selection and reader agree on the TD bytes, with that one exception |
| Atr.ReadParses | OpenCTDriver/src/ifd/atr.c:26-72 | what the reader delivers is accepted by the parser if and only if there are at most four groups and the last TD byte, if bare, names T=0 |
| Atr.CheckByteIff | OpenCTDriver/src/ifd/reader.c:299-312 | the reader expects a check byte when section 8.2.5 of ISO/IEC 7816-3:2006 does, except exactly if T=0 is named last after another protocol |
| Atr.CheckByteMissed | OpenCTDriver/src/ifd/reader.c:373-397 | an answer offering T=1 and then T=0, an order that section 8.2.3 does not allow, that is taken for complete without its check byte |
| AtrFormat.ReadBack | OpenCTDriver/src/ifd/protocol.c:69-95 | of an answer put together from any groups and protocols, selection offers exactly the protocols and prefers the first, and each interface byte stands in its place |
| AtrFormat.CompleteAtEnd | OpenCTDriver/src/ifd/reader.c:373-397 | it is complete at its very end if and only if there is a check byte exactly where the last TD byte names another protocol than T=0 |
| Locks.CheckIsExact | OpenCTDriver/src/ifd/locks.c:68-85 | the check refuses exactly the requests that would break mutual exclusion |
| Locks.RunKeepsSafe | OpenCTDriver/src/ifd/locks.c:33-131 | over every run, two locks on a slot with different owners are both shared and of one user |
| Locks.ExclusiveHolds | OpenCTDriver/src/ifd/locks.c:33-131 | whatever other clients try, the exclusive holder's lock stays and nobody else gets one on the slot |
| Locks.StepOfOther | OpenCTDriver/src/ifd/locks.c:68-108 | meanwhile every lock or unlock of another client on that slot is refused |
| Locks.UnlockUndoesLock | OpenCTDriver/src/ifd/locks.c:33-108 | unlocking with the handle granted restores the list |
| Locks.RunKeepsDistinct | OpenCTDriver/src/ifd/locks.c:51 | until the 32-bit handles run out, live locks have different ones |
| Locks.UnlockIsExact | OpenCTDriver/src/ifd/locks.c:90-108 | an unlock removes exactly the locks with its owner, slot and handle if and only if there is at most one |
| Locks.DistinctNamesOne | OpenCTDriver/src/ifd/locks.c:90-108 | with handles of their own each lock is named alone |
| Locks.HandleTwice | OpenCTDriver/src/ifd/locks.c:51 | once the handles wrap, a client can be granted a second lock under one it holds, and an unlock leaves one of the two |
| Locks.OnlyMembers | OpenCTDriver/src/ifd/locks.c:114-131 | the filter keeps exactly the locks that satisfy it |
| Locks.UnlockAllExactly | OpenCTDriver/src/ifd/locks.c:114-131 | after `unlock_all` the client holds nothing; the others' locks are all there, in order and as often, with the same next handle |
| Locks.SlotIsFreed | OpenCTDriver/src/ifd/locks.c:68-131 | then another client's lock is granted if and only if no third client's stands against it |
| Locks.GoneStaysGone | OpenCTDriver/src/ifd/locks.c:33-131 | and over every run in which that client does not lock again it holds nothing |
| Locks.LockGrants | OpenCTDriver/src/ifd/locks.c:33-85 | the result of a lock request, and the lock that is granted |
| Locks.UnlockSucceeds | OpenCTDriver/src/ifd/locks.c:90-108 | the result of an unlock |
| Locks.LockTable.LockSlot | OpenCTDriver/src/ifd/locks.c:33-63 | the list gains the new lock at its head, or stays |
| Locks.LockTable.CheckLock | OpenCTDriver/src/ifd/locks.c:68-85 | the scan finds a conflict if there is one |
| Locks.LockTable.UnlockSlot | OpenCTDriver/src/ifd/locks.c:90-108 | unlinks the first matching node and no other |
| Locks.LockTable.UnlockAll | OpenCTDriver/src/ifd/locks.c:114-131 | unlinks the client's nodes and keeps the rest in order |
| SyncWrite.WritesTheRange | OpenCTDriver/src/ifd/proto-sync.c:41-94 | for any address and length, also past the last address: nothing outside the range changes; when the result is 0 and the read-backs worked, the range holds the data, whatever single writes did to their bytes |
| SyncWrite.TrustedExactly | OpenCTDriver/src/ifd/proto-sync.c:75-86 | a result of 0 means that the range holds the data, whatever happens, if and only if no read-back fails |
| SyncWrite.UnreadPasses | OpenCTDriver/src/ifd/proto-sync.c:75-86 | a byte not stored passes for written if its read-back fails and leaves that byte in the local buffer |
| SyncWrite.PagesTile | OpenCTDriver/src/ifd/proto-sync.c:62-67 | the chunks follow one another without gap or overlap, each within one 256-byte page and as long as that allows |
| SyncWrite.WritesThePages | OpenCTDriver/src/ifd/proto-sync.c:57-93 | on success the verified writes are exactly those pages in order, with at most `retries` repeated; a failure is the driver's error or the first mismatch beyond the retries |
| SyncWrite.StubbornCard | OpenCTDriver/src/ifd/proto-sync.c:48-90 | a card on which nothing takes is written twice, or three times over I2C if it is more than one byte, and given up with -1 |
| SyncWrite.RefusalReturned | OpenCTDriver/src/ifd/proto-sync.c:69-73 | the driver's error is the result |
| SyncWrite.Transmit | OpenCTDriver/src/ifd/proto-sync.c:41-94 | the loop as written has the result, the memory and the number of writes of the specified transfer |

## Left out

- T1Protocol.T1.Transceive: blocks that do not fit the frame buffer (`T1Safety.BlocksFitExactly`) are sent whole; what the source's write behind the buffer does is not modelled.
- T1Protocol.T1.Resynchronize: with the two-byte checksum four bytes are sent; what the fifth, written behind the array, does is not modelled.
- T1Protocol.T1.SetParam: a negative value, which the source converts to unsigned, and sizes so large that sums with them wrap.
- T1Protocol.T1.NegotiateIfsd: the retry counter is tested but never counted down, so the loop ends only because the line falls silent in the end.
- T1Conformance.TransceiveIsACall: reply pieces of at most 253 bytes on a serial line, which refuses 254 and more (proto-t1.c:570); blocks from the host are taken to arrive intact.
- SerialReceive.ReceiveRequest: a pause of 500 ms ends the frame; a frame that comes without such a pause but takes longer in all, which the source drops, is not modelled.
- HostDriver.CardReset: an overrun ends the model, which does not say what the source goes on to do.
- Buffer.CtBuf.GetLine: what the bytes written behind the caller's array do is not modelled.
- T0.Protocol.ByteWise: what a byte written behind the room does is not modelled.
- T0.Protocol.Xcv: after an overrun the byte behind the room is not counted; the cases of `t0_transceive` around the call are not modelled.
- Tlv.Builder.PutInt: values from 2^24 up, where the source shifts by 32 bits, are not covered.
- Tlv.Builder.PutTag: the buffer's head must be 0, as for the two below.
- Tlv.Builder.AddBytes: with another head a compaction would move the bytes away from under the length pointer, which the source keeps as an address.
- Tlv.Builder.PutOpaque: the head must be 0 for the same reason.
- Packet.Socket.ReceivePacket: the data are copied, where the source points into the receive buffer.
- Tlv.Parser.Parse: values are copied, where the source keeps pointers into the buffer.
- Atr.Select: ends with the default protocol; creating the protocol object and the preferred protocol, which is only reported, are not modelled. Sets of protocols stand for bit masks.
- Atr.Slot.ReadAtr: the reset that gives the first byte and the parity changes are not modelled.
- Locks.LockTable: a client's user is fixed when it connects; memory is never reused for another client while its locks exist.
- Serial lines: wall-clock timeouts and partial sends of `comm_send`.
- Retry loops of `cardemu_send`, `cardemu_recv` and card status, and the firmware's data buffers, whose bodies are stubs.
- Sockets: signals, shutdown, and the callbacks above the packets.
- T=1 variant for GBP, transparent and escape protocols, PTS, APDU conversion, the protocol and reader tables.
- Reader drivers, operating-system layers, configuration, the status file, CT-API, PC/SC and command-line tools.
