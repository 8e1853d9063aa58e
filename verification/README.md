# AudioServer: a verified model

AudioServer accepts TCP connections from clients that send blocks of PCM. A
message has a five-byte head and a body of type/length/value parameters; a block
of PCM is followed by a CRC-32 of it. Every connection is a session that reads a
head, reads a body, handles the message, writes a reply, and reads the next head.
All sessions put their samples into one FIFO, which is cut into frames of fixed
size for the encoder.

The model has three layers and a theorem layer over them.

**Checksum.** `Crc` holds the table-driven loop of crc.cpp and the functions that
append and check its result. `ShiftRegister` is the reference: the decoder model
of Annex A of ISO/IEC 13818-1, one bit at a time, and the proof that both compute
the same. `CrcDetection` derives from the register what the check rejects.

**Messages.** `Bytes` and `PackData` hold the byte orders, `Messages` the format as
values and the parser's walk, `Parser` and `CommonMessages` the parsing object,
`Lookups` what its lookups find, `Writer` the in-place packaging with its 16-bit
cursor, `Codec` how packaging and parsing relate, `Interface` the concrete messages.

**Sessions.** `Audio` is the FIFO, the timestamp counter and the frame loop;
`Sessions` the session as a state machine over completed operations, and
`ServerSessions` the object whose handlers are proved equal to it; `Service` makes a
session and hands it its completions.

**Runs.** `Conversations` states what a session does as a function of the messages
it accepted, `SessionInvariants` what every handler keeps, `SessionRuns` how the
messages follow from the bytes read, `Runs` what holds in every interleaving of all
sessions, and `EndToEnd` follows one block of PCM through all layers.

FFmpeg's calls, the operating system and uninitialised memory are choices of the
surroundings: an `Environment` for each message, an `ok` flag and the delivered
bytes for each completed operation, and arbitrary initial contents of the buffers.
A handler is one step, because one thread runs the `io_service`
(AudioServer.cpp:17).

## Where the code departs from its intent

- Server.cpp:179-181 return when the lookups of channel id, block id and CRC
  succeed; the tests beside them (Server.cpp:141, 185) are negated. Both readings
  are modelled. `AsWritten` is the code: no request that carries a channel id is
  ever processed, its connection is left with nothing outstanding
  (`NothingEncodedAsWritten`, `PcmAsWrittenStalls`). `Negated` is the evident
  intent. Invariants, conservation and framing are proved for both.
- protocol.cpp:211 also records the end of the body as a parameter position, so
  lookups read one header of stale bytes. Lookups are modelled as coded. They agree
  with the intended ones exactly under the conditions of `ContentDeparts` and
  `NumberDeparts`; `StaleIdIsAnswered` is a conversation in which they do not.
  `IntendedExactly` and `ConversationOfMessages` say exactly which messages, and
  which histories, this touches.
- The typed lookups ignore the declared length (protocol.cpp:60-122): a present
  parameter of the wrong length is still read, with bytes that are not its own
  (`ShortIdIsRead`).
- `validate_crc` needs four bytes (Server.cpp:365); for fewer it reads in front of
  its buffer, and its verdict is a choice of the surroundings.

## Model

| member | source | states |
|---|---|---|
| PackData.PackPrimitive | pack_data.h:5-14 | for every width, the shift loop fills the destination with the big-endian digits of the value and leaves the rest |
| PackData.ParsePrimitive | pack_data.h:16-26 | for every width, the accumulating loop with its truncation yields the number the bytes denote |
| PackData.RoundTrip | pack_data.h:5-26 | packing into a buffer and parsing it gives the value back, for every width and value |
| PackData.SignedRoundTrip | protocol.cpp:145-174 | the two's complement word of every signed value reads back as that value, and its bytes denote that word |
| PackData.SignedPackers | protocol.cpp:145-174 | the shifts of a signed value, negative ones included, and the casts to a byte leave the bytes of its two's complement word |
| PackData.SignedThroughBytes | protocol.cpp:75-174 | those bytes, read as a number and then as a signed one, give the value back |
| Bytes.ValueOfBigEndian | pack_data.h:5-26 | the digits of a value that fits the width denote the value |
| Bytes.BigEndianOfValue | pack_data.h:16-26 | the digits of the number that bytes denote are those bytes |
| Bytes.UnrolledForms | protocol.cpp:136-163 | the hand-written two- and four-byte packers produce what the loop of pack_data.h produces |
| Bytes.UnrolledValues | protocol.cpp:60-105 | the hand-written two- and four-byte unpackers read what the loop of pack_data.h reads |
| Crc.Crc32 | crc.cpp:52-61 | the loop computes the checksum of the first len bytes, the initial value for no bytes or a negative length |
| Crc.PackCrc | Server.cpp:353-361 | the data followed by its checksum is in the buffer, nothing past it changes, and the returned length wraps at 16 bits |
| Crc.ValidateCrc | Server.cpp:363-368 | the verdict is that of the specification on the first pkg_len bytes, for four bytes or more |
| ShiftRegister.TableEntryIsImage | crc.cpp:7-50 | each of the 256 table entries is its index put through eight steps of the shift register with polynomial 0x04c11db7 |
| ShiftRegister.UpdateFeedsByte | crc.cpp:57-58 | one turn of the loop is the eight bits of the byte through the register, from every state |
| ShiftRegister.ChecksumIsRegister | crc.cpp:52-61 | the table-driven checksum equals the bit-serial register of Annex A on every input |
| CrcDetection.StateInjective | crc.cpp:57-58 | states that differ stay different under any common input |
| CrcDetection.WindowInjective | crc.cpp:57-58 | different inputs of equal length up to 32 bits lead one state to different states |
| CrcDetection.ZeroExactlyOnOwnBits | Server.cpp:363-368 | of all 32-bit inputs, exactly the register's own bits drive it to zero |
| CrcDetection.WordOfCrcBytes | Server.cpp:356-367 | the four stored bytes of a checksum are rebuilt into that checksum |
| CrcDetection.CrcBytesOfWord | Server.cpp:356-367 | the word rebuilt from four bytes is stored as those bytes |
| CrcDetection.AcceptsIsZeroResidue | Server.cpp:363-368 | a block of four bytes or more is accepted if and only if the checksum over all of it, trailer included, is zero |
| CrcDetection.AcceptsExactlySealed | Server.cpp:353-368 | the accepted blocks are exactly those that pack_crc makes of their data |
| CrcDetection.BurstChangesChecksum | crc.cpp:52-61 | inputs that differ within 32 consecutive bits only, at any bit position, have different checksums |
| CrcDetection.BurstDetected | Server.cpp:363-368 | an accepted block changed within 32 consecutive bits at any bit position, across the data and trailer boundary too, is rejected |
| CrcDetection.ByteBurstDetected | Server.cpp:363-368 | an accepted block changed within any window of four consecutive bytes is rejected |
| CrcDetection.LongerBurstsCanPass | Server.cpp:363-368 | the bound of 32 bits is sharp: two accepted blocks that differ in a window of 33 bits |
| Messages.DecodeEncode | protocol.cpp:22-44 | every parameter list is read back exactly from its bytes |
| Messages.EncodeDecode | protocol.cpp:22-44 | whatever parameters are read from bytes write back to those bytes |
| Messages.WalkDecodes | protocol.cpp:202-216 | the walk stops on the end of the body if and only if parameters tile the body exactly, and then records their positions |
| Messages.PositionsGrow | protocol.cpp:202-212 | positions advance by header and content of each parameter and end where the body ends; there are at most a quarter as many parameters as bytes |
| Parser.AcceptedExactly | protocol.cpp:190-224 | parse_message accepts exactly the nonempty bodies below 16379 bytes that parameters tile, and then records the positions of those parameters and the end |
| Parser.AcceptedPositions | protocol.cpp:202-213 | recorded positions start at 5, advance by at least 4 and end at 5 plus the body; at most a quarter of the body's length of headers are read |
| Parser.StaleBytesDecideNothing | protocol.cpp:202-216 | buffers that agree up to the end of the body get the same verdict and, if accepted, the same positions, although the walk reads past the body |
| Parser.ParsedLoads | protocol.cpp:190-224 | an accepted parse makes the object hold the message's own parameters, followed by what the store held before at those offsets |
| Parser.SeenAtPositions | protocol.cpp:226-247 | at each recorded position the store holds the parameter of that rank, and at the last the phantom that stale bytes make |
| Parser.ParsedInStore | protocol.cpp:190-224 | after every parse, accepted or refused, all headers that lookups read lie in the store |
| Parser.RefusedParse | protocol.cpp:190-221 | a refused parse leaves the stored message alone and takes over the head; the positions stay if the body is too long, otherwise they are a chain of headers from 5 on that does not end on the end of the body |
| Parser.LoadedSees | protocol.cpp:226-247 | after an accepted parse, what lookups of content run over is the message's parameters and the phantom |
| Parser.LoadedNumber | protocol.h:256-267 | and what lookups of numbers read is what those parameters, or the bytes behind them, hold |
| CommonMessages.UnpackParameter | protocol.cpp:39-44 | the header's type and length, and the length plus four |
| CommonMessages.CommonMessage.constructor | protocol.cpp:176-179 | no positions and message type 0; nothing else is initialised |
| CommonMessages.CommonMessage.UnpackMessageHead | protocol.cpp:14-20 | version, type and body length become those of the head, the rest of the object stays |
| CommonMessages.CommonMessage.ParseMessageHead | protocol.cpp:184-188 | the head is taken over, and the verdict is whether the body is below the limit |
| CommonMessages.CommonMessage.RecordPositions | protocol.cpp:197-212 | the do-while records exactly the offsets of the walk and ends at its last one |
| CommonMessages.CommonMessage.ParseMessage | protocol.cpp:190-224 | verdict and whole new state, also on both kinds of rejection |
| CommonMessages.CommonMessage.FindParameter | protocol.cpp:231-245 | the loop settles on the first position at which the specification of content lookup succeeds, or past the last |
| CommonMessages.CommonMessage.GetParameterContent | protocol.cpp:226-247 | in every state of the object, also before a parse or after a refused one: result, size and copied bytes are those of the lookup over what the store holds at the recorded positions; the destination is otherwise untouched |
| CommonMessages.CommonMessage.GetParameterValue | protocol.h:256-267 | in every state of the object: the number behind the first recorded position whose header has the type, and it fits the width |
| Lookups.FindContentIndexed | protocol.cpp:226-247 | the index-th parameter of a type is found, with its content, if and only if no parameter up to it exceeds 8192 bytes |
| Lookups.FindContentAbsent | protocol.cpp:226-247 | with the end position left out, a lookup fails when there is no index-th parameter of the type |
| Lookups.ContentDeparts | protocol.cpp:226-247 | the lookup as coded differs from the intended one if and only if it gets past all parameters, has counted exactly index of the type, and the stale bytes read as a parameter of the type that is not oversized |
| Lookups.NumberPresent | protocol.h:256-267 | a parameter of the type's own width is read as its value, whatever follows it |
| Lookups.NumberAbsent | protocol.h:256-267 | an absent type is found if and only if the stale bytes carry it |
| Lookups.NumberDeparts | protocol.h:256-267 | the number lookup as coded differs from the intended one if and only if it finds a number where none of that type and width is the first of its type |
| Writer.PackageMessageHead | protocol.cpp:4-12 | the five bytes of the head with an empty body, and nothing else, are written |
| Writer.PackageParameterContent | protocol.cpp:22-37 | the whole buffer afterwards, with the 16-bit cursor wrapping, and the returned length |
| Writer.StoreAll | protocol.cpp:25-32 | the stores through the moving cursor, which wraps |
| Writer.PackageMessage | protocol.h:16-53 | for any number of parameters: the buffer after all appends; while the cursor does not wrap, the message's bytes followed by the old bytes, and its length is returned |
| Writer.AppendedHolds | protocol.cpp:22-37 | one append adds the parameter's bytes to the body, updates bytes 3 and 4 and touches nothing past them |
| Writer.PackagedIsEncoded | protocol.h:16-53 | packaging writes exactly the bytes of the message at the front of the buffer, up to a body of 65531 bytes |
| Codec.ParsePackaged | protocol.cpp:190-224 | a buffer that starts with a packaged message is accepted if and only if the message has a parameter and a body below 16379 bytes; version, type and the exact list come back |
| Codec.PackageParsed | protocol.cpp:22-37 | packaging the parameters of any accepted buffer reproduces its bytes up to the end of the body |
| Codec.StatedLength | protocol.cpp:24-35 | after any appends the head states the body's length modulo 65536 |
| Codec.DeliverEncoded | Server.cpp:43-68 | a stream of packaged messages, whatever follows it, is cut by alternating head and body reads into exactly those messages |
| Codec.DeliverAll | Server.cpp:43-68 | and nothing is left over when nothing follows |
| Interface.GetChannelId | interface.cpp:118-121 | the two-byte lookup of parameter 1, in every state of the object |
| Interface.GetBlockId | interface.cpp:122-125 | the four-byte lookup of parameter 2, in every state of the object |
| Interface.GetCrc | interface.cpp:130-133 | the four-byte lookup of parameter 4, in every state of the object |
| Interface.GetBlockData | interface.cpp:126-129 | the first content of parameter 3 and its length, in every state of the object |
| Interface.LoadedAccess | interface.cpp:118-133 | after an accepted parse the four accessors read the message's own parameters, and the phantom |
| Interface.LeadingChannelId | interface.cpp:36-110 | a message that leads with its channel id gives it back whatever the store holds past it |
| Interface.ReplySizes | interface.cpp:36-110 | the bodies of status, error and response messages have 6, 12 and 14 bytes |
| Interface.ChannelMessagesOnTheWire | interface.cpp:10-60 | the eleven bytes of setup, test, status and close messages, for every version and id |
| Interface.ErrorOnTheWire | interface.cpp:62-75 | the seventeen bytes of an error message, for every id and code |
| Interface.ResponseOnTheWire | interface.cpp:97-110 | the nineteen bytes of a PCM response, for every id and block id |
| Interface.RequestOnTheWire | interface.cpp:77-95 | the bytes of a PCM request, for every version, id, block id, data below 65510 bytes and checksum |
| Interface.ResponseLookups | interface.cpp:97-125 | both ids of a response are found in it, whatever the receiver's store holds past it |
| Interface.ResponseIsRead | interface.cpp:97-125 | a receiver accepts a response, sees type 0x21, and reads the channel id and the block id it was made with |
| Interface.RequestSize | interface.cpp:77-95 | the body of a PCM request has 26 bytes more than its data |
| Interface.RequestLookups | interface.cpp:77-133 | every accessor gives back what the request was built from; block data only up to 8192 bytes |
| Interface.RequestCapacity | protocol.h:270-271 | for all data up to 65505 bytes: accepted if and only if at most 16352 bytes, and the data is retrievable if and only if at most 8192 |
| Interface.RequestBeyondCapacity | protocol.cpp:22-37 | past 65505 bytes of data, for every length: up to 65509 refused; from 65510 on, with the cursor wrapped, accepted if and only if parameters tile the bytes that have landed on the stated body, the end of the data and of the checksum's parameter |
| Interface.WrappedVerdicts | protocol.cpp:22-37 | of those, 65511 to 65513 never tile, 65514 does if and only if the checksum ends in two zero bytes, and 65518 always |
| Audio.SharedPipeline.AddSamples | ffmpeg_utils.cpp:110-130 | the FIFO holds the old samples and then those written: all, only some, in which case the call fails, or none if it cannot grow |
| Audio.SharedPipeline.Drain | Server.cpp:231-275 | the frame loop, with its strict test and each of its exits, does to FIFO, counter and frames what the specification says |
| Audio.SamplesAreTheBytes | Server.cpp:198-212 | the samples of a block are its bytes, four to a sample and in their order |
| Audio.TakenIsTheFront | ffmpeg_utils.cpp:110-130 | what gets into the FIFO is the front of the block, as long as was written, and the call succeeds exactly if that is all of it |
| Audio.FramesUpToFailure | Server.cpp:231-275 | for every way the calls turn out, the number of frames read out: all that are there up to the first failure, one more if it is the encoder that refuses, none for a frame that could not be made or read |
| Audio.FramesWithoutFailure | Server.cpp:231-275 | and all that are there if nothing fails |
| Audio.DrainedExactly | Server.cpp:231-275 | so FIFO, counter and frames after every exit of the loop, exactly |
| Audio.DrainedConserves | Server.cpp:231-275 | whichever calls fail, the frames read out are the added stream cut into frames, the FIFO is the rest, and the counter is frame size times frames |
| Audio.ConservedSamples | Server.cpp:221-275 | the samples of all frames, then the FIFO, are all samples added, in order |
| Audio.SuccessSettles | Server.cpp:231-275 | without failures the loop leaves at most one frame of samples |
| Audio.SettledIsCanonical | Server.cpp:231-275 | once at most one frame is left, frames, timestamps and FIFO are a function of the sample stream alone |
| ServerSessions.ServerSession.HandleReadHeader | Server.cpp:43-60 | the whole effect of a completed head read |
| ServerSessions.ServerSession.HandleReadBody | Server.cpp:62-97 | the whole effect of a completed body read on the session and on the pipeline |
| ServerSessions.ServerSession.HandleWrite | Server.cpp:99-110 | the whole effect of a completed write |
| ServerSessions.ServerSession.Dispatch | Server.cpp:70-93 | each message type has the outcome stated for the message, on the session and on the pipeline |
| ServerSessions.ServerSession.ProcessChannelSetup | Server.cpp:139-147 | takes the id that the lookup yields and answers with it, or does nothing |
| ServerSessions.ServerSession.LookUpNumbers | Server.cpp:175-181 | when the three tests let the handler go on, and which ids the lookups have written, in both readings of the tests |
| ServerSessions.ServerSession.ProcessBlock | Server.cpp:182-201 | missing block, bad checksum or samples: the reply and what the pipeline gets |
| ServerSessions.ServerSession.ProcessSamples | Server.cpp:202-284 | each FFmpeg failure before the FIFO answers with an error and adds nothing; otherwise samples are added, frames drained, and the block's id is answered |
| ServerSessions.ServerSession.ProcessPcmDataSendRequest | Server.cpp:175-285 | the handler as a whole has the outcome stated for the message |
| ServerSessions.ServerSession.CheckBlock | Server.cpp:363-368 | the verdict on a retrieved block, for any length |
| ServerSessions.ServerSession.ConvertSamples | Server.cpp:199-212 | one sample for every four bytes, in order (`SamplesAreTheBytes`) |
| ServerSessions.ServerSession.SendReply | Server.cpp:129-137 | the reply's bytes are at the front of the output buffer and a write of exactly them is outstanding |
| ServerSessions.ServerSession.Complete | Server.cpp:34-110 | a completed operation steps the session and the pipeline as the state machine does |
| Conversations.OneReplyEach | Server.cpp:62-108 | at most one reply for each message, in the order of the messages |
| Conversations.ChannelIdIsLast | Server.cpp:139-181 | the channel id is the last one that a setup or PCM message's lookup yielded, or 0 |
| Conversations.RepliesLeadWithId | Server.cpp:139-285 | every reply leads with the channel id the session has when it makes it |
| Conversations.RepliesOnTheWire | Server.cpp:139-285 | the bytes of the status, error and response that the server sends, for every id, code and block id |
| Conversations.ErrorsOnTheWire | interface_constants.h:26-32 | the bytes of each of the four errors that the server sends |
| Conversations.BlockIsTaken | Server.cpp:190-229 | for everything the surroundings can do: the bytes of the samples that get in are the front of the block, and all calls succeed exactly if the block is intact, allocated, converted and written whole |
| Conversations.BlockIsAnswered | Server.cpp:182-284 | for everything the surroundings can do: the bytes a block is answered with |
| Conversations.PcmIsAnswered | Server.cpp:175-285 | when the PCM handler goes on and what bytes it then sends, in both readings of its tests; as written, with the session's id and the unset block id |
| Conversations.PcmIsTaken | Server.cpp:182-229 | and the bytes of the samples it adds |
| Conversations.ReactsAnswers | Server.cpp:62-285 | the bytes that follow on a message of any type, in both readings |
| Conversations.ConversationIsAnswers | Server.cpp:62-285 | channel id and replies of every history, byte by byte, in both readings |
| Conversations.ContributionIsTheBytes | Server.cpp:182-229 | the samples of every history are, byte for byte and in order, the fronts of the blocks it was sent, in both readings |
| Conversations.ReplyAccepted | interface.cpp:36-110 | such a reply is accepted by parse_message, and its channel id lookup yields that id |
| Conversations.PlainExactly | protocol.cpp:226-247 | the condition on a message under which its lookups find what they are meant to find is exact |
| Conversations.IntendedExactly | Server.cpp:139-285 | with the tests as intended, a message is handled as intended if and only if the lookups its handler makes are plain and its block is served by FFmpeg, or it is a PCM request unanswered either way whose stale id is the session's own |
| Conversations.OthersAsIntended | Server.cpp:70-93 | in both readings of the PCM tests, any other message is handled as intended if and only if it is straightforward, and adds nothing |
| Conversations.BuiltIsStraightforward | interface.cpp:10-110 | every message that interface.cpp builds is straightforward, whatever messages came before it, a PCM request if FFmpeg serves its block |
| Conversations.ConversationOfMessages | Server.cpp:62-285 | channel id and replies are the intended, sequential function of the messages, all along a history, if and only if each message was handled as meant when it came |
| Conversations.ContributionOfMessages | Server.cpp:182-229 | the samples of such a history are those in front of the valid checksums of its complete PCM requests |
| Conversations.PcmAsWritten | Server.cpp:179-181 | as written, the PCM handler gives up silently if and only if some of the three lookups succeeds |
| Conversations.RequestAsWritten | Server.cpp:179-181 | so it gives up on every message that pcm_data_send_request builds |
| Conversations.NothingAddedAsWritten | Server.cpp:179-181 | as written, a session whose PCM requests carry a channel id never adds a sample |
| SessionInvariants.StepIsGood | Server.cpp:34-137 | every handler keeps: at most one operation outstanding, history and buffers consistent with it, and nothing outstanding only after a close or a silent message |
| SessionInvariants.BodyKeepsHead | Server.cpp:43-68 | the head that parse_message parses again is the one parse_message_head found, and the body is what was read behind it |
| SessionInvariants.OutputStaysWhileWriting | Server.cpp:129-137 | while a write is in flight only its completion can happen, the bytes in flight are the last reply, and they are not modified |
| SessionInvariants.OneAtATime | Server.cpp:34-110 | whatever completes, nothing else of the session was outstanding, and it was not closed |
| SessionInvariants.StepFate | Server.cpp:34-181 | a completion closes the session exactly on a failure, a refused head or body, or an error or close message; it leaves it with nothing outstanding exactly on a setup without an id or a PCM request whose tests return; otherwise exactly the body of the stated length, the next head, or the reply's write of so many bytes is outstanding |
| SessionInvariants.StepContributes | Server.cpp:62-97 | what a handler puts into the FIFO is what the message it accepts contributes |
| Service.Accept | Server.cpp:315-351 | an accepted connection's session has channel id 0 and no history, and exactly a head read outstanding |
| Service.Serve | Server.cpp:34-110 | completions handed to the session object take it, and the shared pipeline, through exactly the run of the state machine that the theorems are about |
| SessionRuns.StreamIsFramed | Server.cpp:43-68 | over every run, closed or open, the accepted messages are exactly those that cutting the session's byte stream delivers, up to the first that is refused; between messages of an open session nothing is left over |
| SessionRuns.RunIsConversation | Server.cpp:34-137 | over every run, in both readings, channel id and replies are byte by byte the answers to the accepted messages, at most one each |
| SessionRuns.RunIsIntended | Server.cpp:62-285 | over every run whose messages were handled as meant, replies and channel id are the intended ones of those messages |
| SessionRuns.SameBytesSameReplies | Server.cpp:62-285 | two such runs that read the same bytes have answered the same bytes, also when they have been closed or wait for a body, whatever their buffers held |
| SessionRuns.RepliesAreAccepted | Server.cpp:129-285 | every reply of a run is accepted, and yields, whatever the receiver's store holds, the last id that the messages up to the very one it answers had given the session |
| SessionRuns.ReplyInFlight | Server.cpp:129-137 | the reply in flight carries the session's current channel id |
| Runs.RunsKeepAllGood | Server.cpp:34-285 | all session invariants and conservation hold after every run, for both readings of the tests and whatever fails |
| Runs.RunsConserve | Server.cpp:221-275 | after every run: frames, then FIFO, are all samples in order; frame k has the frame size and timestamp k times it; the counter is frames times frame size |
| Runs.NoFramesWithoutBlock | Server.cpp:190-229 | a completion that does not store a whole block cuts no frame: the FIFO gains what got in, and nothing else of the pipeline changes |
| Runs.FramesAfterBlock | Server.cpp:221-275 | after a whole block the pipeline is exactly the one after the frames that were there up to the first failure |
| Runs.MovesLeaveWaitingSessions | Server.cpp:34-137 | whatever happens on the server, a session's bytes in flight stay, and a session with nothing outstanding does not change |
| Runs.NothingOutstanding | Server.cpp:34-137 | a session with nothing outstanding never acts again: in every continuation it has no event and does not change; it was closed, or its last message was a setup without an id or a PCM request whose tests return |
| Runs.OthersDoNotInterfere | Server.cpp:315-321 | a session's state in a run is that of its own events alone |
| Runs.EverySessionHasItsRun | Server.cpp:315-351 | every session of a run started fresh and went through its own events only |
| Runs.RepliesFollowFromOwnBytes | Server.cpp:62-285 | under every interleaving, sessions whose messages were handled as meant and that read the same bytes answer the same bytes, closed or open |
| Runs.EveryReplyIsAccepted | Server.cpp:129-285 | every reply of every run is accepted and yields the id its session had on handling the message it answers |
| Runs.EverySessionAnswers | Server.cpp:62-285 | in every run, in both readings, what each session has said is byte by byte the answers to its messages |
| Runs.SamplesAreTheSessions | Server.cpp:199-229 | the sample stream of a run is an interleaving, block by block, of what each session's own messages contribute |
| Runs.BytesAreTheSessions | Server.cpp:182-229 | and a session's part of it is, byte for byte, the fronts of the blocks that it was sent |
| Runs.SamplesAreIntended | Server.cpp:182-229 | the part of the stream of a session whose messages were handled as meant follows from its messages |
| Runs.NothingEncodedAsWritten | Server.cpp:179-181 | as the tests are written, no run adds or encodes anything from requests that carry a channel id |
| Runs.FramesOfRun | Server.cpp:231-275 | if no block is stored in part and the frame loop meets no failure, N samples have become max(0, (N-1)/frame_size) frames, the canonical ones |
| Runs.SameSamplesSameFrames | Server.cpp:231-275 | runs that add the same samples emit identical frames with identical timestamps, however the stream was split into blocks and sessions |
| EndToEnd.Exchange | Server.cpp:43-97 | a packaged message arriving at a waiting session takes exactly two reads and has the outcome of that message |
| EndToEnd.SealedBlock | Server.cpp:199-200 | a block made by pack_crc is intact and holds its PCM and exactly a quarter as many samples as bytes |
| EndToEnd.PcmArrives | Server.cpp:175-285 | PCM of up to 8188 bytes, sealed, packaged and read: the id is taken, a receiver of the answer accepts it and reads both ids of the request from it, and the samples added and drained have exactly the bytes of the PCM |
| EndToEnd.UnservedPcmIsReported | Server.cpp:202-229 | the same when a call in front of the frame loop fails: error 0x7000 is answered, the FIFO gains only what was written, the front of the PCM, and no frame is cut |
| EndToEnd.DamagedPcmIsRefused | Server.cpp:190-196 | the same with any four-byte window of the block damaged: the CRC error is answered and the pipeline is unchanged |
| EndToEnd.OversizedPcmIsRefused | Server.cpp:185-190 | a request with 8193 to 16352 bytes of block: the payload error is answered and the pipeline is unchanged |
| EndToEnd.TooLongPcmCloses | Server.cpp:43-60 | a request with 16353 to 65509 bytes of block closes the session on its head |
| EndToEnd.PcmAsWrittenStalls | Server.cpp:179-181 | as written, every request short enough to be accepted is dropped, adds nothing, and leaves the session with nothing outstanding |
| EndToEnd.StaleIdIsAnswered | protocol.cpp:211-212 | for every id: a session that has answered a setup with that id answers a setup without any with the same id, although it was not meant to answer |
| EndToEnd.ShortIdIsRead | protocol.cpp:60-73 | a channel id parameter without content is read as the type of the parameter behind it |

## Left out

- FFmpeg setup, resampling, encoding and muxing (most of ffmpeg_utils.cpp, `open_output_file`, the packet loop at Server.cpp:257-273): foreign calls; the encoder is a free choice of outcome for each frame, and the packet loop is taken to end.
- `audio_fifo_` is null (Server.cpp:294) and `init_fifo` is never called: the model starts from an initialised empty FIFO and a positive frame size.
- The resampler is taken to map samples one to one, and the `&pcm_data` cast at Server.cpp:212 to mean the bytes of the block.
- A FIFO read that yields less than a frame is taken to leave the FIFO as it was.
- `pts_` is unbounded where the source has 64 bits.
- Boost.Asio, sockets and threads: an operation is outstanding and completes with success or failure; the bytes of a failed read are arbitrary. Buffers of different sessions are disjoint.
- The end of a session object's life when no operation refers to it, and the unread bytes of its connection.
- The accept loop, `is_working_` and `close`: sessions may appear at any moment.
- System.cpp, AudioServer.cpp, logging and the build files.
- The overloads of `package_message_common` for one to fourteen parameters are one method over a list; parameter values arrive as sequences, so overlap of a source with the output buffer is not modelled.
- Memory past `message_data_`, which lookups of the phantom, and any lookup after a refused parse, can reach, is modelled as an extension of the store that keeps its contents.
- Exceptions from growing the position vector (protocol.cpp:218-221).
- `get_error_code` and the single-byte parameters: the same lookup and the same append with another type.
- ERROR_REPEATED_BLOCK, ERROR_UNSUPPORTED_PROTOCOL_VERSION and the value of PARAMETER_CRC: the server does nothing with them.
