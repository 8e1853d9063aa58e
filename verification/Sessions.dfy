/**
 The session of Server.cpp as a state machine: what each completed operation
 makes of the session's state, with message handling stated on messages.

 process_pcm_data_send_request returns when its three number lookups succeed
 (Server.cpp:179-181), where the tests beside it are negated. Both readings are
 modelled: AsWritten is the code, Negated its evident intent.
*/
module Sessions {
  import opened Bytes
  import opened Messages
  import opened Lookups
  import opened Parser
  import opened Codec
  import opened Interface
  import opened Crc
  import opened Audio

  const BUFFER_SIZE := 128 * 1024

  datatype Polarity = AsWritten | Negated

  /** What the server's surroundings decide while one message is processed. */
  datatype Environment = Environment(
    blockId: u32,               // what the uninitialised block_id holds
    shortBlockValid: bool,      // validate_crc on fewer than four bytes reads in front of its buffer
    allocates: bool,            // init_converted_samples succeeds
    converts: bool,            // convert_samples succeeds
    storing: Storing,           // how add_samples_to_fifo turns out
    frames: seq<FrameOutcome>)  // the turns of the frame loop

  // ---- A message and what the session does about it ----

  datatype Action = Reply(message: Sendable) | Listen | Close | Stall

  /** The channel id afterwards, what happens on the connection, and the samples put into the FIFO. */
  datatype Outcome = Outcome(channelId: u16, action: Action, intake: Intake)

  function StatusReply(channelId: u16): Sendable {
    ReplySizes(PROTOCOL_VERSION, MESSAGE_CHANNEL_STATUS, channelId, 0, 0);
    ChannelMessage(PROTOCOL_VERSION, MESSAGE_CHANNEL_STATUS, channelId)
  }

  function ErrorReply(channelId: u16, errorCode: u16): Sendable {
    ReplySizes(PROTOCOL_VERSION, 0, channelId, errorCode, 0);
    ChannelError(PROTOCOL_VERSION, channelId, errorCode)
  }

  function ResponseReply(channelId: u16, blockId: u32): Sendable {
    ReplySizes(PROTOCOL_VERSION, 0, channelId, 0, blockId);
    PcmResponse(PROTOCOL_VERSION, channelId, blockId)
  }

  /** Whether a number lookup makes the PCM handler return early. */
  predicate GivesUp(polarity: Polarity, lookup: Option<nat>) {
    lookup.Some? == polarity.AsWritten?
  }

  /** One of the three tests in front of the PCM handler returns. */
  predicate PcmGivesUp(polarity: Polarity, ps: seq<Param>, tail: seq<byte>)
    requires |tail| >= PHANTOM_EXTENT
  {
    || GivesUp(polarity, ChannelIdOf(ps, tail))
    || GivesUp(polarity, BlockIdOf(ps, tail))
    || GivesUp(polarity, CrcOf(ps, tail))
  }

  predicate BlockValid(data: seq<byte>, env: Environment) {
    if |data| >= 4 then Accepts(data) else env.shortBlockValid
  }

  /** nb_bytes / 4 with division that truncates toward zero: below zero only for an empty block. */
  function SampleCount(length: nat): int {
    if length >= 4 then (length - 4) / 4 else if length == 0 then -1 else 0
  }

  function BlockSamples(data: seq<byte>): seq<Sample> {
    if SampleCount(|data|) <= 0 then [] else SamplesOf(data, SampleCount(|data|))
  }

  function ReactsToSamples(channelId: u16, blockId: u32, samples: seq<Sample>, env: Environment): Outcome {
    var intake := if env.allocates && env.converts then Taken(env.storing, samples) else Nothing;
    if intake.Whole? then Outcome(channelId, Reply(ResponseReply(channelId, blockId)), intake)
    else Outcome(channelId, Reply(ErrorReply(channelId, ERROR_UNKNOWN_ERROR)), intake)
  }

  function ReactsToBlock(channelId: u16, blockId: u32, data: Option<seq<byte>>, env: Environment): Outcome {
    match data
    case None => Outcome(channelId, Reply(ErrorReply(channelId, ERROR_NO_PAYLOAD)), Nothing)
    case Some(block) =>
      if BlockValid(block, env) then ReactsToSamples(channelId, blockId, BlockSamples(block), env)
      else Outcome(channelId, Reply(ErrorReply(channelId, ERROR_CRC_INVALID)), Nothing)
  }

  function AsU16(v: Option<nat>, otherwise: u16): u16 {
    if v.Some? && v.value < 0x1_0000 then v.value else otherwise
  }

  function AsU32(v: Option<nat>, otherwise: u32): u32 {
    if v.Some? && v.value < 0x1_0000_0000 then v.value else otherwise
  }

  function ReactsToPcm(polarity: Polarity, channelId: u16, ps: seq<Param>, tail: seq<byte>, env: Environment): Outcome
    requires |tail| >= PHANTOM_EXTENT
  {
    var id := AsU16(ChannelIdOf(ps, tail), channelId);
    if PcmGivesUp(polarity, ps, tail) then Outcome(id, Stall, Nothing)
    else ReactsToBlock(id, AsU32(BlockIdOf(ps, tail), env.blockId), BlockDataOf(ps, tail), env)
  }

  function ReactsToSetup(channelId: u16, ps: seq<Param>, tail: seq<byte>): Outcome
    requires |tail| >= PHANTOM_EXTENT
  {
    match ChannelIdOf(ps, tail)
    case None => Outcome(channelId, Stall, Nothing)
    case Some(_) =>
      var id := AsU16(ChannelIdOf(ps, tail), channelId);
      Outcome(id, Reply(StatusReply(id)), Nothing)
  }

  /** The dispatch of handle_read_body. */
  function Reacts(polarity: Polarity, channelId: u16, m: Message, tail: seq<byte>, env: Environment): Outcome
    requires |tail| >= PHANTOM_EXTENT
  {
    if m.mtype == MESSAGE_CHANNEL_SETUP then ReactsToSetup(channelId, m.params, tail)
    else if m.mtype == MESSAGE_CHANNEL_TEST then Outcome(channelId, Reply(StatusReply(channelId)), Nothing)
    else if m.mtype == MESSAGE_CHANNEL_STATUS then Outcome(channelId, Listen, Nothing)
    else if m.mtype == MESSAGE_CHANNEL_ERROR then Outcome(channelId, Close, Nothing)
    else if m.mtype == MESSAGE_CHANNEL_CLOSE then Outcome(channelId, Close, Nothing)
    else if m.mtype == MESSAGE_PCM_DATA_SEND_REQUEST then ReactsToPcm(polarity, channelId, m.params, tail, env)
    else Outcome(channelId, Reply(ErrorReply(channelId, ERROR_UNKNOWN_MESSAGE_TYPE)), Nothing)
  }

  // ---- The session's state ----

  datatype Operation = ReadHead | ReadBody(length: nat) | Write(length: nat)

  /** One accepted message, with the stale bytes its lookups could see and what the surroundings did. */
  datatype Receipt = Receipt(message: Message, tail: seq<byte>, env: Environment)

  /** The fields of a session, then its history: every accepted message and every reply handed to the socket. */
  datatype Session = Session(
    pending: multiset<Operation>, closed: bool, channelId: u16, info: MessageState,
    input: seq<byte>, output: seq<byte>,
    received: seq<Receipt>, sent: seq<seq<byte>>)

  predicate Shaped(s: Session) {
    |s.info.store| == STORE_EXTENT && |s.input| == BUFFER_SIZE && |s.output| == BUFFER_SIZE
  }

  function Issued(s: Session, op: Operation): Session {
    s.(pending := s.pending + multiset{op})
  }

  function Completed(s: Session, op: Operation): Session {
    s.(pending := s.pending - multiset{op})
  }

  function Closed(s: Session): Session {
    s.(closed := true)
  }

  /** A reply: its bytes go to the front of the output buffer, and a write of them is started. */
  function Replied(s: Session, m: Sendable): (r: Session)
    requires Shaped(s)
    ensures Shaped(r)
  {
    var n := |Encode(m)|;
    Issued(s, Write(n)).(output := Encode(m) + s.output[n..], sent := s.sent + [Encode(m)])
  }

  function Acted(s: Session, action: Action): (r: Session)
    requires Shaped(s)
    ensures Shaped(r)
  {
    match action
    case Reply(m) => Replied(s, m)
    case Listen => Issued(s, ReadHead)
    case Close => Closed(s)
    case Stall => s
  }

  /** The effect of an outcome on the session's state. */
  function Applied(s: Session, out: Outcome): (r: Session)
    requires Shaped(s)
    ensures Shaped(r)
  {
    Acted(s.(channelId := out.channelId), out.action)
  }

  /** Bytes a read delivered, placed where it was asked to place them. */
  function Placed(input: seq<byte>, at: nat, bytes: seq<byte>): (r: seq<byte>)
    requires at + |bytes| <= |input|
    ensures |r| == |input|
  {
    input[..at] + bytes + input[at + |bytes|..]
  }

  function AfterHead(s: Session, ok: bool): Session
    requires Shaped(s)
  {
    if !ok then Closed(s)
    else
      var headed := s.(info := HeadParsed(s.info, s.input));
      if BodyFits(headed.info.bodyLength) then Issued(headed, ReadBody(headed.info.bodyLength)) else Closed(headed)
  }

  /** What the session does about the message it has just accepted. */
  function OutcomeOf(polarity: Polarity, s: Session, env: Environment): Outcome
    requires Shaped(s) && Loaded(s.info)
  {
    Reacts(polarity, s.channelId, Message(s.info.version, s.info.mtype, ParamsIn(s.info)), TailIn(s.info), env)
  }

  function ReceiptOf(s: Session, env: Environment): Receipt
    requires Shaped(s) && Loaded(s.info)
  {
    Receipt(Message(s.info.version, s.info.mtype, ParamsIn(s.info)), TailIn(s.info), env)
  }

  function Processed(polarity: Polarity, s: Session, env: Environment): Session
    requires Shaped(s) && Loaded(s.info)
  {
    Applied(s.(received := s.received + [ReceiptOf(s, env)]), OutcomeOf(polarity, s, env))
  }

  function AfterBody(polarity: Polarity, s: Session, ok: bool, env: Environment): Session
    requires Shaped(s)
  {
    if !ok then Closed(s)
    else
      var parsed := s.(info := Parsed(s.info, s.input));
      if Accepted(s.input) then
        ParsedLoads(s.info, s.input);
        Processed(polarity, parsed, env)
      else Closed(parsed)
  }

  function AfterWrite(s: Session, ok: bool): Session {
    if ok then Issued(s, ReadHead) else Closed(s)
  }

  /** The samples a completed body read puts into the FIFO. */
  function IntakeOf(polarity: Polarity, s: Session, ok: bool, env: Environment): Intake
    requires Shaped(s)
  {
    if ok && Accepted(s.input) then
      ParsedLoads(s.info, s.input);
      OutcomeOf(polarity, s.(info := Parsed(s.info, s.input)), env).intake
    else Nothing
  }

  /** Frames are cut only when the whole block has been stored. */
  function AudioAfter(p: Pipeline, frameSize: nat, intake: Intake, env: Environment): Pipeline
    requires frameSize > 0
  {
    if intake.Whole? then Drained(Received(p, intake), frameSize, env.frames) else Received(p, intake)
  }

  // ---- Completions ----

  /** A completed operation, as the io_service reports it to a handler. */
  datatype Event =
    | HeadRead(ok: bool, bytes: seq<byte>)
    | BodyRead(ok: bool, bytes: seq<byte>, env: Environment)
    | Written(ok: bool, length: nat)

  /** The operation an event completes; a body read is identified by the length the session asked for. */
  function OperationOf(s: Session, e: Event): Operation {
    match e
    case HeadRead(_, _) => ReadHead
    case BodyRead(_, _, _) => ReadBody(s.info.bodyLength)
    case Written(_, n) => Write(n)
  }

  /** Only an outstanding operation completes, with all its bytes if it succeeds. */
  predicate Enabled(s: Session, e: Event) {
    && OperationOf(s, e) in s.pending
    && match e
       case HeadRead(ok, bytes) => |bytes| <= MESSAGE_HEAD_LENGTH && (ok ==> |bytes| == MESSAGE_HEAD_LENGTH)
       case BodyRead(ok, bytes, _) => |bytes| <= s.info.bodyLength && (ok ==> |bytes| == s.info.bodyLength)
       case Written(_, _) => true
  }

  function Delivered(s: Session, e: Event): (r: Session)
    requires Shaped(s) && Enabled(s, e)
    ensures Shaped(r)
  {
    var t := Completed(s, OperationOf(s, e));
    match e
    case HeadRead(_, bytes) => t.(input := Placed(s.input, 0, bytes))
    case BodyRead(_, bytes, _) => t.(input := Placed(s.input, MESSAGE_HEAD_LENGTH, bytes))
    case Written(_, _) => t
  }

  /** A handler's whole effect on its session. */
  function Step(polarity: Polarity, s: Session, e: Event): Session
    requires Shaped(s) && Enabled(s, e)
  {
    var t := Delivered(s, e);
    match e
    case HeadRead(ok, _) => AfterHead(t, ok)
    case BodyRead(ok, _, env) => AfterBody(polarity, t, ok, env)
    case Written(ok, _) => AfterWrite(t, ok)
  }

  /** And on the shared pipeline. */
  function AudioStep(polarity: Polarity, s: Session, e: Event, p: Pipeline, frameSize: nat): Pipeline
    requires Shaped(s) && Enabled(s, e) && frameSize > 0
  {
    match e
    case BodyRead(ok, _, env) => AudioAfter(p, frameSize, IntakeOf(polarity, Delivered(s, e), ok, env), env)
    case HeadRead(_, _) => p
    case Written(_, _) => p
  }
}
