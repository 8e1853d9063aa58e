/**
 A session against the sequence of messages it accepted: the replies and the
 channel id are a function of that sequence, one reply at most for each message.
*/
module Conversations {
  import opened Bytes
  import opened Messages
  import opened Lookups
  import opened Parser
  import opened Codec
  import opened Interface
  import opened Crc
  import opened CrcDetection
  import opened Folds
  import opened Audio
  import opened Sessions

  /** What a run of accepted messages amounts to, for a session that starts with channel id 0. */
  datatype Conversation = Conversation(channelId: u16, replies: seq<seq<byte>>)

  type Receipts = rs: seq<Receipt> | forall k | 0 <= k < |rs| :: |rs[k].tail| >= PHANTOM_EXTENT

  function ReplyBytes(action: Action): seq<seq<byte>> {
    match action
    case Reply(m) => [Encode(m)]
    case _ => []
  }

  /** The conversation so far, then the reaction to the last message. */
  function Converse(polarity: Polarity, receipts: Receipts): Conversation
    decreases |receipts|
  {
    if receipts == [] then Conversation(0, [])
    else
      var before := Converse(polarity, receipts[..|receipts| - 1]);
      var out := LastOutcome(polarity, receipts);
      Conversation(out.channelId, before.replies + ReplyBytes(out.action))
  }

  function LastOutcome(polarity: Polarity, receipts: Receipts): Outcome
    requires receipts != []
    decreases |receipts|, 0
  {
    var last := receipts[|receipts| - 1];
    Reacts(polarity, Converse(polarity, receipts[..|receipts| - 1]).channelId, last.message, last.tail, last.env)
  }

  /** No message is answered twice, and answers come in the order of their messages. */
  lemma {:induction false} OneReplyEach(polarity: Polarity, receipts: Receipts, n: nat)
    requires n <= |receipts|
    ensures |Converse(polarity, receipts).replies| <= |receipts|
    ensures Converse(polarity, receipts[..n]).replies <= Converse(polarity, receipts).replies
    ensures |Converse(polarity, receipts).replies| - |Converse(polarity, receipts[..n]).replies| <= |receipts| - n
    decreases |receipts|
  {
    if n == |receipts| {
      assert receipts[..n] == receipts;
      if n > 0 {
        OneReplyEach(polarity, receipts[..n - 1], n - 1);
      }
    } else {
      var before := receipts[..|receipts| - 1];
      OneReplyEach(polarity, before, n);
      assert before[..n] == receipts[..n];
    }
  }

  /** The id a message's lookup delivers to the session, if the message is one that looks it up and succeeds. */
  function IdFrom(r: Receipt): Option<nat>
    requires |r.tail| >= PHANTOM_EXTENT
  {
    if r.message.mtype == MESSAGE_CHANNEL_SETUP || r.message.mtype == MESSAGE_PCM_DATA_SEND_REQUEST then
      ChannelIdOf(r.message.params, r.tail)
    else None
  }

  /** The last id so looked up, or 0. */
  function LastId(receipts: Receipts): nat
    decreases |receipts|
  {
    if receipts == [] then 0
    else if IdFrom(receipts[|receipts| - 1]).Some? then IdFrom(receipts[|receipts| - 1]).value
    else LastId(receipts[..|receipts| - 1])
  }

  lemma ChannelIdAfter(polarity: Polarity, channelId: u16, r: Receipt)
    requires |r.tail| >= PHANTOM_EXTENT
    ensures Reacts(polarity, channelId, r.message, r.tail, r.env).channelId
         == if IdFrom(r).Some? then IdFrom(r).value else channelId
  {
    NumberBound(r.message.params, r.tail, PARAMETER_CHANNEL_ID, 2);
    Bounds16And32();
  }

  /** A session's channel id is the last one a setup or PCM message gave it. */
  lemma {:induction false} ChannelIdIsLast(polarity: Polarity, receipts: Receipts)
    ensures Converse(polarity, receipts).channelId == LastId(receipts)
    decreases |receipts|
  {
    if receipts != [] {
      var before := receipts[..|receipts| - 1];
      ChannelIdIsLast(polarity, before);
      ChannelIdAfter(polarity, Converse(polarity, before).channelId, receipts[|receipts| - 1]);
    }
  }

  // ---- The replies ----

  /** Bytes that a receiver accepts, and that give back this channel id whatever its store holds. */
  ghost predicate IsReplyFrom(bytes: seq<byte>, channelId: u16) {
    exists m: Sendable :: IsEncodedReply(bytes, m, channelId)
  }

  ghost predicate IsEncodedReply(bytes: seq<byte>, m: Sendable, channelId: u16) {
    && bytes == Encode(m) && m.version == PROTOCOL_VERSION
    && m.params != [] && m.params[0] == Parameter(PARAMETER_CHANNEL_ID, Be16(channelId))
  }

  /** Every reply leads with the channel id the session has once the reply is made. */
  lemma RepliesLeadWithId(polarity: Polarity, channelId: u16, m: Message, tail: seq<byte>, env: Environment)
    requires |tail| >= PHANTOM_EXTENT
    ensures var out := Reacts(polarity, channelId, m, tail, env);
            out.action.Reply? ==> IsEncodedReply(Encode(out.action.message), out.action.message, out.channelId)
  {
  }

  /** parse_message accepts a reply, and its channel id lookup yields the id the reply was made with. */
  lemma ReplyAccepted(bytes: seq<byte>, m: Sendable, channelId: u16, buffer: seq<byte>, tail: seq<byte>)
    requires IsEncodedReply(bytes, m, channelId)
    requires |buffer| >= INPUT_EXTENT && bytes <= buffer && |tail| >= PHANTOM_EXTENT
    ensures Accepted(buffer) && BodyParams(buffer) == Some(m.params)
    ensures ChannelIdOf(m.params, tail) == Some(channelId)
  {
    assert buffer[..|bytes|] == bytes;
    ParsePackaged(buffer, m);
    LeadingChannelId(m, channelId, tail);
  }

  // ---- Messages whose handling depends on nothing but themselves ----

  /** The number lookup of type t is not led astray: the parameter has its width, or neither it nor a stale one is there. */
  predicate Plain(ps: seq<Param>, tail: seq<byte>, t: u16, width: nat)
    requires |tail| >= PHANTOM_EXTENT
  {
    FindNumber(ps, t, width).Some? || (Count(ps, t) == 0 && TypeAt(tail, 0) != t)
  }

  /** Nor is the lookup of the block: it is there, or an oversized parameter is, or no stale one fits. */
  predicate PlainContent(ps: seq<Param>, tail: seq<byte>)
    requires |tail| >= PHANTOM_EXTENT
  {
    || !NoneOversized(ps)
    || Count(ps, PARAMETER_BLOCK_DATA) > 0
    || TypeAt(tail, 0) != PARAMETER_BLOCK_DATA
    || LengthAt(tail, 0) > MAX_PARAMETER_LENGTH
  }

  /** These are exactly the messages whose lookups find what they are meant to find. */
  lemma PlainExactly(ps: seq<Param>, tail: seq<byte>, t: u16, width: nat)
    requires |tail| >= PHANTOM_EXTENT && width <= 4
    ensures Plain(ps, tail, t, width) <==> NumberAsCoded(ps, tail, t, width) == FindNumber(ps, t, width)
    ensures FindNumber(ps, t, width).Some? ==> NumberAsCoded(ps, tail, t, width) == FindNumber(ps, t, width)
    ensures PlainContent(ps, tail) <==> BlockDataOf(ps, tail) == FindContent(ps, PARAMETER_BLOCK_DATA, 0)
  {
    NumberDeparts(ps, tail, t, width);
    ContentDeparts(ps, tail, PARAMETER_BLOCK_DATA, 0);
  }

  /** A block of less than four bytes fails its check, and FFmpeg takes all samples of a block that passes. */
  predicate Served(data: seq<byte>, env: Environment) {
    if |data| < 4 then !env.shortBlockValid
    else Accepts(data) ==> env.allocates && env.converts && Taken(env.storing, BlockSamples(data)).Whole?
  }

  /** The lookups of the PCM handler mean what they say, as far as it makes them, and its block is served. */
  predicate StraightforwardPcm(ps: seq<Param>, tail: seq<byte>, env: Environment)
    requires |tail| >= PHANTOM_EXTENT
  {
    && Plain(ps, tail, PARAMETER_CHANNEL_ID, 2)
    && (!PcmGivesUp(Negated, ps, tail) ==>
          && Plain(ps, tail, PARAMETER_BLOCK_ID, 4) && Plain(ps, tail, PARAMETER_CRC, 4) && PlainContent(ps, tail)
          && (BlockDataOf(ps, tail).Some? ==> Served(BlockDataOf(ps, tail).value, env)))
  }

  /** A receipt that is handled as meant, whatever the session's channel id. Only setup and PCM messages are looked into. */
  predicate Straightforward(r: Receipt) {
    && |r.tail| >= PHANTOM_EXTENT
    && (r.message.mtype == MESSAGE_CHANNEL_SETUP ==> Plain(r.message.params, r.tail, PARAMETER_CHANNEL_ID, 2))
    && (r.message.mtype == MESSAGE_PCM_DATA_SEND_REQUEST ==> StraightforwardPcm(r.message.params, r.tail, r.env))
  }

  /** The intended answer to a block: no surroundings, and no checksum means a bad one. */
  function IntendedAnswer(channelId: u16, blockId: u32, data: Option<seq<byte>>): seq<byte> {
    match data
    case None => ErrorBytes(channelId, ERROR_NO_PAYLOAD)
    case Some(block) =>
      if |block| >= 4 && Accepts(block) then ResponseBytes(channelId, blockId) else ErrorBytes(channelId, ERROR_CRC_INVALID)
  }

  /** The three numbers that a PCM request is meant to carry are there. */
  predicate Numbered(ps: seq<Param>) {
    && FindNumber(ps, PARAMETER_CHANNEL_ID, 2).Some?
    && FindNumber(ps, PARAMETER_BLOCK_ID, 4).Some?
    && FindNumber(ps, PARAMETER_CRC, 4).Some?
  }

  function IntendedPcm(channelId: u16, ps: seq<Param>): Conversation {
    var id := AsU16(FindNumber(ps, PARAMETER_CHANNEL_ID, 2), channelId);
    var blockId := AsU32(FindNumber(ps, PARAMETER_BLOCK_ID, 4), 0);
    if Numbered(ps) then
      Conversation(id, [IntendedAnswer(id, blockId, FindContent(ps, PARAMETER_BLOCK_DATA, 0))])
    else Conversation(id, [])
  }

  /** The intended handling of a message, in the bytes that it is answered with. */
  function Intended(channelId: u16, m: Message): Conversation {
    var found := FindNumber(m.params, PARAMETER_CHANNEL_ID, 2);
    var id := AsU16(found, channelId);
    if m.mtype == MESSAGE_CHANNEL_SETUP then
      Conversation(id, if found.Some? then [StatusBytes(id)] else [])
    else if m.mtype == MESSAGE_CHANNEL_TEST then Conversation(channelId, [StatusBytes(channelId)])
    else if m.mtype == MESSAGE_CHANNEL_STATUS || m.mtype == MESSAGE_CHANNEL_ERROR || m.mtype == MESSAGE_CHANNEL_CLOSE
    then Conversation(channelId, [])
    else if m.mtype == MESSAGE_PCM_DATA_SEND_REQUEST then IntendedPcm(channelId, m.params)
    else Conversation(channelId, [ErrorBytes(channelId, ERROR_UNKNOWN_MESSAGE_TYPE)])
  }

  lemma {:induction false} FindNumberBound(ps: seq<Param>, t: u16, width: nat)
    ensures FindNumber(ps, t, width).Some? ==> FindNumber(ps, t, width).value < Pow256(width)
  {
    if ps != [] {
      if ps[0].ptype == t {
        ValueBound(ps[0].value);
      } else {
        FindNumberBound(ps[1..], t, width);
      }
    }
  }

  /** What an outcome says on the connection. */
  function Said(out: Outcome): Conversation {
    Conversation(out.channelId, ReplyBytes(out.action))
  }

  // ---- What the server answers, byte by byte ----

  lemma RepliesOnTheWire(id: u16, code: u16, blockId: u32)
    ensures Encode(StatusReply(id)) == StatusBytes(id)
    ensures Encode(ErrorReply(id, code)) == ErrorBytes(id, code)
    ensures Encode(ResponseReply(id, blockId)) == ResponseBytes(id, blockId)
  {
    ChannelMessagesOnTheWire(PROTOCOL_VERSION, id);
    ErrorOnTheWire(id, code);
    ResponseOnTheWire(id, blockId);
  }

  /** The four errors that the server sends. */
  lemma ErrorsOnTheWire(id: u16)
    ensures var head := [0x01, 0x00, 0x14, 0x00, 0x0c, 0x00, 0x01, 0x00, 0x02, id / 0x100, id % 0x100,
                         0x00, 0x05, 0x00, 0x02];
            && Encode(ErrorReply(id, ERROR_NO_PAYLOAD)) == head + [0x00, 0x02]
            && Encode(ErrorReply(id, ERROR_CRC_INVALID)) == head + [0x00, 0x03]
            && Encode(ErrorReply(id, ERROR_UNKNOWN_MESSAGE_TYPE)) == head + [0x00, 0x05]
            && Encode(ErrorReply(id, ERROR_UNKNOWN_ERROR)) == head + [0x70, 0x00]
  {
    RepliesOnTheWire(id, ERROR_NO_PAYLOAD, 0);
    RepliesOnTheWire(id, ERROR_CRC_INVALID, 0);
    RepliesOnTheWire(id, ERROR_UNKNOWN_MESSAGE_TYPE, 0);
    RepliesOnTheWire(id, ERROR_UNKNOWN_ERROR, 0);
  }

  /** Whether the checksum is right: the block is what pack_crc makes of its data. */
  predicate Intact(data: seq<byte>, env: Environment) {
    if |data| < 4 then env.shortBlockValid else data == Sealed(data[..|data| - 4])
  }

  /** How many samples a block has in front of its checksum, and how many of them are written to the FIFO. */
  function SamplesFor(length: nat): nat {
    if length < 4 then 0 else (length - 4) / 4
  }

  function WrittenOf(data: seq<byte>, env: Environment): (n: nat)
    ensures 4 * n <= |data|
  {
    if !Intact(data, env) || !env.allocates || !env.converts then 0
    else
      match env.storing
      case NotGrown => 0
      case WroteAll => SamplesFor(|data|)
      case WroteOnly(n) => Min(n, SamplesFor(|data|))
  }

  /** All calls in front of the frame loop succeed. */
  predicate AllWritten(data: seq<byte>, env: Environment) {
    && Intact(data, env) && env.allocates && env.converts
    && env.storing != NotGrown && WrittenOf(data, env) == SamplesFor(|data|)
  }

  /** The answer to a block, for everything that the surroundings can do. */
  function AnswerTo(channelId: u16, blockId: u32, data: Option<seq<byte>>, env: Environment): seq<byte> {
    match data
    case None => ErrorBytes(channelId, ERROR_NO_PAYLOAD)
    case Some(block) =>
      if !Intact(block, env) then ErrorBytes(channelId, ERROR_CRC_INVALID)
      else if AllWritten(block, env) then ResponseBytes(channelId, blockId)
      else ErrorBytes(channelId, ERROR_UNKNOWN_ERROR)
  }

  lemma IntactIsValid(data: seq<byte>, env: Environment)
    ensures BlockValid(data, env) <==> Intact(data, env)
  {
    if |data| >= 4 {
      AcceptsExactlySealed(data);
    }
  }

  lemma BlockSampleCount(data: seq<byte>)
    ensures 4 * SamplesFor(|data|) <= |data|
    ensures BlockSamples(data) == SamplesOf(data, SamplesFor(|data|))
  {
    if |data| < 8 {
      assert SamplesFor(|data|) == 0;
    }
  }

  lemma BlockIntake(channelId: u16, blockId: u32, block: seq<byte>, env: Environment)
    ensures 4 * SamplesFor(|block|) <= |block|
    ensures ReactsToBlock(channelId, blockId, Some(block), env).intake
         == if Intact(block, env) && env.allocates && env.converts
            then Taken(env.storing, SamplesOf(block, SamplesFor(|block|))) else Nothing
  {
    IntactIsValid(block, env);
    BlockSampleCount(block);
  }

  lemma TakenBytes(storing: Storing, data: seq<byte>, n: nat, m: nat)
    requires 4 * n <= |data| && m == |Kept(Taken(storing, SamplesOf(data, n)))|
    ensures m <= n && Flatten(BytesOfSample, Kept(Taken(storing, SamplesOf(data, n)))) == data[..4 * m]
  {
    TakenIsTheFront(storing, SamplesOf(data, n));
    assert Kept(Taken(storing, SamplesOf(data, n))) == SamplesOf(data, m);
    SamplesAreTheBytes(data, m);
  }

  /** The samples that get in are the block's first bytes, four to a sample; all of them exactly when all calls succeed. */
  lemma BlockIsTaken(channelId: u16, blockId: u32, block: seq<byte>, env: Environment)
    ensures 4 * WrittenOf(block, env) <= |block|
    ensures Flatten(BytesOfSample, Kept(ReactsToBlock(channelId, blockId, Some(block), env).intake))
         == block[..4 * WrittenOf(block, env)]
    ensures ReactsToBlock(channelId, blockId, Some(block), env).intake.Whole? <==> AllWritten(block, env)
  {
    BlockIntake(channelId, blockId, block, env);
    var n := SamplesFor(|block|);
    TakenIsTheFront(env.storing, SamplesOf(block, n));
    TakenBytes(env.storing, block, n, |Kept(Taken(env.storing, SamplesOf(block, n)))|);
  }

  /** And the answer is the one stated. */
  lemma BlockIsAnswered(channelId: u16, blockId: u32, data: Option<seq<byte>>, env: Environment)
    ensures Said(ReactsToBlock(channelId, blockId, data, env))
         == Conversation(channelId, [AnswerTo(channelId, blockId, data, env)])
    ensures data == None ==> ReactsToBlock(channelId, blockId, data, env).intake == Nothing
  {
    RepliesOnTheWire(channelId, ERROR_NO_PAYLOAD, blockId);
    RepliesOnTheWire(channelId, ERROR_CRC_INVALID, blockId);
    RepliesOnTheWire(channelId, ERROR_UNKNOWN_ERROR, blockId);
    if data.Some? {
      IntactIsValid(data.value, env);
      BlockIsTaken(channelId, blockId, data.value, env);
    }
  }

  // ---- What the server says, in both readings of the PCM handler's tests, whatever the surroundings do ----

  /** As written, the handler goes on if no lookup finds anything, with the session's id and a block id that nothing set. */
  function PcmAnswer(polarity: Polarity, channelId: u16, ps: seq<Param>, tail: seq<byte>, env: Environment): Conversation
    requires |tail| >= PHANTOM_EXTENT
  {
    var id, block, crc := ChannelIdOf(ps, tail), BlockIdOf(ps, tail), CrcOf(ps, tail);
    match polarity
    case AsWritten =>
      if id == block == crc == None then
        Conversation(channelId, [AnswerTo(channelId, env.blockId, BlockDataOf(ps, tail), env)])
      else Conversation(AsU16(id, channelId), [])
    case Negated =>
      if id.Some? && block.Some? && crc.Some? then
        var taken := AsU16(id, channelId);
        Conversation(taken, [AnswerTo(taken, AsU32(block, 0), BlockDataOf(ps, tail), env)])
      else Conversation(AsU16(id, channelId), [])
  }

  lemma PcmIsAnswered(polarity: Polarity, channelId: u16, ps: seq<Param>, tail: seq<byte>, env: Environment)
    requires |tail| >= PHANTOM_EXTENT
    ensures Said(ReactsToPcm(polarity, channelId, ps, tail, env)) == PcmAnswer(polarity, channelId, ps, tail, env)
  {
    NumberBound(ps, tail, PARAMETER_BLOCK_ID, 4);
    Bounds16And32();
    BlockIsAnswered(AsU16(ChannelIdOf(ps, tail), channelId), AsU32(BlockIdOf(ps, tail), env.blockId),
                    BlockDataOf(ps, tail), env);
  }

  /** The id and the bytes that follow on a message. */
  function Answer(polarity: Polarity, channelId: u16, r: Receipt): Conversation
    requires |r.tail| >= PHANTOM_EXTENT
  {
    var m := r.message;
    if m.mtype == MESSAGE_PCM_DATA_SEND_REQUEST then PcmAnswer(polarity, channelId, m.params, r.tail, r.env)
    else if m.mtype == MESSAGE_CHANNEL_SETUP then
      var found := ChannelIdOf(m.params, r.tail);
      var id := AsU16(found, channelId);
      Conversation(id, if found == None then [] else [StatusBytes(id)])
    else if m.mtype == MESSAGE_CHANNEL_TEST then Conversation(channelId, [StatusBytes(channelId)])
    else if MESSAGE_CHANNEL_STATUS <= m.mtype <= MESSAGE_CHANNEL_ERROR then Conversation(channelId, [])
    else Conversation(channelId, [ErrorBytes(channelId, ERROR_UNKNOWN_MESSAGE_TYPE)])
  }

  lemma ReactsAnswers(polarity: Polarity, channelId: u16, r: Receipt)
    requires |r.tail| >= PHANTOM_EXTENT
    ensures Said(Reacts(polarity, channelId, r.message, r.tail, r.env)) == Answer(polarity, channelId, r)
  {
    if r.message.mtype == MESSAGE_PCM_DATA_SEND_REQUEST {
      PcmIsAnswered(polarity, channelId, r.message.params, r.tail, r.env);
    } else {
      RepliesOnTheWire(channelId, ERROR_UNKNOWN_MESSAGE_TYPE, 0);
      RepliesOnTheWire(AsU16(ChannelIdOf(r.message.params, r.tail), channelId), 0, 0);
    }
  }

  function Answers(polarity: Polarity, receipts: Receipts): Conversation
    decreases |receipts|
  {
    if receipts == [] then Conversation(0, [])
    else
      var before := Answers(polarity, receipts[..|receipts| - 1]);
      var last := Answer(polarity, before.channelId, receipts[|receipts| - 1]);
      Conversation(last.channelId, before.replies + last.replies)
  }

  /** The conversation of every history, byte by byte. */
  lemma {:induction false} ConversationIsAnswers(polarity: Polarity, receipts: Receipts)
    ensures Converse(polarity, receipts) == Answers(polarity, receipts)
    decreases |receipts|
  {
    if receipts != [] {
      var before := receipts[..|receipts| - 1];
      ConversationIsAnswers(polarity, before);
      ReactsAnswers(polarity, Converse(polarity, before).channelId, receipts[|receipts| - 1]);
    }
  }

  /** What a PCM request puts into the FIFO. */
  lemma PcmIsTaken(polarity: Polarity, channelId: u16, ps: seq<Param>, tail: seq<byte>, env: Environment)
    requires |tail| >= PHANTOM_EXTENT && !PcmGivesUp(polarity, ps, tail)
    ensures var intake := ReactsToPcm(polarity, channelId, ps, tail, env).intake;
            match BlockDataOf(ps, tail)
            case None => intake == Nothing
            case Some(block) =>
              && 4 * WrittenOf(block, env) <= |block|
              && Flatten(BytesOfSample, Kept(intake)) == block[..4 * WrittenOf(block, env)]
              && (intake.Whole? <==> AllWritten(block, env))
  {
    var id, blockId := AsU16(ChannelIdOf(ps, tail), channelId), AsU32(BlockIdOf(ps, tail), env.blockId);
    if BlockDataOf(ps, tail).Some? {
      BlockIsTaken(id, blockId, BlockDataOf(ps, tail).value, env);
    }
  }

  /** Every other message is handled as intended, in both readings, exactly if it is straightforward. */
  lemma OthersAsIntended(polarity: Polarity, channelId: u16, r: Receipt)
    requires |r.tail| >= PHANTOM_EXTENT && r.message.mtype != MESSAGE_PCM_DATA_SEND_REQUEST
    ensures Said(Reacts(polarity, channelId, r.message, r.tail, r.env)) == Intended(channelId, r.message)
       <==> Straightforward(r)
    ensures Reacts(polarity, channelId, r.message, r.tail, r.env).intake == Nothing
  {
    PlainExactly(r.message.params, r.tail, PARAMETER_CHANNEL_ID, 2);
    ReactsAnswers(polarity, channelId, r);
  }

  /** A PCM request that is not meant to be answered, is not answered, and leaves the id as it was. */
  predicate Coincides(channelId: u16, ps: seq<Param>, tail: seq<byte>)
    requires |tail| >= PHANTOM_EXTENT
  {
    PcmGivesUp(Negated, ps, tail) && ChannelIdOf(ps, tail) == Some(channelId)
  }

  /** A receipt that a session with this channel id handles as meant. */
  predicate AsMeant(channelId: u16, r: Receipt)
    requires |r.tail| >= PHANTOM_EXTENT
  {
    || Straightforward(r)
    || (r.message.mtype == MESSAGE_PCM_DATA_SEND_REQUEST && Coincides(channelId, r.message.params, r.tail))
  }

  /** One on which the tests return is handled as intended exactly if its id lookup is plain, or changes nothing. */
  lemma GivenUpExactly(channelId: u16, ps: seq<Param>, tail: seq<byte>, env: Environment)
    requires |tail| >= PHANTOM_EXTENT && PcmGivesUp(Negated, ps, tail)
    ensures Said(ReactsToPcm(Negated, channelId, ps, tail, env)) == IntendedPcm(channelId, ps)
       <==> Plain(ps, tail, PARAMETER_CHANNEL_ID, 2) || ChannelIdOf(ps, tail) == Some(channelId)
  {
    PlainExactly(ps, tail, PARAMETER_CHANNEL_ID, 2);
    PlainExactly(ps, tail, PARAMETER_BLOCK_ID, 4);
    PlainExactly(ps, tail, PARAMETER_CRC, 4);
    NumberBound(ps, tail, PARAMETER_CHANNEL_ID, 2);
    FindNumberBound(ps, PARAMETER_CHANNEL_ID, 2);
    Bounds16And32();
  }

  lemma BlockExactly(channelId: u16, blockId: u32, data: Option<seq<byte>>, meant: Option<seq<byte>>, env: Environment)
    requires data != meant ==> meant == None
    ensures Said(ReactsToBlock(channelId, blockId, data, env))
            == Conversation(channelId, [IntendedAnswer(channelId, blockId, meant)])
       <==> data == meant && (data.Some? ==> Served(data.value, env))
  {
    BlockIsAnswered(channelId, blockId, data, env);
    if data.Some? {
      IntactIsValid(data.value, env);
      BlockIsTaken(channelId, blockId, data.value, env);
    }
    AnswersDiffer(channelId, blockId);
  }

  /** The answers to a block are four different ones. */
  lemma AnswersDiffer(channelId: u16, blockId: u32)
    ensures ErrorBytes(channelId, ERROR_NO_PAYLOAD) != ErrorBytes(channelId, ERROR_CRC_INVALID)
    ensures ErrorBytes(channelId, ERROR_NO_PAYLOAD) != ErrorBytes(channelId, ERROR_UNKNOWN_ERROR)
    ensures ErrorBytes(channelId, ERROR_CRC_INVALID) != ErrorBytes(channelId, ERROR_UNKNOWN_ERROR)
    ensures forall code :: ErrorBytes(channelId, code) != ResponseBytes(channelId, blockId)
  {
    assert ErrorBytes(channelId, ERROR_NO_PAYLOAD)[16] == 0x02;
    assert ErrorBytes(channelId, ERROR_CRC_INVALID)[16] == 0x03;
    assert ErrorBytes(channelId, ERROR_UNKNOWN_ERROR)[16] == 0x00;
    forall code ensures ErrorBytes(channelId, code) != ResponseBytes(channelId, blockId) {
      assert |ErrorBytes(channelId, code)| == 17;
    }
  }

  /** The handler goes on where it is not meant to. */
  lemma NotNumbered(channelId: u16, ps: seq<Param>, tail: seq<byte>, env: Environment)
    requires |tail| >= PHANTOM_EXTENT && !PcmGivesUp(Negated, ps, tail) && !Numbered(ps)
    ensures ReactsToPcm(Negated, channelId, ps, tail, env).action.Reply? && IntendedPcm(channelId, ps).replies == []
  {
  }

  /** Where it is meant to, its three numbers are the ones meant. */
  lemma NumbersAsMeant(ps: seq<Param>, tail: seq<byte>)
    requires |tail| >= PHANTOM_EXTENT && !PcmGivesUp(Negated, ps, tail)
    ensures Numbered(ps) <==> Plain(ps, tail, PARAMETER_CHANNEL_ID, 2) && Plain(ps, tail, PARAMETER_BLOCK_ID, 4)
                              && Plain(ps, tail, PARAMETER_CRC, 4)
    ensures Numbered(ps) ==> ChannelIdOf(ps, tail) == FindNumber(ps, PARAMETER_CHANNEL_ID, 2)
                             && BlockIdOf(ps, tail) == FindNumber(ps, PARAMETER_BLOCK_ID, 4)
    ensures BlockIdOf(ps, tail).Some? && BlockIdOf(ps, tail).value < 0x1_0000_0000
  {
    PlainExactly(ps, tail, PARAMETER_CHANNEL_ID, 2);
    PlainExactly(ps, tail, PARAMETER_BLOCK_ID, 4);
    PlainExactly(ps, tail, PARAMETER_CRC, 4);
    NumberBound(ps, tail, PARAMETER_BLOCK_ID, 4);
    Bounds16And32();
  }

  lemma BlockAsMeant(ps: seq<Param>, tail: seq<byte>)
    requires |tail| >= PHANTOM_EXTENT
    ensures var meant := FindContent(ps, PARAMETER_BLOCK_DATA, 0);
            && (PlainContent(ps, tail) <==> BlockDataOf(ps, tail) == meant)
            && (BlockDataOf(ps, tail) != meant ==> meant == None)
  {
    PlainExactly(ps, tail, PARAMETER_BLOCK_ID, 4);
    FindContentAppended(ps, Phantom(tail), PARAMETER_BLOCK_DATA, 0);
  }

  /** A PCM request that goes on is handled as intended exactly if its other lookups are plain and its block is served. */
  lemma GoneOnExactly(channelId: u16, ps: seq<Param>, tail: seq<byte>, env: Environment)
    requires |tail| >= PHANTOM_EXTENT && !PcmGivesUp(Negated, ps, tail)
    ensures Said(ReactsToPcm(Negated, channelId, ps, tail, env)) == IntendedPcm(channelId, ps)
       <==> StraightforwardPcm(ps, tail, env)
  {
    NumbersAsMeant(ps, tail);
    BlockAsMeant(ps, tail);
    if Numbered(ps) {
      var id, blockId := AsU16(ChannelIdOf(ps, tail), channelId), AsU32(BlockIdOf(ps, tail), env.blockId);
      BlockExactly(id, blockId, BlockDataOf(ps, tail), FindContent(ps, PARAMETER_BLOCK_DATA, 0), env);
    } else {
      NotNumbered(channelId, ps, tail, env);
    }
  }

  /**
   The exact condition under which a message is handled as intended: it is
   straightforward, or it is a PCM request that is not answered either way and whose
   stale id happens to be the one the session has.
  */
  lemma IntendedExactly(channelId: u16, r: Receipt)
    requires |r.tail| >= PHANTOM_EXTENT
    ensures Said(Reacts(Negated, channelId, r.message, r.tail, r.env)) == Intended(channelId, r.message)
       <==> AsMeant(channelId, r)
  {
    var ps := r.message.params;
    if r.message.mtype != MESSAGE_PCM_DATA_SEND_REQUEST {
      OthersAsIntended(Negated, channelId, r);
    } else {
      if PcmGivesUp(Negated, ps, r.tail) {
        GivenUpExactly(channelId, ps, r.tail, r.env);
      } else {
        GoneOnExactly(channelId, ps, r.tail, r.env);
      }
    }
  }

  /** Every message of interface.cpp is straightforward, whatever messages came before it, if FFmpeg does its part. */
  lemma BuiltIsStraightforward(r: Receipt, id: u16, errorCode: u16, blockId: u32, data: seq<byte>, crc: u32)
    requires |r.tail| >= PHANTOM_EXTENT && |data| < 0x1_0000
    requires || (r.message == ChannelMessage(r.message.version, r.message.mtype, id)
                 && r.message.mtype != MESSAGE_PCM_DATA_SEND_REQUEST)
             || r.message == ChannelError(r.message.version, id, errorCode)
             || r.message == PcmResponse(r.message.version, id, blockId)
             || (r.message == PcmRequest(r.message.version, id, blockId, data, crc)
                 && (|data| <= MAX_PARAMETER_LENGTH ==> Served(data, r.env)))
    ensures Straightforward(r)
  {
    var m := r.message;
    if m.mtype == MESSAGE_PCM_DATA_SEND_REQUEST {
      RequestNumbers(m, id, blockId, data, crc);
      RequestLookups(m, id, blockId, data, crc, r.tail);
    }
  }

  lemma RequestNumbers(m: Message, id: u16, blockId: u32, data: seq<byte>, crc: u32)
    requires |data| < 0x1_0000 && m == PcmRequest(m.version, id, blockId, data, crc)
    ensures Numbered(m.params) && Count(m.params, PARAMETER_BLOCK_DATA) > 0
  {
    var ps := m.params;
    assert ps[1..][0] == ps[1] && ps[1..][1..] == ps[2..];
    assert ps[2..][0] == ps[2] && ps[2..][1..] == ps[3..] && ps[3..][0] == ps[3];
    assert FindNumber(ps[1..], PARAMETER_BLOCK_ID, 4).Some?;
    assert FindNumber(ps[3..], PARAMETER_CRC, 4).Some?;
    assert FindNumber(ps[2..], PARAMETER_CRC, 4).Some?;
    assert FindNumber(ps[1..], PARAMETER_CRC, 4).Some?;
    assert Count(ps[2..], PARAMETER_BLOCK_DATA) > 0;
    assert Count(ps[1..], PARAMETER_BLOCK_DATA) > 0;
  }

  /** The conversation a stream of messages is meant to produce. */
  function IntendedConversation(ms: seq<Message>): Conversation
    decreases |ms|
  {
    if ms == [] then Conversation(0, [])
    else
      var before := IntendedConversation(ms[..|ms| - 1]);
      var last := Intended(before.channelId, ms[|ms| - 1]);
      Conversation(last.channelId, before.replies + last.replies)
  }

  function MessagesOf(receipts: seq<Receipt>): (ms: seq<Message>)
    ensures |ms| == |receipts|
  {
    seq(|receipts|, k requires 0 <= k < |receipts| => receipts[k].message)
  }

  /** Every message of the history was handled as meant when it came. */
  predicate AllAsMeant(receipts: Receipts)
    decreases |receipts|
  {
    receipts != [] ==>
      var before := receipts[..|receipts| - 1];
      AllAsMeant(before) && AsMeant(Converse(Negated, before).channelId, receipts[|receipts| - 1])
  }

  /** After each message of the history, the conversation was the intended one of the messages so far. */
  predicate FollowsIntent(receipts: Receipts)
    decreases |receipts|
  {
    receipts != [] ==>
      && FollowsIntent(receipts[..|receipts| - 1])
      && Converse(Negated, receipts) == IntendedConversation(MessagesOf(receipts))
  }

  lemma ConversationStep(receipts: Receipts)
    requires receipts != []
    requires var before := receipts[..|receipts| - 1]; Converse(Negated, before) == IntendedConversation(MessagesOf(before))
    ensures Converse(Negated, receipts) == IntendedConversation(MessagesOf(receipts))
       <==> AsMeant(Converse(Negated, receipts[..|receipts| - 1]).channelId, receipts[|receipts| - 1])
  {
    var before, last := receipts[..|receipts| - 1], receipts[|receipts| - 1];
    var channelId := Converse(Negated, before).channelId;
    assert MessagesOf(receipts)[..|receipts| - 1] == MessagesOf(before);
    IntendedExactly(channelId, last);
    SameEnds(Converse(Negated, before).replies, Said(LastOutcome(Negated, receipts)).replies,
             Intended(channelId, last.message).replies);
  }

  lemma SameEnds<T>(a: seq<T>, b: seq<T>, c: seq<T>)
    ensures a + b == a + c <==> b == c
  {
    if a + b == a + c {
      assert b == (a + b)[|a|..] && c == (a + c)[|a|..];
    }
  }

  /**
   Replies and channel id are a sequential function of the message stream alone, the
   intended one, all along a history if and only if each of its messages was handled
   as meant.
  */
  lemma {:induction false} ConversationOfMessages(receipts: Receipts)
    ensures FollowsIntent(receipts) <==> AllAsMeant(receipts)
    ensures FollowsIntent(receipts) ==> Converse(Negated, receipts) == IntendedConversation(MessagesOf(receipts))
    decreases |receipts|
  {
    if receipts != [] {
      var before := receipts[..|receipts| - 1];
      ConversationOfMessages(before);
      if FollowsIntent(before) {
        ConversationStep(receipts);
      }
    }
  }

  // ---- The samples of a conversation ----

  /** The samples a session has put into the FIFO, in the order of its messages. */
  function Contribution(polarity: Polarity, receipts: Receipts): seq<Sample>
    decreases |receipts|
  {
    if receipts == [] then []
    else Contribution(polarity, receipts[..|receipts| - 1]) + Kept(LastOutcome(polarity, receipts).intake)
  }

  /** The bytes of a message that end up in the FIFO: the front of its block, if its handler gets that far. */
  function BytesTaken(polarity: Polarity, r: Receipt): seq<byte>
    requires |r.tail| >= PHANTOM_EXTENT
  {
    var block := BlockDataOf(r.message.params, r.tail);
    if r.message.mtype == MESSAGE_PCM_DATA_SEND_REQUEST && block.Some?
       && PcmAnswer(polarity, 0, r.message.params, r.tail, r.env).replies != []
    then block.value[..4 * WrittenOf(block.value, r.env)]
    else []
  }

  lemma ReceiptBytes(polarity: Polarity, channelId: u16, r: Receipt)
    requires |r.tail| >= PHANTOM_EXTENT
    ensures Flatten(BytesOfSample, Kept(Reacts(polarity, channelId, r.message, r.tail, r.env).intake))
         == BytesTaken(polarity, r)
  {
    if r.message.mtype == MESSAGE_PCM_DATA_SEND_REQUEST {
      if !PcmGivesUp(polarity, r.message.params, r.tail) {
        PcmIsTaken(polarity, channelId, r.message.params, r.tail, r.env);
      }
    } else {
      OthersAsIntended(polarity, channelId, r);
    }
  }

  function AllBytesTaken(polarity: Polarity, receipts: Receipts): seq<byte>
    decreases |receipts|
  {
    if receipts == [] then []
    else AllBytesTaken(polarity, receipts[..|receipts| - 1]) + BytesTaken(polarity, receipts[|receipts| - 1])
  }

  /** A session's samples are, byte for byte and in order, the fronts of the blocks it was sent. */
  lemma {:induction false} ContributionIsTheBytes(polarity: Polarity, receipts: Receipts)
    ensures Flatten(BytesOfSample, Contribution(polarity, receipts)) == AllBytesTaken(polarity, receipts)
    decreases |receipts|
  {
    if receipts != [] {
      var before := receipts[..|receipts| - 1];
      ContributionIsTheBytes(polarity, before);
      ReceiptBytes(polarity, Converse(polarity, before).channelId, receipts[|receipts| - 1]);
      FlattenConcat(BytesOfSample, Contribution(polarity, before), Kept(LastOutcome(polarity, receipts).intake));
    }
  }

  /** The samples a message is meant to add: those in front of a valid checksum, four bytes each. */
  function IntendedSamples(m: Message): seq<Sample> {
    var block := FindContent(m.params, PARAMETER_BLOCK_DATA, 0);
    if
      && m.mtype == MESSAGE_PCM_DATA_SEND_REQUEST && Numbered(m.params)
      && block.Some? && |block.value| >= 4 && Accepts(block.value)
    then SamplesOf(block.value, (|block.value| - 4) / 4)
    else []
  }

  lemma SamplesAsMeant(channelId: u16, r: Receipt)
    requires |r.tail| >= PHANTOM_EXTENT && AsMeant(channelId, r)
    ensures Kept(Reacts(Negated, channelId, r.message, r.tail, r.env).intake) == IntendedSamples(r.message)
  {
    if r.message.mtype == MESSAGE_PCM_DATA_SEND_REQUEST {
      var ps := r.message.params;
      PlainExactly(ps, r.tail, PARAMETER_CHANNEL_ID, 2);
      PlainExactly(ps, r.tail, PARAMETER_BLOCK_ID, 4);
      PlainExactly(ps, r.tail, PARAMETER_CRC, 4);
    }
  }

  function IntendedContribution(ms: seq<Message>): seq<Sample>
    decreases |ms|
  {
    if ms == [] then [] else IntendedContribution(ms[..|ms| - 1]) + IntendedSamples(ms[|ms| - 1])
  }

  /** And so are the samples it adds. */
  lemma {:induction false} ContributionOfMessages(receipts: Receipts)
    requires AllAsMeant(receipts)
    ensures Contribution(Negated, receipts) == IntendedContribution(MessagesOf(receipts))
    decreases |receipts|
  {
    if receipts != [] {
      var before := receipts[..|receipts| - 1];
      var last := receipts[|receipts| - 1];
      ContributionOfMessages(before);
      assert MessagesOf(receipts)[..|receipts| - 1] == MessagesOf(before);
      SamplesAsMeant(Converse(Negated, before).channelId, last);
    }
  }

  // ---- The tests as they are written ----

  /** As written, a PCM message gets an answer, or its samples into the FIFO, only if all three lookups fail. */
  lemma PcmAsWritten(channelId: u16, ps: seq<Param>, tail: seq<byte>, env: Environment)
    requires |tail| >= PHANTOM_EXTENT
    ensures var out := ReactsToPcm(AsWritten, channelId, ps, tail, env);
            && (out.action.Stall? <==> ChannelIdOf(ps, tail).Some? || BlockIdOf(ps, tail).Some? || CrcOf(ps, tail).Some?)
            && (out.action.Stall? ==> out.intake == Nothing)
  {
  }

  /** So every request built by pcm_data_send_request is dropped, and the connection with it. */
  lemma RequestAsWritten(channelId: u16, m: Message, id: u16, blockId: u32, data: seq<byte>, crc: u32,
                         tail: seq<byte>, env: Environment)
    requires |tail| >= PHANTOM_EXTENT && |data| < 0x1_0000
    requires m == PcmRequest(m.version, id, blockId, data, crc)
    ensures Reacts(AsWritten, channelId, m, tail, env) == Outcome(id, Stall, Nothing)
  {
    RequestLookups(m, id, blockId, data, crc, tail);
  }

  /** A message that carries a channel id, of whatever width, if it is a PCM request. */
  predicate Identified(r: Receipt) {
    r.message.mtype == MESSAGE_PCM_DATA_SEND_REQUEST ==> Count(r.message.params, PARAMETER_CHANNEL_ID) > 0
  }

  lemma NothingFromAsWritten(channelId: u16, r: Receipt)
    requires |r.tail| >= PHANTOM_EXTENT && Identified(r)
    ensures Kept(Reacts(AsWritten, channelId, r.message, r.tail, r.env).intake) == []
  {
    if r.message.mtype == MESSAGE_PCM_DATA_SEND_REQUEST {
      NumberFound(r.message.params, r.tail, PARAMETER_CHANNEL_ID, 2);
      PcmAsWritten(channelId, r.message.params, r.tail, r.env);
    }
  }

  /** As written, a session whose PCM requests say whom they are from adds no sample, ever. */
  lemma {:induction false} NothingAddedAsWritten(receipts: Receipts)
    requires forall k | 0 <= k < |receipts| :: Identified(receipts[k])
    ensures Contribution(AsWritten, receipts) == []
    decreases |receipts|
  {
    if receipts != [] {
      var before, last := receipts[..|receipts| - 1], receipts[|receipts| - 1];
      NothingAddedAsWritten(before);
      NothingFromAsWritten(Converse(AsWritten, before).channelId, last);
    }
  }
}
