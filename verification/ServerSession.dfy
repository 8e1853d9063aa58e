/** The server_session object of Server.cpp, proved against the session's state machine. */
module ServerSessions {
  import opened Bytes
  import opened Messages
  import opened Parser
  import opened Writer
  import opened Codec
  import opened CommonMessages
  import opened Interface
  import C = Crc
  import opened Audio
  import opened Sessions

  class ServerSession {
    const polarity: Polarity
    const info: CommonMessage
    const input: array<byte>
    const output: array<byte>
    const pipeline: SharedPipeline
    var channelId: u16
    var pending: multiset<Operation>
    var closed: bool
    ghost var received: seq<Receipt>
    ghost var sent: seq<seq<byte>>

    ghost predicate Valid() {
      && info.Valid() && pipeline.Valid()
      && input.Length == BUFFER_SIZE && output.Length == BUFFER_SIZE
      && input != output && input != info.store && output != info.store
    }

    ghost function View(): (s: Session)
      requires Valid()
      reads this, info, info.store, input, output
      ensures Shaped(s)
    {
      Session(pending, closed, channelId, info.View(), input[..], output[..], received, sent)
    }

    constructor (polarity: Polarity, pipeline: SharedPipeline, version: byte, length: u16)
      requires pipeline.Valid()
      ensures Valid() && this.pipeline == pipeline && this.polarity == polarity
      ensures fresh(info) && fresh(info.store) && fresh(input) && fresh(output)
      ensures channelId == 0 && pending == multiset{} && !closed && received == [] && sent == []
    {
      this.polarity := polarity;
      this.pipeline := pipeline;
      info := new CommonMessage(version, length);
      input := new byte[BUFFER_SIZE](_ => 0);
      output := new byte[BUFFER_SIZE](_ => 0);
      channelId := 0;
      pending := multiset{};
      closed := false;
      received, sent := [], [];
    }

    /** async_read of a head: the operation becomes outstanding. */
    method Start()
      requires Valid()
      modifies this`pending
      ensures View() == Issued(old(View()), ReadHead)
    {
      pending := pending + multiset{ReadHead};
    }

    method DoClose()
      requires Valid()
      modifies this`closed
      ensures View() == Closed(old(View()))
    {
      closed := true;
    }

    /** send_data: the write refers to the output buffer, it does not copy it. */
    method SendData(length: nat, ghost reply: seq<byte>)
      requires Valid()
      modifies this`pending, this`sent
      ensures View() == Issued(old(View()), Write(length)).(sent := old(View()).sent + [reply])
    {
      pending := pending + multiset{Write(length)};
      sent := sent + [reply];
    }

    /** The builders of interface.cpp followed by send_data. */
    method SendReply(m: Sendable)
      requires Valid() && m.params != []
      modifies this`pending, this`sent, output
      ensures View() == Replied(old(View()), m)
    {
      var length := PackageMessage(output, m);
      SendData(length, Encode(m));
    }

    method HandleReadHeader(ok: bool)
      requires Valid()
      modifies this`pending, this`closed, info
      ensures View() == AfterHead(old(View()), ok)
    {
      if ok {
        var fits := info.ParseMessageHead(input);
        if !fits {
          DoClose();
          return;
        }
        pending := pending + multiset{ReadBody(info.bodyLength)};
      } else {
        DoClose();
      }
    }

    method HandleWrite(ok: bool)
      requires Valid()
      modifies this`pending, this`closed
      ensures View() == AfterWrite(old(View()), ok)
    {
      if ok {
        pending := pending + multiset{ReadHead};
      } else {
        DoClose();
      }
    }

    // ---- The message handlers ----

    method ProcessChannelSetup()
      requires Valid() && Loaded(info.View())
      modifies this`channelId, this`pending, this`sent, output
      ensures View() == Applied(old(View()),
                                ReactsToSetup(old(channelId), ParamsIn(old(info.View())), TailIn(old(info.View()))))
    {
      LoadedAccess(info.View());
      var id := GetChannelId(info);
      if id.None? {
        return;
      }
      channelId := id.value;
      SendReply(StatusReply(channelId));
    }

    method ProcessChannelTest()
      requires Valid()
      modifies this`pending, this`sent, output
      ensures View() == Replied(old(View()), StatusReply(old(channelId)))
    {
      SendReply(StatusReply(channelId));
    }

    method ProcessChannelStatus()
      requires Valid()
      modifies this`pending
      ensures View() == Issued(old(View()), ReadHead)
    {
      pending := pending + multiset{ReadHead};
    }

    method ProcessDefault()
      requires Valid()
      modifies this`pending, this`sent, output
      ensures View() == Replied(old(View()), ErrorReply(old(channelId), ERROR_UNKNOWN_MESSAGE_TYPE))
    {
      SendReply(ErrorReply(channelId, ERROR_UNKNOWN_MESSAGE_TYPE));
    }

    /** convert_samples: the samples of the block, one for every four bytes of input. */
    method ConvertSamples(pcm: array<byte>, count: int) returns (samples: seq<Sample>)
      requires 4 * count <= pcm.Length
      ensures samples == if count <= 0 then [] else SamplesOf(pcm[..], count)
    {
      samples := [];
      var i := 0;
      while i < count
        invariant 0 <= i && (i <= count || i == 0)
        invariant samples == SamplesOf(pcm[..], i)
      {
        samples := samples + [Sample(pcm[4 * i], pcm[4 * i + 1], pcm[4 * i + 2], pcm[4 * i + 3])];
        i := i + 1;
      }
    }

    /** validate_crc; with fewer than four bytes it reads in front of the block. */
    method CheckBlock(pcm: array<byte>, length: u16, env: Environment) returns (valid: bool)
      requires length <= pcm.Length
      ensures valid == BlockValid(pcm[..length], env)
    {
      if length < 4 {
        return env.shortBlockValid;
      }
      valid := C.ValidateCrc(pcm, length);
    }

    /** The PCM handler from init_converted_samples on. */
    method ProcessSamples(blockId: u32, pcm: array<byte>, count: int, env: Environment)
      requires Valid() && pcm != output && 4 * count <= pcm.Length
      modifies this`pending, this`sent, output, pipeline
      ensures var samples := if count <= 0 then [] else SamplesOf(old(pcm[..]), count);
              var out := ReactsToSamples(old(channelId), blockId, samples, env);
              && View() == Applied(old(View()), out)
              && pipeline.View() == AudioAfter(old(pipeline.View()), pipeline.frameSize, out.intake, env)
    {
      if !env.allocates {
        SendReply(ErrorReply(channelId, ERROR_UNKNOWN_ERROR));
        return;
      }
      if !env.converts {
        SendReply(ErrorReply(channelId, ERROR_UNKNOWN_ERROR));
        return;
      }
      var samples := ConvertSamples(pcm, count);
      var stored := pipeline.AddSamples(samples, env.storing);
      if !stored {
        SendReply(ErrorReply(channelId, ERROR_UNKNOWN_ERROR));
        return;
      }
      pipeline.Drain(env.frames);
      SendReply(ResponseReply(channelId, blockId));
    }

    /** The PCM handler from the block's lookup on. */
    method ProcessBlock(blockId: u32, found: bool, pcm: array<byte>, length: u16, env: Environment)
      requires Valid() && pcm != output && pcm.Length >= MAX_PARAMETER_LENGTH
      requires found ==> length <= MAX_PARAMETER_LENGTH
      modifies this`pending, this`sent, output, pipeline
      ensures var out := ReactsToBlock(old(channelId), blockId, if found then Some(old(pcm[..length])) else None, env);
              && View() == Applied(old(View()), out)
              && pipeline.View() == AudioAfter(old(pipeline.View()), pipeline.frameSize, out.intake, env)
    {
      if !found {
        SendReply(ErrorReply(channelId, ERROR_NO_PAYLOAD));
        return;
      }
      var valid := CheckBlock(pcm, length, env);
      if !valid {
        SendReply(ErrorReply(channelId, ERROR_CRC_INVALID));
        return;
      }
      var count := SampleCount(length);
      assert count > 0 ==> SamplesOf(pcm[..], count) == SamplesOf(pcm[..length], count);
      ProcessSamples(blockId, pcm, count, env);
    }

    /** The three number lookups; a lookup that succeeds writes its variable whether or not the test returns. */
    method LookUpNumbers(env: Environment) returns (proceeds: bool, blockId: u32)
      requires Valid() && Loaded(info.View())
      modifies this`channelId
      ensures channelId == AsU16(ChannelIdOf(ParamsIn(info.View()), TailIn(info.View())), old(channelId))
      ensures proceeds <==> !PcmGivesUp(polarity, ParamsIn(info.View()), TailIn(info.View()))
      ensures proceeds ==> blockId == AsU32(BlockIdOf(ParamsIn(info.View()), TailIn(info.View())), env.blockId)
    {
      LoadedAccess(info.View());
      blockId := env.blockId;
      var id := GetChannelId(info);
      if id.Some? {
        channelId := id.value;
      }
      if id.Some? == polarity.AsWritten? {
        return false, blockId;
      }
      var block := GetBlockId(info);
      if block.Some? {
        blockId := block.value;
      }
      if block.Some? == polarity.AsWritten? {
        return false, blockId;
      }
      var crc := GetCrc(info);
      return crc.Some? != polarity.AsWritten?, blockId;
    }

    /** The block's lookup into a buffer on the stack. */
    method FetchBlock() returns (found: bool, pcm: array<byte>, length: u16)
      requires Valid() && Loaded(info.View())
      ensures fresh(pcm) && pcm.Length >= MAX_PARAMETER_LENGTH >= length
      ensures BlockDataOf(ParamsIn(info.View()), TailIn(info.View())) == if found then Some(pcm[..length]) else None
    {
      pcm := new byte[32 * 1024];
      LoadedAccess(info.View());
      found, length := GetBlockData(info, pcm);
    }

    method ProcessPcmDataSendRequest(env: Environment)
      requires Valid() && Loaded(info.View())
      modifies this`channelId, this`pending, this`sent, output, pipeline
      ensures var out := ReactsToPcm(polarity, old(channelId), ParamsIn(old(info.View())), TailIn(old(info.View())), env);
              && View() == Applied(old(View()), out)
              && pipeline.View() == AudioAfter(old(pipeline.View()), pipeline.frameSize, out.intake, env)
    {
      ghost var ps, tail := ParamsIn(info.View()), TailIn(info.View());
      var proceeds, blockId := LookUpNumbers(env);
      if !proceeds {
        return;
      }
      var found, pcm, length := FetchBlock();
      ProcessBlock(blockId, found, pcm, length, env);
    }

    /** The switch of handle_read_body. */
    method Dispatch(env: Environment)
      requires Valid() && Loaded(info.View())
      modifies this`channelId, this`pending, this`closed, this`sent, output, pipeline
      ensures View() == Applied(old(View()), OutcomeOf(polarity, old(View()), env))
      ensures pipeline.View() == AudioAfter(old(pipeline.View()), pipeline.frameSize,
                                            OutcomeOf(polarity, old(View()), env).intake, env)
    {
      if info.messageType == MESSAGE_CHANNEL_SETUP {
        ProcessChannelSetup();
      } else if info.messageType == MESSAGE_CHANNEL_TEST {
        ProcessChannelTest();
      } else if info.messageType == MESSAGE_CHANNEL_STATUS {
        ProcessChannelStatus();
      } else if info.messageType == MESSAGE_CHANNEL_ERROR {
        DoClose();
      } else if info.messageType == MESSAGE_CHANNEL_CLOSE {
        DoClose();
      } else if info.messageType == MESSAGE_PCM_DATA_SEND_REQUEST {
        ProcessPcmDataSendRequest(env);
      } else {
        ProcessDefault();
      }
    }

    method HandleReadBody(ok: bool, env: Environment)
      requires Valid()
      modifies this`channelId, this`pending, this`closed, this`received, this`sent, info, info.store, output, pipeline
      ensures View() == AfterBody(polarity, old(View()), ok, env)
      ensures pipeline.View() == AudioAfter(old(pipeline.View()), pipeline.frameSize,
                                            IntakeOf(polarity, old(View()), ok, env), env)
    {
      if !ok {
        DoClose();
        return;
      }
      ghost var was := View();
      var accepted := info.ParseMessage(input);
      if !accepted {
        DoClose();
        return;
      }
      ParsedLoads(was.info, input[..]);
      ghost var st := info.View();
      received := received + [Receipt(Message(st.version, st.mtype, ParamsIn(st)), TailIn(st), env)];
      Dispatch(env);
    }

    /** Bytes a read operation leaves in the input buffer. */
    method Receive(at: nat, bytes: seq<byte>)
      requires Valid() && at + |bytes| <= BUFFER_SIZE
      modifies input
      ensures input[..] == Placed(old(input[..]), at, bytes)
    {
      for i := 0 to |bytes|
        invariant input[..] == Placed(old(input[..]), at, bytes[..i])
      {
        input[at + i] := bytes[i];
        assert bytes[..i + 1] == bytes[..i] + [bytes[i]];
      }
      assert bytes[..|bytes|] == bytes;
    }

    /** The operation is no longer outstanding, and its bytes are where it was to put them. */
    method Deliver(e: Event)
      requires Valid() && Enabled(View(), e)
      modifies this`pending, input
      ensures View() == Delivered(old(View()), e)
    {
      match e
      case HeadRead(ok, bytes) =>
        pending := pending - multiset{ReadHead};
        Receive(0, bytes);
      case BodyRead(ok, bytes, env) =>
        pending := pending - multiset{ReadBody(info.bodyLength)};
        Receive(MESSAGE_HEAD_LENGTH, bytes);
      case Written(ok, length) =>
        pending := pending - multiset{Write(length)};
    }

    /** The io_service completes an outstanding operation and runs its handler. */
    method Complete(e: Event)
      requires Valid() && Enabled(View(), e)
      modifies this, info, info.store, input, output, pipeline
      ensures View() == Step(polarity, old(View()), e)
      ensures pipeline.View() == AudioStep(polarity, old(View()), e, old(pipeline.View()), pipeline.frameSize)
    {
      Deliver(e);
      match e
      case HeadRead(ok, bytes) => HandleReadHeader(ok);
      case BodyRead(ok, bytes, env) => HandleReadBody(ok, env);
      case Written(ok, length) => HandleWrite(ok);
    }
  }
}
