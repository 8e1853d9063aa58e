/** The concrete messages of interface.cpp and the accessors the server uses. */
module Interface {
  import opened Bytes
  import opened Messages
  import opened Lookups
  import opened Parser
  import opened Writer
  import opened Codec
  import opened CommonMessages

  const PROTOCOL_VERSION: byte := 1

  const MESSAGE_CHANNEL_SETUP: u16 := 0x10
  const MESSAGE_CHANNEL_TEST: u16 := 0x11
  const MESSAGE_CHANNEL_STATUS: u16 := 0x12
  const MESSAGE_CHANNEL_CLOSE: u16 := 0x13
  const MESSAGE_CHANNEL_ERROR: u16 := 0x14
  const MESSAGE_PCM_DATA_SEND_REQUEST: u16 := 0x20
  const MESSAGE_PCM_DATA_SEND_RESPONSE: u16 := 0x21

  const PARAMETER_CHANNEL_ID: u16 := 0x01
  const PARAMETER_BLOCK_ID: u16 := 0x02
  const PARAMETER_BLOCK_DATA: u16 := 0x03
  const PARAMETER_CRC: u16 := 0x04
  const PARAMETER_ERROR_CODE: u16 := 0x05

  const ERROR_NO_PAYLOAD: u16 := 0x02
  const ERROR_CRC_INVALID: u16 := 0x03
  const ERROR_UNKNOWN_MESSAGE_TYPE: u16 := 0x05
  const ERROR_UNKNOWN_ERROR: u16 := 0x7000

  // ---- The messages ----

  /** channel_setup, channel_test, channel_status and channel_close differ in their type only. */
  function ChannelMessage(version: byte, mtype: u16, channelId: u16): Message {
    Message(version, mtype, [Parameter(PARAMETER_CHANNEL_ID, Be16(channelId))])
  }

  function ChannelError(version: byte, channelId: u16, errorCode: u16): Message {
    Message(version, MESSAGE_CHANNEL_ERROR,
            [Parameter(PARAMETER_CHANNEL_ID, Be16(channelId)), Parameter(PARAMETER_ERROR_CODE, Be16(errorCode))])
  }

  function PcmRequest(version: byte, channelId: u16, blockId: u32, data: seq<byte>, crc: u32): Message
    requires |data| < 0x1_0000
  {
    Message(version, MESSAGE_PCM_DATA_SEND_REQUEST,
            [Parameter(PARAMETER_CHANNEL_ID, Be16(channelId)), Parameter(PARAMETER_BLOCK_ID, Be32(blockId)),
             Parameter(PARAMETER_BLOCK_DATA, data), Parameter(PARAMETER_CRC, Be32(crc))])
  }

  function PcmResponse(version: byte, channelId: u16, blockId: u32): Message {
    Message(version, MESSAGE_PCM_DATA_SEND_RESPONSE,
            [Parameter(PARAMETER_CHANNEL_ID, Be16(channelId)), Parameter(PARAMETER_BLOCK_ID, Be32(blockId))])
  }

  // ---- Their bytes ----

  function Digits(v: u32): (s: seq<byte>)
    ensures |s| == 4
  {
    [v / 0x100_0000, v / 0x1_0000 % 0x100, v / 0x100 % 0x100, v % 0x100]
  }

  lemma DigitsOfBe32(v: u32)
    ensures Be32(v) == Digits(v)
  {
  }

  lemma OneEncoded(p: Param)
    ensures EncodeParams([p]) == EncodeParam(p)
  {
    assert [p][1..] == [];
  }

  lemma TwoEncoded(p: Param, q: Param)
    ensures EncodeParams([p, q]) == EncodeParam(p) + EncodeParam(q)
  {
    assert [p, q][1..] == [q];
    OneEncoded(q);
  }

  /** The bytes of the messages that carry a channel id alone. */
  lemma ChannelBytes(version: byte, mtype: u16, id: u16)
    ensures Encodable(ChannelMessage(version, mtype, id))
    ensures Encode(ChannelMessage(version, mtype, id))
         == [version, mtype / 0x100, mtype % 0x100, 0x00, 0x06, 0x00, 0x01, 0x00, 0x02, id / 0x100, id % 0x100]
  {
    OneEncoded(Parameter(PARAMETER_CHANNEL_ID, Be16(id)));
  }

  /** channel_setup, channel_test, channel_status and channel_close on the wire. */
  lemma ChannelMessagesOnTheWire(version: byte, id: u16)
    ensures var tail := [0x00, 0x06, 0x00, 0x01, 0x00, 0x02, id / 0x100, id % 0x100];
            && (forall mtype :: Encodable(ChannelMessage(version, mtype, id)))
            && Encode(ChannelMessage(version, MESSAGE_CHANNEL_SETUP, id)) == [version, 0x00, 0x10] + tail
            && Encode(ChannelMessage(version, MESSAGE_CHANNEL_TEST, id)) == [version, 0x00, 0x11] + tail
            && Encode(ChannelMessage(version, MESSAGE_CHANNEL_STATUS, id)) == [version, 0x00, 0x12] + tail
            && Encode(ChannelMessage(version, MESSAGE_CHANNEL_CLOSE, id)) == [version, 0x00, 0x13] + tail
  {
    forall mtype ensures Encodable(ChannelMessage(version, mtype, id)) {
      ChannelBytes(version, mtype, id);
    }
    ChannelBytes(version, MESSAGE_CHANNEL_SETUP, id);
    ChannelBytes(version, MESSAGE_CHANNEL_TEST, id);
    ChannelBytes(version, MESSAGE_CHANNEL_STATUS, id);
    ChannelBytes(version, MESSAGE_CHANNEL_CLOSE, id);
  }

  /** channel_status as the server sends it. */
  function StatusBytes(id: u16): seq<byte> {
    [0x01, 0x00, 0x12, 0x00, 0x06, 0x00, 0x01, 0x00, 0x02, id / 0x100, id % 0x100]
  }

  /** channel_error as the server sends it. */
  function ErrorBytes(id: u16, code: u16): seq<byte> {
    [0x01, 0x00, 0x14, 0x00, 0x0c, 0x00, 0x01, 0x00, 0x02, id / 0x100, id % 0x100,
     0x00, 0x05, 0x00, 0x02, code / 0x100, code % 0x100]
  }

  /** pcm_data_send_response as the server sends it. */
  function ResponseBytes(id: u16, blockId: u32): seq<byte> {
    [0x01, 0x00, 0x21, 0x00, 0x0e, 0x00, 0x01, 0x00, 0x02, id / 0x100, id % 0x100, 0x00, 0x02, 0x00, 0x04]
    + Digits(blockId)
  }

  lemma ErrorOnTheWire(id: u16, code: u16)
    ensures Encodable(ChannelError(PROTOCOL_VERSION, id, code))
    ensures Encode(ChannelError(PROTOCOL_VERSION, id, code)) == ErrorBytes(id, code)
  {
    TwoEncoded(Parameter(PARAMETER_CHANNEL_ID, Be16(id)), Parameter(PARAMETER_ERROR_CODE, Be16(code)));
  }

  lemma ResponseOnTheWire(id: u16, blockId: u32)
    ensures Encodable(PcmResponse(PROTOCOL_VERSION, id, blockId))
    ensures Encode(PcmResponse(PROTOCOL_VERSION, id, blockId)) == ResponseBytes(id, blockId)
  {
    TwoEncoded(Parameter(PARAMETER_CHANNEL_ID, Be16(id)), Parameter(PARAMETER_BLOCK_ID, Be32(blockId)));
    DigitsOfBe32(blockId);
  }

  /** pcm_data_send_request on the wire. */
  function RequestBytes(version: byte, id: u16, blockId: u32, data: seq<byte>, crc: u32): seq<byte>
    requires |data| < 65510
  {
    [version, 0x00, 0x20, (26 + |data|) / 0x100, (26 + |data|) % 0x100]
    + [0x00, 0x01, 0x00, 0x02, id / 0x100, id % 0x100]
    + ([0x00, 0x02, 0x00, 0x04] + Digits(blockId))
    + ([0x00, 0x03, |data| / 0x100, |data| % 0x100] + data)
    + ([0x00, 0x04, 0x00, 0x04] + Digits(crc))
  }

  lemma FourEncoded(p: Param, q: Param, r: Param, t: Param)
    ensures EncodeParams([p, q, r, t]) == EncodeParam(p) + EncodeParam(q) + EncodeParam(r) + EncodeParam(t)
  {
    EncodeParamsFirst([p, q, r, t], []);
    assert [p, q, r, t][1..] == [q, r, t];
    assert [q, r, t][1..] == [r, t];
    assert EncodeParams([q, r, t]) == EncodeParam(q) + EncodeParams([r, t]);
    TwoEncoded(r, t);
  }

  lemma RequestOnTheWire(version: byte, id: u16, blockId: u32, data: seq<byte>, crc: u32)
    requires |data| < 65510
    ensures Encodable(PcmRequest(version, id, blockId, data, crc))
    ensures Encode(PcmRequest(version, id, blockId, data, crc)) == RequestBytes(version, id, blockId, data, crc)
  {
    var m := PcmRequest(version, id, blockId, data, crc);
    RequestSize(version, id, blockId, data, crc);
    FourEncoded(m.params[0], m.params[1], m.params[2], m.params[3]);
    DigitsOfBe32(blockId);
    DigitsOfBe32(crc);
    assert Head(m) == [version, 0x00, 0x20, (26 + |data|) / 0x100, (26 + |data|) % 0x100];
    assert EncodeParam(m.params[0]) == [0x00, 0x01, 0x00, 0x02, id / 0x100, id % 0x100];
    assert EncodeParam(m.params[1]) == [0x00, 0x02, 0x00, 0x04] + Digits(blockId);
    assert EncodeParam(m.params[2]) == [0x00, 0x03, |data| / 0x100, |data| % 0x100] + data;
    assert EncodeParam(m.params[3]) == [0x00, 0x04, 0x00, 0x04] + Digits(crc);
  }

  // ---- The accessors ----

  /** get_channel_id, on a message's parameters and what follows them in the store. */
  function ChannelIdOf(ps: seq<Param>, tail: seq<byte>): Option<nat>
    requires |tail| >= PHANTOM_EXTENT
  {
    NumberAsCoded(ps, tail, PARAMETER_CHANNEL_ID, 2)
  }

  function BlockIdOf(ps: seq<Param>, tail: seq<byte>): Option<nat>
    requires |tail| >= PHANTOM_EXTENT
  {
    NumberAsCoded(ps, tail, PARAMETER_BLOCK_ID, 4)
  }

  function CrcOf(ps: seq<Param>, tail: seq<byte>): Option<nat>
    requires |tail| >= PHANTOM_EXTENT
  {
    NumberAsCoded(ps, tail, PARAMETER_CRC, 4)
  }

  function BlockDataOf(ps: seq<Param>, tail: seq<byte>): Option<seq<byte>>
    requires |tail| >= PHANTOM_EXTENT
  {
    ContentAsCoded(ps, tail, PARAMETER_BLOCK_DATA, 0)
  }

  lemma {:induction false} NumberBound(ps: seq<Param>, tail: seq<byte>, t: u16, width: nat)
    requires |tail| >= PHANTOM_EXTENT && width <= 4
    ensures NumberAsCoded(ps, tail, t, width).Some? ==> NumberAsCoded(ps, tail, t, width).value < Pow256(width)
  {
    if ps == [] {
      ValueBound(tail[PARAMETER_HEAD_LENGTH..PARAMETER_HEAD_LENGTH + width]);
    } else if ps[0].ptype == t {
      ValueBound((ps[0].value + EncodeParams(ps[1..]) + tail)[..width]);
    } else {
      NumberBound(ps[1..], tail, t, width);
    }
  }

  lemma Bounds16And32()
    ensures Pow256(2) == 0x1_0000 && Pow256(4) == 0x1_0000_0000
  {
    assert Pow256(1) == 256 * Pow256(0);
    assert Pow256(3) == 256 * Pow256(2);
  }

  method GetChannelId(info: CommonMessage) returns (r: Option<u16>)
    requires info.Valid() && InStore(info.View())
    ensures r == NumberSeen(info.store[..], info.positions, PARAMETER_CHANNEL_ID, 2)
  {
    var v := info.GetParameterValue(PARAMETER_CHANNEL_ID, 2);
    Bounds16And32();
    r := match v case Some(x) => Some(x as u16) case None => None;
  }

  method GetBlockId(info: CommonMessage) returns (r: Option<u32>)
    requires info.Valid() && InStore(info.View())
    ensures r == NumberSeen(info.store[..], info.positions, PARAMETER_BLOCK_ID, 4)
  {
    var v := info.GetParameterValue(PARAMETER_BLOCK_ID, 4);
    Bounds16And32();
    r := match v case Some(x) => Some(x as u32) case None => None;
  }

  method GetCrc(info: CommonMessage) returns (r: Option<u32>)
    requires info.Valid() && InStore(info.View())
    ensures r == NumberSeen(info.store[..], info.positions, PARAMETER_CRC, 4)
  {
    var v := info.GetParameterValue(PARAMETER_CRC, 4);
    Bounds16And32();
    r := match v case Some(x) => Some(x as u32) case None => None;
  }

  /** get_block_data */
  method GetBlockData(info: CommonMessage, data: array<byte>) returns (found: bool, length: u16)
    requires info.Valid() && InStore(info.View())
    requires data.Length >= MAX_PARAMETER_LENGTH && data != info.store
    modifies data
    ensures length <= MAX_PARAMETER_LENGTH
    ensures FindContent(SeenIn(info.View()), PARAMETER_BLOCK_DATA, 0) == if found then Some(data[..length]) else None
    ensures data[if found then length else 0..] == old(data[..])[if found then length else 0..]
  {
    found, length := info.GetParameterContent(PARAMETER_BLOCK_DATA, data, 0);
    if !found {
      length := 0;
    }
  }

  /** After an accepted parse the accessors read the message's own parameters, and the phantom. */
  lemma LoadedAccess(st: MessageState)
    requires Loaded(st)
    ensures InStore(st)
    ensures NumberSeen(st.store, st.positions, PARAMETER_CHANNEL_ID, 2) == ChannelIdOf(ParamsIn(st), TailIn(st))
    ensures NumberSeen(st.store, st.positions, PARAMETER_BLOCK_ID, 4) == BlockIdOf(ParamsIn(st), TailIn(st))
    ensures NumberSeen(st.store, st.positions, PARAMETER_CRC, 4) == CrcOf(ParamsIn(st), TailIn(st))
    ensures FindContent(SeenIn(st), PARAMETER_BLOCK_DATA, 0) == BlockDataOf(ParamsIn(st), TailIn(st))
  {
    LoadedNumber(st, PARAMETER_CHANNEL_ID, 2);
    LoadedNumber(st, PARAMETER_BLOCK_ID, 4);
    LoadedNumber(st, PARAMETER_CRC, 4);
    LoadedSees(st);
  }

  // ---- Reading back what was built ----

  lemma NumberOfBe16(v: u16)
    ensures Value(Be16(v)) == v
  {
    UnrolledValues(Be16(v));
    Be16RoundTrip(v, []);
    assert Be16(v) + [] == Be16(v);
  }

  lemma NumberOfBe32(v: u32)
    ensures Value(Be32(v)) == v
  {
    UnrolledValues(Be32(v));
    Be32RoundTrip(v, []);
    assert Be32(v) + [] == Be32(v);
  }

  /** A message that leads with its channel id gives it back, whatever follows. */
  lemma LeadingChannelId(m: Message, channelId: u16, tail: seq<byte>)
    requires |tail| >= PHANTOM_EXTENT
    requires m.params != [] && m.params[0] == Parameter(PARAMETER_CHANNEL_ID, Be16(channelId))
    ensures ChannelIdOf(m.params, tail) == Some(channelId)
  {
    NumberOfBe16(channelId);
    NumberPresent(m.params, tail, PARAMETER_CHANNEL_ID, 2);
  }

  /** A receiver finds in a response the ids it was made with, whatever its store holds past it. */
  lemma ResponseLookups(version: byte, id: u16, blockId: u32, tail: seq<byte>)
    requires |tail| >= PHANTOM_EXTENT
    ensures ChannelIdOf(PcmResponse(version, id, blockId).params, tail) == Some(id)
    ensures BlockIdOf(PcmResponse(version, id, blockId).params, tail) == Some(blockId)
  {
    var m := PcmResponse(version, id, blockId);
    LeadingChannelId(m, id, tail);
    NumberOfBe32(blockId);
    assert m.params[1..][0] == m.params[1];
    assert FindNumber(m.params[1..], PARAMETER_BLOCK_ID, 4) == Some(blockId);
    NumberPresent(m.params, tail, PARAMETER_BLOCK_ID, 4);
  }

  /** A buffer is accepted as a response with these ids, whatever the receiver's store holds past it. */
  ghost predicate ReadAsResponse(buffer: seq<byte>, tail: seq<byte>, id: u16, blockId: u32)
    requires |buffer| >= INPUT_EXTENT && |tail| >= PHANTOM_EXTENT
  {
    && Accepted(buffer) && TypeOf(buffer) == 0x21
    && ChannelIdOf(Carried(buffer).params, tail) == Some(id)
    && BlockIdOf(Carried(buffer).params, tail) == Some(blockId)
  }

  lemma ResponseIsRead(id: u16, blockId: u32, buffer: seq<byte>, tail: seq<byte>)
    requires |buffer| >= INPUT_EXTENT && |tail| >= PHANTOM_EXTENT && ResponseBytes(id, blockId) <= buffer
    ensures ReadAsResponse(buffer, tail, id, blockId)
  {
    var m := PcmResponse(PROTOCOL_VERSION, id, blockId);
    ResponseOnTheWire(id, blockId);
    ReplySizes(PROTOCOL_VERSION, 0, id, 0, blockId);
    ParsePackaged(buffer, m);
    ResponseLookups(PROTOCOL_VERSION, id, blockId, tail);
  }

  lemma ReplySizes(version: byte, mtype: u16, channelId: u16, errorCode: u16, blockId: u32)
    ensures |EncodeParams(ChannelMessage(version, mtype, channelId).params)| == 6
    ensures |EncodeParams(ChannelError(version, channelId, errorCode).params)| == 12
    ensures |EncodeParams(PcmResponse(version, channelId, blockId).params)| == 14
  {
    var a := ChannelMessage(version, mtype, channelId).params;
    var b := ChannelError(version, channelId, errorCode).params;
    var c := PcmResponse(version, channelId, blockId).params;
    assert a[1..] == [] && b[1..][1..] == [] && c[1..][1..] == [];
    assert EncodeParams(b[1..]) == EncodeParam(b[1]) + EncodeParams([]);
    assert EncodeParams(c[1..]) == EncodeParam(c[1]) + EncodeParams([]);
  }

  lemma RequestSize(version: byte, channelId: u16, blockId: u32, data: seq<byte>, crc: u32)
    requires |data| < 0x1_0000
    ensures |EncodeParams(PcmRequest(version, channelId, blockId, data, crc).params)| == 26 + |data|
  {
    var ps := PcmRequest(version, channelId, blockId, data, crc).params;
    assert ps[1..][1..] == ps[2..] && ps[2..][1..] == ps[3..] && ps[3..][1..] == [];
    assert EncodeParams(ps[3..]) == EncodeParam(ps[3]) + EncodeParams([]);
    assert EncodeParams(ps[2..]) == EncodeParam(ps[2]) + EncodeParams(ps[3..]);
    assert EncodeParams(ps[1..]) == EncodeParam(ps[1]) + EncodeParams(ps[2..]);
  }

  lemma RequestLookups(m: Message, channelId: u16, blockId: u32, data: seq<byte>, crc: u32, tail: seq<byte>)
    requires |tail| >= PHANTOM_EXTENT && |data| < 0x1_0000
    requires m == PcmRequest(m.version, channelId, blockId, data, crc)
    ensures ChannelIdOf(m.params, tail) == Some(channelId)
    ensures BlockIdOf(m.params, tail) == Some(blockId)
    ensures CrcOf(m.params, tail) == Some(crc)
    ensures BlockDataOf(m.params, tail) == if |data| <= MAX_PARAMETER_LENGTH then Some(data) else None
  {
    var ps := m.params;
    LeadingChannelId(m, channelId, tail);
    assert ps[1..][0] == ps[1] && ps[1..][1..] == ps[2..];
    assert ps[2..][0] == ps[2] && ps[2..][1..] == ps[3..] && ps[3..][0] == ps[3];
    NumberOfBe32(blockId);
    assert FindNumber(ps[1..], PARAMETER_BLOCK_ID, 4) == Some(blockId);
    NumberPresent(ps, tail, PARAMETER_BLOCK_ID, 4);
    NumberOfBe32(crc);
    assert FindNumber(ps[3..], PARAMETER_CRC, 4) == Some(crc);
    assert FindNumber(ps[2..], PARAMETER_CRC, 4) == Some(crc);
    assert FindNumber(ps[1..], PARAMETER_CRC, 4) == Some(crc);
    NumberPresent(ps, tail, PARAMETER_CRC, 4);
    var qs := Scanned(ps, tail);
    FindContentStep(qs, 0, PARAMETER_BLOCK_DATA, 0);
    FindContentStep(qs, 1, PARAMETER_BLOCK_DATA, 0);
    FindContentStep(qs, 2, PARAMETER_BLOCK_DATA, 0);
    assert qs[0..] == qs;
  }

  /**
   Exact capacity, for every block that does not wrap the cursor: the packaged
   request is accepted exactly up to 16352 bytes of data, and its data can then be
   retrieved exactly up to 8192 bytes.
  */
  lemma RequestCapacity(scratch: seq<byte>, m: Message, channelId: u16, blockId: u32, data: seq<byte>, crc: u32,
                        tail: seq<byte>)
    requires |scratch| >= CURSOR_RANGE && |tail| >= PHANTOM_EXTENT
    requires |data| <= 65505 && m == PcmRequest(m.version, channelId, blockId, data, crc)
    ensures Accepted(Packaged(scratch, m)) <==> |data| <= 16352
    ensures Accepted(Packaged(scratch, m)) ==> BodyParams(Packaged(scratch, m)) == Some(m.params)
    ensures BlockDataOf(m.params, tail) == Some(data) <==> |data| <= 8192
    ensures |data| > 8192 ==> BlockDataOf(m.params, tail) == None
  {
    RequestSize(m.version, channelId, blockId, data, crc);
    PackagedIsEncoded(scratch, m);
    ParsePackaged(Packaged(scratch, m), m);
    RequestLookups(m, channelId, blockId, data, crc, tail);
  }

  /** The buffer with the channel id and the block id appended: 14 bytes of body. */
  function IdsAppended(scratch: seq<byte>, m: Message): (s: seq<byte>)
    requires |scratch| >= CURSOR_RANGE && |m.params| == 4
    ensures |s| == |scratch|
  {
    Appended(Appended(HeadWritten(scratch, m.version, m.mtype), m.params[0]), m.params[1])
  }

  lemma IdsLength(scratch: seq<byte>, m: Message)
    requires |scratch| >= CURSOR_RANGE && |m.params| == 4
    requires |m.params[0].value| == 2 && |m.params[1].value| == 4
    ensures BodyLengthOf(IdsAppended(scratch, m)) == 14
  {
    var h := HeadWritten(scratch, m.version, m.mtype);
    assert h[3..5] == [0, 0];
    AppendedLength(h, m.params[0]);
    AppendedLength(Appended(h, m.params[0]), m.params[1]);
  }

  lemma PackagedInSteps(scratch: seq<byte>, m: Message, s: seq<byte>)
    requires |scratch| >= CURSOR_RANGE && |m.params| == 4 && s == IdsAppended(scratch, m)
    ensures Packaged(scratch, m) == Appended(Appended(s, m.params[2]), m.params[3])
  {
    var h, ps := HeadWritten(scratch, m.version, m.mtype), m.params;
    AllAppendedFirst(h, ps);
    AllAppendedFirst(Appended(h, ps[0]), ps[1..]);
    assert ps[1..][1..] == [ps[2], ps[3]];
    AllAppendedTwo(s, ps[2], ps[3], Appended(s, ps[2]));
  }

  /** The part of the last two parameters that lands on the body that the head states, once the cursor has wrapped. */
  function Wrapped(data: seq<byte>, crc: u32): seq<byte>
    requires 65510 <= |data| < 0x1_0000
  {
    (data + EncodeParam(Parameter(PARAMETER_CRC, Be32(crc))))[65518..]
  }

  /** Where the last two parameters are appended. */
  lemma Cursors(s: seq<byte>, block: Param)
    requires |s| >= CURSOR_RANGE && BodyLengthOf(s) == 14
    ensures CursorOf(s) == 19 && CursorOf(Appended(s, block)) == Wrap(23 + |block.value|)
  {
    AppendedLength(s, block);
    WrapSum(19 + |EncodeParam(block)| - MESSAGE_HEAD_LENGTH, MESSAGE_HEAD_LENGTH);
  }

  lemma WrappedData(s: seq<byte>, block: Param, last: Param, p: nat, t: seq<byte>)
    requires |s| >= CURSOR_RANGE && BodyLengthOf(s) == 14 && t == Appended(s, block)
    requires 65510 <= |block.value| && |last.value| == 4
    requires MESSAGE_HEAD_LENGTH <= p && p + 65513 < |block.value|
    ensures Appended(t, last)[p] == block.value[p + 65513]
  {
    Cursors(s, block);
    AppendedByte(s, block, p);
    AppendedByte(t, last, p);
    RoundTheRange(|block.value|, p);
    ByteLands(s, CursorOf(s), EncodeParam(block), p + 65517, p);
    EncodedByte(block, p + 65517);
    LeftByte(t, CursorOf(t), EncodeParam(last), p);
  }

  lemma RoundTheRange(n: nat, p: nat)
    requires 65510 <= n < 0x1_0000 && MESSAGE_HEAD_LENGTH <= p < n - 65505
    ensures Wrap(19 + (p + 65517)) == p
    ensures p + 65513 < n ==> Ahead(Wrap(23 + n), p) >= 8
    ensures p + 65513 >= n ==> Wrap(Wrap(23 + n) + (p + 65513 - n)) == p
  {
  }

  lemma WrappedChecksum(s: seq<byte>, block: Param, last: Param, p: nat, t: seq<byte>)
    requires |s| >= CURSOR_RANGE && BodyLengthOf(s) == 14 && t == Appended(s, block)
    requires 65510 <= |block.value| && |last.value| == 4
    requires MESSAGE_HEAD_LENGTH <= p && |block.value| <= p + 65513 < |block.value| + 8
    ensures Appended(t, last)[p] == EncodeParam(last)[p + 65513 - |block.value|]
  {
    Cursors(s, block);
    AppendedByte(t, last, p);
    RoundTheRange(|block.value|, p);
    ByteLands(t, CursorOf(t), EncodeParam(last), p + 65513 - |block.value|, p);
  }

  lemma WrappedByte(s: seq<byte>, block: Param, crc: u32, p: nat)
    requires |s| >= CURSOR_RANGE && BodyLengthOf(s) == 14
    requires 65510 <= |block.value| && MESSAGE_HEAD_LENGTH <= p < |block.value| - 65505
    ensures Appended(Appended(s, block), Parameter(PARAMETER_CRC, Be32(crc)))[p]
         == Wrapped(block.value, crc)[p - MESSAGE_HEAD_LENGTH]
  {
    if p + 65513 < |block.value| {
      WrappedData(s, block, Parameter(PARAMETER_CRC, Be32(crc)), p, Appended(s, block));
    } else {
      WrappedChecksum(s, block, Parameter(PARAMETER_CRC, Be32(crc)), p, Appended(s, block));
    }
  }

  lemma RequestWrapped(scratch: seq<byte>, m: Message, channelId: u16, blockId: u32, data: seq<byte>, crc: u32)
    requires |scratch| >= CURSOR_RANGE
    requires 65510 <= |data| < 0x1_0000 && m == PcmRequest(m.version, channelId, blockId, data, crc)
    ensures Packaged(scratch, m)[MESSAGE_HEAD_LENGTH..|data| - 65505] == Wrapped(data, crc)
  {
    var s, r := IdsAppended(scratch, m), Packaged(scratch, m);
    IdsLength(scratch, m);
    PackagedInSteps(scratch, m, s);
    forall k | 0 <= k < |data| - 65510
      ensures r[MESSAGE_HEAD_LENGTH..|data| - 65505][k] == Wrapped(data, crc)[k]
    {
      WrappedByte(s, m.params[2], crc, k + MESSAGE_HEAD_LENGTH);
    }
  }

  /**
   Past 65505 bytes of data: up to 65509 the head states too long a body, and the
   result is refused. From 65510 on the cursor has wrapped, the head states what is
   left of the length, the end of the data and the checksum's parameter have been
   stored over the front of the buffer, and the result is accepted exactly if those
   happen to be tiled by parameters.
  */
  lemma RequestBeyondCapacity(scratch: seq<byte>, m: Message, channelId: u16, blockId: u32, data: seq<byte>, crc: u32)
    requires |scratch| >= CURSOR_RANGE
    requires 65505 < |data| < 0x1_0000 && m == PcmRequest(m.version, channelId, blockId, data, crc)
    ensures BodyLengthOf(Packaged(scratch, m)) == (26 + |data|) % CURSOR_RANGE
    ensures |data| < 65510 ==> !Accepted(Packaged(scratch, m))
    ensures |data| >= 65510 ==> BodyLengthOf(Packaged(scratch, m)) == |data| - 65510
    ensures |data| >= 65510 ==> BodyParams(Packaged(scratch, m)) == DecodeParams(Wrapped(data, crc))
    ensures |data| >= 65510 ==>
              (Accepted(Packaged(scratch, m)) <==> |data| > 65510 && DecodeParams(Wrapped(data, crc)).Some?)
  {
    RequestSize(m.version, channelId, blockId, data, crc);
    var h := HeadWritten(scratch, m.version, m.mtype);
    assert h[3..5] == [0, 0];
    StatedLength(h, m.params);
    AcceptedExactly(Packaged(scratch, m));
    if |data| >= 65510 {
      RequestWrapped(scratch, m, channelId, blockId, data, crc);
    }
  }

  /** So 65510 to 65513 bytes are refused, 65514 accepted if the checksum ends in two zero bytes, and 65518 always. */
  lemma WrappedVerdicts(data: seq<byte>, crc: u32)
    requires 65510 <= |data| < 0x1_0000
    ensures 65510 < |data| < 65514 ==> DecodeParams(Wrapped(data, crc)) == None
    ensures |data| == 65514 ==> (DecodeParams(Wrapped(data, crc)).Some? <==> crc % 0x1_0000 == 0)
    ensures |data| == 65518 ==> DecodeParams(Wrapped(data, crc)) == Some([Parameter(PARAMETER_CRC, Be32(crc))])
  {
    var last := Parameter(PARAMETER_CRC, Be32(crc));
    var bytes := Wrapped(data, crc);
    if |data| == 65514 {
      assert bytes == Be32(crc);
      HalvesOfBe32(crc);
      assert bytes[PARAMETER_HEAD_LENGTH..] == [];
    } else if |data| == 65518 {
      assert bytes == EncodeParam(last);
      DecodeEncode([last]);
      assert [last][1..] == [];
      assert EncodeParams([last]) == EncodeParam(last);
    }
  }

  lemma HalvesOfBe32(v: u32)
    ensures LengthAt(Be32(v), 0) == v % 0x1_0000
  {
    assert Be32(v)[2..4] == [Be32(v)[2], Be32(v)[3]];
  }
}
