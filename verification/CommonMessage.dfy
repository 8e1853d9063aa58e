/** The CommonMessage object of protocol.h and protocol.cpp. */
module CommonMessages {
  import opened Bytes
  import opened Messages
  import opened Lookups
  import opened Parser

  method UnpackParameter(input: array<byte>, at: nat) returns (ptype: u16, length: u16, consumed: nat)
    requires at + PARAMETER_HEAD_LENGTH <= input.Length
    ensures ptype == TypeAt(input[..], at) && length == LengthAt(input[..], at)
    ensures consumed == length + PARAMETER_HEAD_LENGTH
  {
    ptype := 0x100 * (input[at] as int) + input[at + 1];
    length := 0x100 * (input[at + 2] as int) + input[at + 3];
    consumed := length + PARAMETER_HEAD_LENGTH;
  }

  class CommonMessage {
    var protocolVersion: byte
    var messageType: u16
    var bodyLength: u16
    var positions: seq<nat>
    const store: array<byte>

    ghost predicate Valid() {
      store.Length == STORE_EXTENT
    }

    ghost function View(): MessageState
      requires Valid()
      reads this, store
    {
      MessageState(protocolVersion, messageType, bodyLength, positions, store[..])
    }

    /** Only the message type is initialised; the rest of the object is whatever memory holds. */
    constructor (version: byte, length: u16)
      ensures Valid() && fresh(store)
      ensures messageType == 0 && positions == [] && InStore(View())
    {
      protocolVersion := version;
      messageType := 0;
      bodyLength := length;
      positions := [];
      store := new byte[STORE_EXTENT];
    }

    method UnpackMessageHead(message: array<byte>)
      requires Valid() && message.Length >= MESSAGE_HEAD_LENGTH && message != store
      modifies this
      ensures View() == HeadParsed(old(View()), message[..])
    {
      protocolVersion := message[0];
      messageType := 0x100 * (message[1] as int) + message[2];
      bodyLength := 0x100 * (message[3] as int) + message[4];
    }

    method ParseMessageHead(head: array<byte>) returns (ok: bool)
      requires Valid() && head.Length >= MESSAGE_HEAD_LENGTH && head != store
      modifies this
      ensures View() == HeadParsed(old(View()), head[..])
      ensures ok == BodyFits(BodyLengthOf(head[..]))
    {
      UnpackMessageHead(head);
      ok := bodyLength < MAX_MESSAGE_LENGTH - MESSAGE_HEAD_LENGTH;
    }

    lemma NextPosition(before: seq<nat>, rest: seq<nat>, next: nat)
      requires rest != [] && rest[0] == next
      ensures before + rest == before + [next] + rest[1..]
    {
    }

    /** The do-while of parse_message: one position more after each header read. */
    method RecordPositions(message: array<byte>) returns (byteCount: nat)
      requires message.Length >= INPUT_EXTENT && BodyFits(bodyLength) && bodyLength == BodyLengthOf(message[..])
      modifies this`positions
      ensures positions == [MESSAGE_HEAD_LENGTH] + WalkOf(message[..])
      ensures byteCount == Last(WalkOf(message[..]))
    {
      ghost var s, end := message[..], EndOf(message[..]);
      positions := [];
      byteCount := MESSAGE_HEAD_LENGTH;
      positions := positions + [byteCount];
      while true
        invariant byteCount == MESSAGE_HEAD_LENGTH || MESSAGE_HEAD_LENGTH < byteCount < end
        invariant [MESSAGE_HEAD_LENGTH] + WalkOf(s) == positions + Walk(s, end, byteCount)
        decreases if byteCount < end then end - byteCount else 0
      {
        var ptype, length, consumed := UnpackParameter(message, byteCount);
        ghost var before, rest := positions, Walk(s, end, byteCount);
        byteCount := byteCount + consumed;
        positions := positions + [byteCount];
        NextPosition(before, rest, byteCount);
        if bodyLength <= byteCount - MESSAGE_HEAD_LENGTH {
          assert rest == [byteCount];
          break;
        }
      }
      assert Last(positions) == byteCount && Last([MESSAGE_HEAD_LENGTH] + WalkOf(s)) == Last(WalkOf(s));
    }

    method ParseMessage(message: array<byte>) returns (ok: bool)
      requires Valid() && message.Length >= INPUT_EXTENT && message != store
      modifies this, store
      ensures ok == Accepted(message[..])
      ensures View() == Parsed(old(View()), message[..])
    {
      UnpackMessageHead(message);
      if bodyLength >= MAX_MESSAGE_LENGTH - MESSAGE_HEAD_LENGTH {
        return false;
      }
      var byteCount := RecordPositions(message);
      if MESSAGE_HEAD_LENGTH + bodyLength != byteCount {
        return false;
      }
      Copy(message, byteCount);
      return true;
    }

    /** memcpy of the message into the store. */
    method Copy(message: array<byte>, n: nat)
      requires Valid() && n <= message.Length && n <= STORE_EXTENT && message != store
      modifies store
      ensures store[..] == message[..n] + old(store[..])[n..]
    {
      for i := 0 to n
        invariant store[..i] == message[..i] && store[i..] == old(store[..])[i..]
      {
        store[i] := message[i];
      }
    }

    /** memcpy of a parameter's content out of the store. */
    method CopyOut(at: nat, n: nat, content: array<byte>)
      requires Valid() && at + n <= STORE_EXTENT && n <= content.Length && content != store
      modifies content
      ensures content[..n] == store[at..at + n] && content[n..] == old(content[n..])
    {
      for i := 0 to n
        invariant content[..i] == store[at..at + i] && content[i..] == old(content[i..])
      {
        content[i] := store[at + i];
      }
    }

    /** The loop of get_parameter_content, up to the position it settles on; past the last one if on none. */
    method FindParameter(ptype: u16, index: nat, ghost ps: seq<Param>) returns (k: nat)
      requires Valid() && HoldsAll(store[..], positions, ps)
      ensures k <= |ps|
      ensures FindContent(ps, ptype, index) == if k < |ps| then Some(ps[k].value) else None
      ensures k < |ps| ==> !Oversized(ps[k])
    {
      ghost var left := index;
      var count := 0;
      k := 0;
      while k < |positions|
        invariant k <= |ps| && count + left == index
        invariant FindContent(ps, ptype, index) == FindContent(ps[k..], ptype, left)
        decreases |positions| - k
      {
        var currentType, currentLength := HeaderAt(k, ps);
        FindContentStep(ps, k, ptype, left);
        if currentLength > MAX_PARAMETER_LENGTH {
          return |positions|;
        }
        if ptype == currentType {
          if count == index {
            return k;
          }
          count := count + 1;
          left := left - 1;
        }
        k := k + 1;
      }
    }

    /** The header of the k-th recorded position. */
    method HeaderAt(k: nat, ghost ps: seq<Param>) returns (ptype: u16, length: u16)
      requires Valid() && k < |positions| && HoldsAll(store[..], positions, ps)
      ensures ptype == ps[k].ptype && length == |ps[k].value|
    {
      assert HoldsAt(store[..], positions[k], ps[k]);
      ghost var consumed;
      ptype, length, consumed := UnpackParameter(store, positions[k]);
    }

    /** The content is copied out only when it is found; the index counts parameters of the type from zero. */
    method GetParameterContent(ptype: u16, content: array<byte>, index: nat) returns (found: bool, size: u16)
      requires Valid() && InStore(View())
      requires content.Length >= MAX_PARAMETER_LENGTH && content != store
      modifies content
      ensures found <==> FindContent(SeenIn(View()), ptype, index).Some?
      ensures found ==> size <= MAX_PARAMETER_LENGTH
      ensures found ==> FindContent(SeenIn(View()), ptype, index) == Some(content[..size])
      ensures found ==> content[size..] == old(content[size..])
      ensures !found ==> content[..] == old(content[..])
    {
      ghost var ps := SeenIn(View());
      var k := FindParameter(ptype, index, ps);
      if k == |positions| {
        return false, 0;
      }
      var _, length := HeaderAt(k, ps);
      assert HoldsAt(store[..], positions[k], ps[k]);
      CopyOut(positions[k] + PARAMETER_HEAD_LENGTH, length, content);
      return true, length;
    }

    /** The typed unpackers: one, two or four bytes after the header, whatever the declared length. */
    method UnpackNumber(at: nat, width: nat) returns (v: nat)
      requires Valid() && at + PARAMETER_HEAD_LENGTH + width <= STORE_EXTENT
      requires width == 1 || width == 2 || width == 4
      ensures v == Value(store[at + PARAMETER_HEAD_LENGTH..at + PARAMETER_HEAD_LENGTH + width])
    {
      var from := at + PARAMETER_HEAD_LENGTH;
      ghost var s := store[from..from + width];
      UnrolledValues(s);
      if width == 1 {
        v := store[from];
        assert s[..0] == [];
      } else if width == 2 {
        v := 0x100 * (store[from] as int) + store[from + 1];
      } else {
        v := 0x100 * (0x100 * (0x100 * (store[from] as int) + store[from + 1]) + store[from + 2]) + store[from + 3];
      }
    }

    method GetParameterValue(ptype: u16, width: nat) returns (r: Option<nat>)
      requires Valid() && InStore(View())
      requires width == 1 || width == 2 || width == 4
      ensures r == NumberSeen(store[..], positions, ptype, width)
      ensures r.Some? ==> r.value < Pow256(width)
    {
      ghost var s := store[..];
      NumberSeenBound(s, positions, ptype, width);
      for k := 0 to |positions|
        invariant NumberSeen(s, positions, ptype, width) == NumberSeen(s, positions[k..], ptype, width)
      {
        assert positions[k..][0] == positions[k] && positions[k..][1..] == positions[k + 1..];
        var currentType, currentLength, consumed := UnpackParameter(store, positions[k]);
        if currentType == ptype {
          var v := UnpackNumber(positions[k], width);
          return Some(v);
        }
      }
      return None;
    }
  }
}
