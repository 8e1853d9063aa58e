/**
 The packaging half of protocol.cpp: parameters are appended in place, at the
 offset the buffer's own bytes 3 and 4 give, with a cursor of 16 bits.
*/
module Writer {
  import opened Bytes
  import opened Messages

  /** The range of the unsigned short cursor; an output buffer spans it. */
  const CURSOR_RANGE := 0x1_0000

  function Wrap(v: int): u16 {
    v % CURSOR_RANGE
  }

  lemma WrapSum(a: int, b: int)
    ensures Wrap(Wrap(a) + b) == Wrap(a + b)
  {
  }

  /** Bytes stored one by one at a cursor that wraps. */
  function WriteAt(s: seq<byte>, cursor: u16, bytes: seq<byte>): (r: seq<byte>)
    requires |s| >= CURSOR_RANGE
    ensures |r| == |s|
    decreases bytes
  {
    if bytes == [] then s else WriteAt(s[cursor := bytes[0]], Wrap(cursor + 1), bytes[1..])
  }

  /** package_message_head. */
  function HeadWritten(s: seq<byte>, version: byte, mtype: u16): (r: seq<byte>)
    requires |s| >= MESSAGE_HEAD_LENGTH
    ensures |r| == |s|
  {
    [version] + Be16(mtype) + [0, 0] + s[MESSAGE_HEAD_LENGTH..]
  }

  /** Where the next parameter goes, and the body length once it is there. */
  function CursorOf(s: seq<byte>): u16
    requires |s| >= MESSAGE_HEAD_LENGTH
  {
    Wrap(BodyLengthOf(s) + MESSAGE_HEAD_LENGTH)
  }

  function BodyAfter(s: seq<byte>, p: Param): u16
    requires |s| >= MESSAGE_HEAD_LENGTH
  {
    Wrap(CursorOf(s) + |EncodeParam(p)| - MESSAGE_HEAD_LENGTH)
  }

  /** package_message_parameter_content. */
  function Appended(s: seq<byte>, p: Param): (r: seq<byte>)
    requires |s| >= CURSOR_RANGE
    ensures |r| == |s|
  {
    var body := BodyAfter(s, p);
    WriteAt(s, CursorOf(s), EncodeParam(p))[3 := body / 0x100][4 := body % 0x100]
  }

  /** package_message_common: the head, then the parameters one after the other. */
  function AllAppended(s: seq<byte>, ps: seq<Param>): (r: seq<byte>)
    requires |s| >= CURSOR_RANGE
    ensures |r| == |s|
    decreases ps
  {
    if ps == [] then s else AllAppended(Appended(s, ps[0]), ps[1..])
  }

  lemma AllAppendedFirst(s: seq<byte>, ps: seq<Param>)
    requires |s| >= CURSOR_RANGE && ps != []
    ensures AllAppended(s, ps) == AllAppended(Appended(s, ps[0]), ps[1..])
  {
  }

  lemma AllAppendedOne(s: seq<byte>, p: Param)
    requires |s| >= CURSOR_RANGE
    ensures AllAppended(s, [p]) == Appended(s, p)
  {
    assert [p][1..] == [];
  }

  lemma AllAppendedTwo(s: seq<byte>, p: Param, q: Param, t: seq<byte>)
    requires |s| >= CURSOR_RANGE && t == Appended(s, p)
    ensures AllAppended(s, [p, q]) == Appended(t, q)
  {
    AllAppendedFirst(s, [p, q]);
    assert [p, q][1..] == [q];
    AllAppendedOne(t, q);
  }

  /** A byte of the buffer behind the head, after one append. */
  lemma AppendedByte(s: seq<byte>, p: Param, i: nat)
    requires |s| >= CURSOR_RANGE && MESSAGE_HEAD_LENGTH <= i < |s|
    ensures Appended(s, p)[i] == WriteAt(s, CursorOf(s), EncodeParam(p))[i]
  {
  }

  function Packaged(s: seq<byte>, m: Message): (r: seq<byte>)
    requires |s| >= CURSOR_RANGE
    ensures |r| == |s|
  {
    AllAppended(HeadWritten(s, m.version, m.mtype), m.params)
  }

  // ---- What the appends amount to while the cursor does not wrap ----

  lemma {:induction false} WriteAtSnoc(s: seq<byte>, cursor: u16, bytes: seq<byte>, b: byte)
    requires |s| >= CURSOR_RANGE
    ensures WriteAt(s, cursor, bytes + [b]) == WriteAt(s, cursor, bytes)[Wrap(cursor + |bytes|) := b]
    decreases bytes
  {
    if bytes == [] {
      assert ([] + [b])[1..] == [];
    } else {
      assert (bytes + [b])[1..] == bytes[1..] + [b];
      WriteAtSnoc(s[cursor := bytes[0]], Wrap(cursor + 1), bytes[1..], b);
    }
  }

  lemma {:induction false} WriteAtInPlace(s: seq<byte>, cursor: u16, bytes: seq<byte>)
    requires |s| >= CURSOR_RANGE && cursor + |bytes| <= CURSOR_RANGE
    ensures WriteAt(s, cursor, bytes) == s[..cursor] + bytes + s[cursor + |bytes|..]
    decreases bytes
  {
    if bytes != [] {
      FirstByteSpliced(s, cursor, bytes);
      if |bytes| > 1 {
        WriteAtInPlace(s[cursor := bytes[0]], cursor + 1, bytes[1..]);
      } else {
        assert bytes[1..] == [];
      }
    }
  }

  lemma FirstByteSpliced(s: seq<byte>, cursor: nat, bytes: seq<byte>)
    requires bytes != [] && cursor + |bytes| <= |s|
    ensures var t := s[cursor := bytes[0]];
            t[..cursor + 1] + bytes[1..] + t[cursor + 1 + |bytes[1..]|..] == s[..cursor] + bytes + s[cursor + |bytes|..]
  {
    var t := s[cursor := bytes[0]];
    assert t[..cursor + 1] == s[..cursor] + [bytes[0]];
    assert t[cursor + |bytes|..] == s[cursor + |bytes|..];
    assert bytes == [bytes[0]] + bytes[1..];
  }

  // ---- What they amount to when it does ----

  /** How many bytes the cursor has to store before it comes to a cell. */
  function Ahead(cursor: u16, i: u16): u16 {
    Wrap(i - cursor)
  }

  lemma AheadOfNext(cursor: u16, i: u16)
    ensures Ahead(cursor, i) == 0 <==> i == cursor
    ensures i != cursor ==> Ahead(Wrap(cursor + 1), i) == Ahead(cursor, i) - 1
    ensures Ahead(Wrap(cursor + 1), cursor) == CURSOR_RANGE - 1
  {
  }

  /** A cell that the cursor does not come to keeps its byte. */
  lemma {:induction false} LeftByte(s: seq<byte>, cursor: u16, bytes: seq<byte>, i: u16)
    requires |s| >= CURSOR_RANGE && |bytes| <= Ahead(cursor, i)
    ensures WriteAt(s, cursor, bytes)[i] == s[i]
    decreases bytes
  {
    AheadOfNext(cursor, i);
    if bytes != [] {
      LeftByte(s[cursor := bytes[0]], Wrap(cursor + 1), bytes[1..], i);
    }
  }

  /** A cell holds the last byte stored there: the one after which the cursor does not come round again. */
  lemma {:induction false} WroteByte(s: seq<byte>, cursor: u16, bytes: seq<byte>, k: nat)
    requires |s| >= CURSOR_RANGE && k < |bytes| <= k + CURSOR_RANGE
    ensures WriteAt(s, cursor, bytes)[Wrap(cursor + k)] == bytes[k]
    decreases bytes
  {
    var t, next := s[cursor := bytes[0]], Wrap(cursor + 1);
    if k > 0 {
      WroteByte(t, next, bytes[1..], k - 1);
      WrapSum(cursor + 1, k - 1);
    } else {
      AheadOfNext(cursor, cursor);
      LeftByte(t, next, bytes[1..], cursor);
    }
  }

  /** The same, for the byte that lands on a given cell. */
  lemma ByteLands(s: seq<byte>, cursor: u16, bytes: seq<byte>, k: nat, i: nat)
    requires |s| >= CURSOR_RANGE && k < |bytes| <= k + CURSOR_RANGE && Wrap(cursor + k) == i
    ensures WriteAt(s, cursor, bytes)[i] == bytes[k]
  {
    WroteByte(s, cursor, bytes, k);
  }

  lemma EncodedByte(p: Param, k: nat)
    requires PARAMETER_HEAD_LENGTH <= k < |EncodeParam(p)|
    ensures EncodeParam(p)[k] == p.value[k - PARAMETER_HEAD_LENGTH]
  {
  }

  /** A buffer that holds a head and a body, as far as the body goes. */
  ghost predicate HoldsBody(s: seq<byte>, version: byte, mtype: u16, body: seq<byte>) {
    && |body| < 0x1_0000 && |s| >= MESSAGE_HEAD_LENGTH + |body|
    && s[..MESSAGE_HEAD_LENGTH + |body|] == [version] + Be16(mtype) + Be16(|body|) + body
  }

  lemma HeldHead(s: seq<byte>, version: byte, mtype: u16, body: seq<byte>)
    requires HoldsBody(s, version, mtype, body)
    ensures VersionOf(s) == version && TypeOf(s) == mtype && BodyLengthOf(s) == |body|
    ensures s[MESSAGE_HEAD_LENGTH..MESSAGE_HEAD_LENGTH + |body|] == body
  {
    var t := s[..MESSAGE_HEAD_LENGTH + |body|];
    assert t[1..3] == Be16(mtype) && t[3..5] == Be16(|body|);
    assert s[1..3] == t[1..3] && s[3..5] == t[3..5];
    assert t[MESSAGE_HEAD_LENGTH..] == body;
    assert s[MESSAGE_HEAD_LENGTH..MESSAGE_HEAD_LENGTH + |body|] == t[MESSAGE_HEAD_LENGTH..];
  }

  lemma PatchedSplice(s: seq<byte>, at: nat, e: seq<byte>, x: byte, y: byte)
    requires 5 <= at && at + |e| <= |s|
    ensures var r := (s[..at] + e + s[at + |e|..])[3 := x][4 := y];
            && r[..3] == s[..3] && r[3..5] == [x, y] && r[5..at] == s[5..at]
            && r[at..at + |e|] == e && r[at + |e|..] == s[at + |e|..]
  {
    var w := s[..at] + e + s[at + |e|..];
    var r := w[3 := x][4 := y];
    assert r[at + |e|..] == w[at + |e|..];
    assert r[at..at + |e|] == w[at..at + |e|];
    assert r[5..at] == w[5..at];
  }

  lemma AppendedParts(s: seq<byte>, p: Param)
    requires |s| >= CURSOR_RANGE
    requires MESSAGE_HEAD_LENGTH + BodyLengthOf(s) + |EncodeParam(p)| <= CURSOR_RANGE
    ensures var at := MESSAGE_HEAD_LENGTH + BodyLengthOf(s);
            && Appended(s, p)[..3] == s[..3]
            && Appended(s, p)[3..5] == Be16(BodyLengthOf(s) + |EncodeParam(p)|)
            && Appended(s, p)[5..at] == s[5..at]
            && Appended(s, p)[at..at + |EncodeParam(p)|] == EncodeParam(p)
            && Appended(s, p)[at + |EncodeParam(p)|..] == s[at + |EncodeParam(p)|..]
  {
    var body := BodyAfter(s, p);
    assert CursorOf(s) == MESSAGE_HEAD_LENGTH + BodyLengthOf(s);
    assert body == BodyLengthOf(s) + |EncodeParam(p)|;
    WriteAtInPlace(s, CursorOf(s), EncodeParam(p));
    PatchedSplice(s, CursorOf(s), EncodeParam(p), body / 0x100, body % 0x100);
  }

  /** Appending adds the parameter's bytes to the body and touches nothing past them. */
  lemma AppendedHolds(s: seq<byte>, version: byte, mtype: u16, body: seq<byte>, p: Param)
    requires |s| >= CURSOR_RANGE && HoldsBody(s, version, mtype, body)
    requires MESSAGE_HEAD_LENGTH + |body| + |EncodeParam(p)| <= CURSOR_RANGE
    ensures HoldsBody(Appended(s, p), version, mtype, body + EncodeParam(p))
    ensures Appended(s, p)[MESSAGE_HEAD_LENGTH + |body| + |EncodeParam(p)|..]
         == s[MESSAGE_HEAD_LENGTH + |body| + |EncodeParam(p)|..]
  {
    HeldHead(s, version, mtype, body);
    AppendedParts(s, p);
    var at, e, r := MESSAGE_HEAD_LENGTH + |body|, EncodeParam(p), Appended(s, p);
    assert s[..3] == s[..at][..3] == [version] + Be16(mtype);
    assert r[..at + |e|] == r[..3] + r[3..5] + (r[5..at] + r[at..at + |e|]);
  }

  lemma SuffixOfSuffix(s: seq<byte>, t: seq<byte>, mid: nat, end: nat)
    requires |s| == |t| && mid <= end <= |s| && s[mid..] == t[mid..]
    ensures s[end..] == t[end..]
  {
    assert s[end..] == s[mid..][end - mid..] && t[end..] == t[mid..][end - mid..];
  }

  lemma Regroup(a: seq<byte>, b: seq<byte>, c: seq<byte>)
    ensures a + b + c == a + (b + c)
  {
  }

  lemma {:induction false} AllAppendedHolds(s: seq<byte>, version: byte, mtype: u16, body: seq<byte>, ps: seq<Param>)
    requires |s| >= CURSOR_RANGE && HoldsBody(s, version, mtype, body)
    requires MESSAGE_HEAD_LENGTH + |body| + |EncodeParams(ps)| <= CURSOR_RANGE
    ensures HoldsBody(AllAppended(s, ps), version, mtype, body + EncodeParams(ps))
    ensures AllAppended(s, ps)[MESSAGE_HEAD_LENGTH + |body| + |EncodeParams(ps)|..]
         == s[MESSAGE_HEAD_LENGTH + |body| + |EncodeParams(ps)|..]
    decreases ps
  {
    if ps == [] {
      assert body + EncodeParams(ps) == body;
    } else {
      var e, rest, t := EncodeParam(ps[0]), EncodeParams(ps[1..]), Appended(s, ps[0]);
      AppendedHolds(s, version, mtype, body, ps[0]);
      AllAppendedHolds(t, version, mtype, body + e, ps[1..]);
      Regroup(body, e, rest);
      SuffixOfSuffix(t, s, MESSAGE_HEAD_LENGTH + |body + e|, MESSAGE_HEAD_LENGTH + |body + e| + |rest|);
    }
  }

  /** The whole message fits below the cursor's range. */
  predicate Fits(m: Message) {
    MESSAGE_HEAD_LENGTH + |EncodeParams(m.params)| <= CURSOR_RANGE
  }

  /** Packaging writes exactly the message's bytes at the front of the buffer. */
  lemma PackagedIsEncoded(s: seq<byte>, m: Message)
    requires |s| >= CURSOR_RANGE && Fits(m)
    ensures Packaged(s, m) == Encode(m) + s[|Encode(m)|..]
    ensures HoldsBody(Packaged(s, m), m.version, m.mtype, EncodeParams(m.params))
  {
    var h := HeadWritten(s, m.version, m.mtype);
    assert Be16(0) == [0, 0];
    assert h[..MESSAGE_HEAD_LENGTH] == [m.version] + Be16(m.mtype) + Be16(0) + [];
    AllAppendedHolds(h, m.version, m.mtype, [], m.params);
    var body := EncodeParams(m.params);
    assert [] + body == body;
    var end := MESSAGE_HEAD_LENGTH + |body|;
    assert h[end..] == s[end..];
    var r := Packaged(s, m);
    assert r == r[..end] + r[end..];
  }

  // ---- The methods ----

  method PackageMessageHead(buffer: array<byte>, version: byte, mtype: u16) returns (written: nat)
    requires buffer.Length >= MESSAGE_HEAD_LENGTH
    modifies buffer
    ensures buffer[..] == HeadWritten(old(buffer[..]), version, mtype)
    ensures written == MESSAGE_HEAD_LENGTH
  {
    buffer[0] := version;
    buffer[1] := mtype / 0x100;
    buffer[2] := mtype % 0x100;
    buffer[3] := 0;
    buffer[4] := 0;
    return MESSAGE_HEAD_LENGTH;
  }

  method PackageParameterContent(buffer: array<byte>, ptype: u16, value: seq<byte>) returns (written: nat)
    requires buffer.Length >= CURSOR_RANGE && |value| < 0x1_0000
    modifies buffer
    ensures buffer[..] == Appended(old(buffer[..]), Parameter(ptype, value))
    ensures written == MESSAGE_HEAD_LENGTH + BodyAfter(old(buffer[..]), Parameter(ptype, value))
  {
    ghost var s, p: Param := buffer[..], Parameter(ptype, value);
    var cursor: u16 := Wrap(0x100 * (buffer[3] as int) + buffer[4] + MESSAGE_HEAD_LENGTH);
    ghost var start := cursor;
    var header := Be16(ptype) + Be16(|value|);
    cursor := StoreAll(buffer, cursor, header);
    cursor := StoreAll(buffer, cursor, value);
    WriteAtConcat(s, start, header, value);
    assert header + value == EncodeParam(p);
    var length: u16 := Wrap(cursor - MESSAGE_HEAD_LENGTH);
    WrapSum(start + |header|, |value|);
    WrapSum(start + |header| + |value|, -MESSAGE_HEAD_LENGTH);
    assert length == BodyAfter(s, p);
    buffer[3] := length / 0x100;
    buffer[4] := length % 0x100;
    return MESSAGE_HEAD_LENGTH + length;
  }

  lemma {:induction false} WriteAtConcat(s: seq<byte>, cursor: u16, a: seq<byte>, b: seq<byte>)
    requires |s| >= CURSOR_RANGE
    ensures WriteAt(s, cursor, a + b) == WriteAt(WriteAt(s, cursor, a), Wrap(cursor + |a|), b)
    decreases a
  {
    if a == [] {
      assert a + b == b;
    } else {
      assert (a + b)[1..] == a[1..] + b;
      WriteAtConcat(s[cursor := a[0]], Wrap(cursor + 1), a[1..], b);
      WrapSum(cursor + 1, |a| - 1);
    }
  }

  /** The stores output_buffer[length++] = byte. */
  method StoreAll(buffer: array<byte>, start: u16, bytes: seq<byte>) returns (cursor: u16)
    requires buffer.Length >= CURSOR_RANGE
    modifies buffer
    ensures buffer[..] == WriteAt(old(buffer[..]), start, bytes)
    ensures cursor == Wrap(start + |bytes|)
  {
    cursor := start;
    for i := 0 to |bytes|
      invariant buffer[..] == WriteAt(old(buffer[..]), start, bytes[..i])
      invariant cursor == Wrap(start + i)
    {
      WriteAtSnoc(old(buffer[..]), start, bytes[..i], bytes[i]);
      assert bytes[..i + 1] == bytes[..i] + [bytes[i]];
      buffer[cursor] := bytes[i];
      cursor := Wrap(cursor + 1);
    }
    assert bytes[..|bytes|] == bytes;
  }

  /** package_message_common, for any number of parameters. */
  method PackageMessage(buffer: array<byte>, m: Message) returns (written: nat)
    requires buffer.Length >= CURSOR_RANGE
    modifies buffer
    ensures buffer[..] == Packaged(old(buffer[..]), m)
    ensures m.params != [] ==> written == MESSAGE_HEAD_LENGTH + BodyLengthOf(buffer[..])
    ensures Fits(m) ==> buffer[..] == Encode(m) + old(buffer[..])[|Encode(m)|..]
    ensures Fits(m) && m.params != [] ==> written == |Encode(m)|
  {
    ghost var s := buffer[..];
    written := PackageMessageHead(buffer, m.version, m.mtype);
    ghost var h := buffer[..];
    for k := 0 to |m.params|
      invariant AllAppended(h, m.params) == AllAppended(buffer[..], m.params[k..])
      invariant k > 0 ==> written == MESSAGE_HEAD_LENGTH + BodyLengthOf(buffer[..])
    {
      ghost var t := buffer[..];
      assert m.params[k..][1..] == m.params[k + 1..];
      written := PackageParameterContent(buffer, m.params[k].ptype, m.params[k].value);
      AppendedLength(t, m.params[k]);
    }
    if Fits(m) {
      PackagedIsEncoded(s, m);
      HeldHead(buffer[..], m.version, m.mtype, EncodeParams(m.params));
    }
  }

  lemma AppendedLength(s: seq<byte>, p: Param)
    requires |s| >= CURSOR_RANGE
    ensures BodyLengthOf(Appended(s, p)) == BodyAfter(s, p)
  {
    var r := Appended(s, p);
    assert r[3..5] == [r[3], r[4]] == Be16(BodyAfter(s, p));
  }
}
