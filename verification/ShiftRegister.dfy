/**
 The decoder model of Annex A of ISO/IEC 13818-1: a 32-bit shift register fed
 one bit at a time. The table-driven loop of crc.cpp is proved equal to it.
*/
module ShiftRegister {
  import opened Bytes
  import opened Folds
  import opened Crc

  const POLYNOMIAL: bv32 := 0x04c11db7

  /** The bit leaving the register is added to the input bit; if the sum is one, the taps flip. */
  function FeedBit(register: bv32, bit: bool): bv32 {
    var out := register & 0x80000000 != 0;
    if out != bit then (register << 1) ^ POLYNOMIAL else register << 1
  }

  /** The n leading bits of a word, most significant first. */
  function TopBits(v: bv32, n: nat): (s: seq<bool>)
    ensures |s| == n
    decreases n
  {
    if n == 0 then [] else [TopBit(v) != 0] + TopBits(Double(v), n - 1)
  }

  function BitsOfByte(b: byte): (s: seq<bool>)
    ensures |s| == 8
  {
    TopBits(OnTop(Widen(b)), 8)
  }

  function BitsOf(input: seq<byte>): seq<bool> {
    Flatten(BitsOfByte, input)
  }

  /** The register after the bits of the input have been fed in; it starts with all ones. */
  function Register(input: seq<byte>): bv32 {
    Fold(FeedBit, 0xffffffff, BitsOf(input))
  }

  // ---- One step with a zero input bit, and its linearity ----

  // The word operations get names so that proofs rewrite with them.

  function TopBit(w: bv32): bv32 {
    w & 0x80000000
  }

  function LowBits(w: bv32): bv32 {
    w & 0x7fffffff
  }

  function Double(w: bv32): bv32 {
    w << 1
  }

  /** A byte in the register's leading position. */
  function OnTop(w: bv32): bv32 {
    w << 24
  }

  function Tap(top: bv32): bv32 {
    if top == 0 then 0 else 0x04c11db7
  }

  function Step(w: bv32): bv32 {
    (w << 1) ^ (if w & 0x80000000 == 0 then 0 else 0x04c11db7)
  }

  function Step8(w: bv32): bv32 {
    Step(Step(Step(Step(Step(Step(Step(Step(w))))))))
  }

  lemma StepForm(w: bv32)
    ensures Step(w) == Xor(Double(w), Tap(TopBit(w)))
  {
    var taps: bv32 := if w & 0x80000000 == 0 then 0 else 0x04c11db7;
    assert Tap(TopBit(w)) == taps;
    assert Step(w) == Xor(w << 1, taps);
  }

  lemma DoubleXor(a: bv32, b: bv32)
    ensures Double(Xor(a, b)) == Xor(Double(a), Double(b))
  {
    assert (a ^ b) << 1 == (a << 1) ^ (b << 1);
  }

  lemma TopXor(a: bv32, b: bv32)
    ensures TopBit(Xor(a, b)) == Xor(TopBit(a), TopBit(b))
    ensures TopBit(a) == 0 || TopBit(a) == 0x80000000
  {
    assert (a ^ b) & 0x80000000 == (a & 0x80000000) ^ (b & 0x80000000);
  }

  lemma TapXor(a: bv32, b: bv32)
    requires a == 0 || a == 0x80000000
    requires b == 0 || b == 0x80000000
    ensures Tap(Xor(a, b)) == Xor(Tap(a), Tap(b))
  {
  }

  lemma XorCommutes(a: bv32, b: bv32)
    ensures Xor(a, b) == Xor(b, a)
  {
  }

  lemma XorAssociates(a: bv32, b: bv32, c: bv32)
    ensures Xor(Xor(a, b), c) == Xor(a, Xor(b, c))
  {
    assert (a ^ b) ^ c == a ^ (b ^ c);
  }

  lemma XorSwap(p: bv32, q: bv32, f: bv32, g: bv32)
    ensures Xor(Xor(p, q), Xor(f, g)) == Xor(Xor(p, f), Xor(q, g))
  {
    XorAssociates(p, q, Xor(f, g));
    XorAssociates(q, f, g);
    XorCommutes(q, f);
    XorAssociates(f, q, g);
    XorAssociates(p, f, Xor(q, g));
  }

  lemma StepXor(a: bv32, b: bv32)
    ensures Step(Xor(a, b)) == Xor(Step(a), Step(b))
  {
    StepForm(a);
    StepForm(b);
    StepForm(Xor(a, b));
    DoubleXor(a, b);
    TopXor(a, b);
    TopXor(b, a);
    TapXor(TopBit(a), TopBit(b));
    XorSwap(Double(a), Double(b), Tap(TopBit(a)), Tap(TopBit(b)));
  }

  lemma Step8Xor(a: bv32, b: bv32)
    ensures Step8(Xor(a, b)) == Xor(Step8(a), Step8(b))
  {
    forall x, y
      ensures Step(Xor(x, y)) == Xor(Step(x), Step(y))
    {
      StepXor(x, y);
    }
    IterateAdditive(Step, Xor, 8, a, b);
  }

  // ---- The table holds the eight-step images of its indices ----

  /** Entry c of a row is the row's first entry plus the entry of row 0 in that column. */
  ghost predicate EntryIsSum(row: seq<bv32>, first: seq<bv32>, c: nat) {
    |row| == |first| == 16 && c < 16 && row[c] == Xor(row[0], first[c])
  }

  ghost predicate RowIsLinear(row: seq<bv32>, first: seq<bv32>) {
    && EntryIsSum(row, first, 0) && EntryIsSum(row, first, 1)
    && EntryIsSum(row, first, 2) && EntryIsSum(row, first, 3)
    && EntryIsSum(row, first, 4) && EntryIsSum(row, first, 5)
    && EntryIsSum(row, first, 6) && EntryIsSum(row, first, 7)
    && EntryIsSum(row, first, 8) && EntryIsSum(row, first, 9)
    && EntryIsSum(row, first, 10) && EntryIsSum(row, first, 11)
    && EntryIsSum(row, first, 12) && EntryIsSum(row, first, 13)
    && EntryIsSum(row, first, 14) && EntryIsSum(row, first, 15)
  }

  lemma RowEntry(row: seq<bv32>, first: seq<bv32>, c: nat)
    requires RowIsLinear(row, first) && c < 16
    ensures EntryIsSum(row, first, c)
  {
  }

  lemma XorFromZero(s: bv32)
    ensures Xor(0, s) == s
  {
  }

  /** Row 0 starts with zero, so it is its own sum. */
  lemma FirstRowIsLinear(row: seq<bv32>)
    requires |row| == 16 && row[0] == 0
    ensures RowIsLinear(row, row)
  {
    forall c | 0 <= c < 16 ensures EntryIsSum(row, row, c) {
      XorFromZero(row[c]);
    }
  }

  lemma RowsAreLinear1To2(r: nat)
    requires 1 <= r < 3
    ensures |CRC_TABLE| == 16 && RowIsLinear(CRC_TABLE[r], CRC_TABLE[0])
  {
    match r
    case 1 => assert RowIsLinear(CRC_TABLE[1], CRC_TABLE[0]);
    case 2 => assert RowIsLinear(CRC_TABLE[2], CRC_TABLE[0]);
  }

  lemma RowsAreLinear3To4(r: nat)
    requires 3 <= r < 5
    ensures |CRC_TABLE| == 16 && RowIsLinear(CRC_TABLE[r], CRC_TABLE[0])
  {
    match r
    case 3 => assert RowIsLinear(CRC_TABLE[3], CRC_TABLE[0]);
    case 4 => assert RowIsLinear(CRC_TABLE[4], CRC_TABLE[0]);
  }

  lemma RowsAreLinear5To7(r: nat)
    requires 5 <= r < 8
    ensures |CRC_TABLE| == 16 && RowIsLinear(CRC_TABLE[r], CRC_TABLE[0])
  {
    match r
    case 5 => assert RowIsLinear(CRC_TABLE[5], CRC_TABLE[0]);
    case 6 => assert RowIsLinear(CRC_TABLE[6], CRC_TABLE[0]);
    case 7 => assert RowIsLinear(CRC_TABLE[7], CRC_TABLE[0]);
  }

  lemma RowsAreLinear8To11(r: nat)
    requires 8 <= r < 12
    ensures |CRC_TABLE| == 16 && RowIsLinear(CRC_TABLE[r], CRC_TABLE[0])
  {
    match r
    case 8 => assert RowIsLinear(CRC_TABLE[8], CRC_TABLE[0]);
    case 9 => assert RowIsLinear(CRC_TABLE[9], CRC_TABLE[0]);
    case 10 => assert RowIsLinear(CRC_TABLE[10], CRC_TABLE[0]);
    case 11 => assert RowIsLinear(CRC_TABLE[11], CRC_TABLE[0]);
  }

  lemma RowsAreLinear12To15(r: nat)
    requires 12 <= r < 16
    ensures |CRC_TABLE| == 16 && RowIsLinear(CRC_TABLE[r], CRC_TABLE[0])
  {
    match r
    case 12 => assert RowIsLinear(CRC_TABLE[12], CRC_TABLE[0]);
    case 13 => assert RowIsLinear(CRC_TABLE[13], CRC_TABLE[0]);
    case 14 => assert RowIsLinear(CRC_TABLE[14], CRC_TABLE[0]);
    case 15 => assert RowIsLinear(CRC_TABLE[15], CRC_TABLE[0]);
  }

  lemma RowsAreLinear(r: nat)
    requires r < 16
    ensures |CRC_TABLE| == 16 && RowIsLinear(CRC_TABLE[r], CRC_TABLE[0])
  {
    if r < 1 {
      FirstRowIsLinear(CRC_TABLE[0]);
    } else if r < 3 {
      RowsAreLinear1To2(r);
    } else if r < 5 {
      RowsAreLinear3To4(r);
    } else if r < 8 {
      RowsAreLinear5To7(r);
    } else if r < 12 {
      RowsAreLinear8To11(r);
    } else {
      RowsAreLinear12To15(r);
    }
  }

  // The first row and the first column, entry by entry.

  lemma FirstRowImages0To1()
    requires |CRC_TABLE| == 16 && forall r | 0 <= r < 16 :: |CRC_TABLE[r]| == 16
    ensures CRC_TABLE[0][0] == Step8(0x00000000)
    ensures CRC_TABLE[0][1] == Step8(0x01000000)
  {
  }

  lemma FirstRowImages2To3()
    requires |CRC_TABLE| == 16 && forall r | 0 <= r < 16 :: |CRC_TABLE[r]| == 16
    ensures CRC_TABLE[0][2] == Step8(0x02000000)
    ensures CRC_TABLE[0][3] == Step8(0x03000000)
  {
  }

  lemma FirstRowImages4To5()
    requires |CRC_TABLE| == 16 && forall r | 0 <= r < 16 :: |CRC_TABLE[r]| == 16
    ensures CRC_TABLE[0][4] == Step8(0x04000000)
    ensures CRC_TABLE[0][5] == Step8(0x05000000)
  {
  }

  lemma FirstRowImages6To7()
    requires |CRC_TABLE| == 16 && forall r | 0 <= r < 16 :: |CRC_TABLE[r]| == 16
    ensures CRC_TABLE[0][6] == Step8(0x06000000)
    ensures CRC_TABLE[0][7] == Step8(0x07000000)
  {
  }

  lemma FirstRowImages8To11()
    requires |CRC_TABLE| == 16 && forall r | 0 <= r < 16 :: |CRC_TABLE[r]| == 16
    ensures CRC_TABLE[0][8] == Step8(0x08000000)
    ensures CRC_TABLE[0][9] == Step8(0x09000000)
    ensures CRC_TABLE[0][10] == Step8(0x0a000000)
    ensures CRC_TABLE[0][11] == Step8(0x0b000000)
  {
  }

  lemma FirstRowImages12To15()
    requires |CRC_TABLE| == 16 && forall r | 0 <= r < 16 :: |CRC_TABLE[r]| == 16
    ensures CRC_TABLE[0][12] == Step8(0x0c000000)
    ensures CRC_TABLE[0][13] == Step8(0x0d000000)
    ensures CRC_TABLE[0][14] == Step8(0x0e000000)
    ensures CRC_TABLE[0][15] == Step8(0x0f000000)
  {
  }

  lemma FirstColumnImages0To1()
    requires |CRC_TABLE| == 16 && forall r | 0 <= r < 16 :: |CRC_TABLE[r]| == 16
    ensures CRC_TABLE[0][0] == Step8(0x00000000)
    ensures CRC_TABLE[1][0] == Step8(0x10000000)
  {
  }

  lemma FirstColumnImages2To3()
    requires |CRC_TABLE| == 16 && forall r | 0 <= r < 16 :: |CRC_TABLE[r]| == 16
    ensures CRC_TABLE[2][0] == Step8(0x20000000)
    ensures CRC_TABLE[3][0] == Step8(0x30000000)
  {
  }

  lemma FirstColumnImages4To5()
    requires |CRC_TABLE| == 16 && forall r | 0 <= r < 16 :: |CRC_TABLE[r]| == 16
    ensures CRC_TABLE[4][0] == Step8(0x40000000)
    ensures CRC_TABLE[5][0] == Step8(0x50000000)
  {
  }

  lemma FirstColumnImages6To7()
    requires |CRC_TABLE| == 16 && forall r | 0 <= r < 16 :: |CRC_TABLE[r]| == 16
    ensures CRC_TABLE[6][0] == Step8(0x60000000)
    ensures CRC_TABLE[7][0] == Step8(0x70000000)
  {
  }

  lemma FirstColumnImages8To11()
    requires |CRC_TABLE| == 16 && forall r | 0 <= r < 16 :: |CRC_TABLE[r]| == 16
    ensures CRC_TABLE[8][0] == Step8(0x80000000)
    ensures CRC_TABLE[9][0] == Step8(0x90000000)
    ensures CRC_TABLE[10][0] == Step8(0xa0000000)
    ensures CRC_TABLE[11][0] == Step8(0xb0000000)
  {
  }

  lemma FirstColumnImages12To15()
    requires |CRC_TABLE| == 16 && forall r | 0 <= r < 16 :: |CRC_TABLE[r]| == 16
    ensures CRC_TABLE[12][0] == Step8(0xc0000000)
    ensures CRC_TABLE[13][0] == Step8(0xd0000000)
    ensures CRC_TABLE[14][0] == Step8(0xe0000000)
    ensures CRC_TABLE[15][0] == Step8(0xf0000000)
  {
  }

  lemma SplitNibbles(x: bv32)
    requires x & 0xffffff00 == 0
    ensures OnTop(x) == Xor(OnTop(x & 0xf0), OnTop(x & 0x0f))
    ensures (x & 0xf0) & 0xffffff0f == 0 && (x & 0x0f) & 0xfffffff0 == 0
    ensures (x & 0xf0) >> 4 == x >> 4
  {
  }

  lemma IndexNibbles(x: bv32)
    requires x & 0xffffff00 == 0
    ensures 0 <= x as int < 0x100
    ensures (x as int) / 16 == (x >> 4) as int
    ensures (x as int) % 16 == (x & 0x0f) as int
  {
    assert x <= 0xff;
  }

  lemma FirstRow(x: bv32)
    requires x & 0xfffffff0 == 0
    ensures |CRC_TABLE| == 16 && |CRC_TABLE[0]| == 16 && 0 <= x as int < 16
    ensures CRC_TABLE[0][x as int] == Step8(OnTop(x))
  {
    TableShape();
    FirstRowImages0To1();
    FirstRowImages2To3();
    FirstRowImages4To5();
    FirstRowImages6To7();
    FirstRowImages8To11();
    FirstRowImages12To15();
    assert x == 0x00 || x == 0x01 || x == 0x02 || x == 0x03 || x == 0x04 || x == 0x05 || x == 0x06 || x == 0x07
        || x == 0x08 || x == 0x09 || x == 0x0a || x == 0x0b || x == 0x0c || x == 0x0d || x == 0x0e || x == 0x0f;
  }

  lemma FirstColumn(x: bv32)
    requires x & 0xffffff0f == 0
    ensures |CRC_TABLE| == 16 && 0 <= (x >> 4) as int < 16 && |CRC_TABLE[(x >> 4) as int]| == 16
    ensures CRC_TABLE[(x >> 4) as int][0] == Step8(OnTop(x))
  {
    TableShape();
    FirstColumnImages0To1();
    FirstColumnImages2To3();
    FirstColumnImages4To5();
    FirstColumnImages6To7();
    FirstColumnImages8To11();
    FirstColumnImages12To15();
    assert x == 0x00 || x == 0x10 || x == 0x20 || x == 0x30 || x == 0x40 || x == 0x50 || x == 0x60 || x == 0x70
        || x == 0x80 || x == 0x90 || x == 0xa0 || x == 0xb0 || x == 0xc0 || x == 0xd0 || x == 0xe0 || x == 0xf0;
  }

  lemma NibbleIndices(high: bv32, low: bv32) returns (r: nat, c: nat)
    requires high & 0xffffff0f == 0 && low & 0xfffffff0 == 0
    ensures r == (high >> 4) as int < 16 && c == low as int < 16
  {
    assert high >> 4 <= 0x0f && low <= 0x0f;
    r, c := (high >> 4) as int, low as int;
  }

  lemma NibbleEntry(high: bv32, low: bv32)
    requires high & 0xffffff0f == 0 && low & 0xfffffff0 == 0
    ensures |CRC_TABLE| == 16 && 0 <= (high >> 4) as int < 16 && 0 <= low as int < 16
    ensures |CRC_TABLE[(high >> 4) as int]| == 16
    ensures CRC_TABLE[(high >> 4) as int][low as int] == Step8(Xor(OnTop(high), OnTop(low)))
  {
    TableShape();
    var r, c := NibbleIndices(high, low);
    calc {
      CRC_TABLE[r][c];
    ==  { RowsAreLinear(r); RowEntry(CRC_TABLE[r], CRC_TABLE[0], c); }
      Xor(CRC_TABLE[r][0], CRC_TABLE[0][c]);
    ==  { FirstColumn(high); }
      Xor(Step8(OnTop(high)), CRC_TABLE[0][c]);
    ==  { FirstRow(low); }
      Xor(Step8(OnTop(high)), Step8(OnTop(low)));
    ==  { Step8Xor(OnTop(high), OnTop(low)); }
      Step8(Xor(OnTop(high), OnTop(low)));
    }
  }

  /** All 256 entries of crc_table are the eight-step images of their index. */
  lemma TableEntryIsImage(x: bv32)
    requires x & 0xffffff00 == 0
    ensures 0 <= x as int < 0x100
    ensures TableEntry(x as int) == Step8(OnTop(x))
  {
    IndexNibbles(x);
    SplitNibbles(x);
    NibbleEntry(x & 0xf0, x & 0x0f);
  }

  // ---- Eight fed bits are one turn of the loop ----

  lemma XorZero(s: bv32)
    ensures Xor(s, 0) == s
  {
  }

  lemma FlipTop(s: bv32)
    ensures Double(Xor(s, 0x80000000)) == Double(s)
    ensures TopBit(Xor(s, 0x80000000)) == 0 <==> TopBit(s) != 0
  {
    assert (s ^ 0x80000000) << 1 == s << 1;
    assert (s ^ 0x80000000) & 0x80000000 == 0 <==> s & 0x80000000 != 0;
  }

  lemma FeedZero(s: bv32)
    ensures FeedBit(s, false) == Step(s)
  {
    XorZero(Double(s));
    assert Tap(TopBit(s)) == if TopBit(s) == 0 then 0 else POLYNOMIAL;
  }

  lemma FeedOne(s: bv32)
    ensures FeedBit(s, true) == Step(Xor(s, 0x80000000))
  {
    XorZero(Double(s));
    FlipTop(s);
    assert Tap(TopBit(Xor(s, 0x80000000))) == if TopBit(s) == 0 then POLYNOMIAL else 0;
  }

  lemma FeedIsStep(s: bv32, v: bv32)
    ensures FeedBit(s, TopBit(v) != 0) == Step(Xor(s, TopBit(v)))
  {
    TopXor(v, 0);
    if TopBit(v) == 0 {
      XorZero(s);
      FeedZero(s);
    } else {
      FeedOne(s);
    }
  }

  lemma LowBitsShift(v: bv32)
    ensures Step(LowBits(v)) == Double(v)
  {
  }

  lemma SplitTop(s: bv32, v: bv32)
    ensures Xor(s, v) == Xor(Xor(s, TopBit(v)), LowBits(v))
  {
    assert s ^ v == (s ^ (v & 0x80000000)) ^ (v & 0x7fffffff);
  }

  /** Adding a word to the register and stepping is feeding the word's top bit. */
  lemma StepFeedsTop(s: bv32, v: bv32)
    ensures Step(Xor(s, v)) == Xor(FeedBit(s, TopBit(v) != 0), Double(v))
  {
    SplitTop(s, v);
    StepXor(Xor(s, TopBit(v)), LowBits(v));
    LowBitsShift(v);
    FeedIsStep(s, v);
  }

  /** Feeding the n leading bits of v, against adding all of v and stepping n times. */
  lemma {:induction false} StepsFeedBits(s: bv32, v: bv32, n: nat)
    ensures Iterate(Step, n, Xor(s, v)) == Xor(Fold(FeedBit, s, TopBits(v, n)), Iterate(Double, n, v))
    decreases n
  {
    if n > 0 {
      StepFeedsTop(s, v);
      StepsFeedBits(FeedBit(s, TopBit(v) != 0), Double(v), n - 1);
    }
  }

  lemma StepEightTimes(w: bv32)
    ensures Iterate(Step, 8, w) == Step8(w)
  {
  }

  lemma WidenIsByte(b: byte)
    ensures Widen(b) & 0xffffff00 == 0
  {
  }

  lemma ByteShiftsOut(w: bv32)
    requires w & 0xffffff00 == 0
    ensures Iterate(Double, 8, OnTop(w)) == 0
  {
    var v0 := OnTop(w);
    var v1 := Double(v0);
    var v2 := Double(v1);
    var v3 := Double(v2);
    var v4 := Double(v3);
    var v5 := Double(v4);
    var v6 := Double(v5);
    var v7 := Double(v6);
    assert v0 & 0x00ffffff == 0;
    assert v1 & 0x01ffffff == 0;
    assert v2 & 0x03ffffff == 0;
    assert v3 & 0x07ffffff == 0;
    assert v4 & 0x0fffffff == 0;
    assert v5 & 0x1fffffff == 0;
    assert v6 & 0x3fffffff == 0;
    assert v7 & 0x7fffffff == 0;
    assert Double(v7) == 0;
  }

  // The register split at the byte that indexes the table.

  function UpEight(s: bv32): bv32 {
    s << 8
  }

  function Rest(s: bv32): bv32 {
    s & 0x00ffffff
  }

  lemma SplitRegister(s: bv32)
    ensures s == Xor(Rest(s), OnTop(s >> 24))
  {
  }

  lemma OnTopXor(a: bv32, b: bv32)
    ensures OnTop(Xor(a, b)) == Xor(OnTop(a), OnTop(b))
  {
    assert (a ^ b) << 24 == (a << 24) ^ (b << 24);
  }

  lemma IndexIsXor(s: bv32, w: bv32)
    requires w & 0xffffff00 == 0
    ensures Index(s, w) == Xor(s >> 24, w)
    ensures Index(s, w) & 0xffffff00 == 0
  {
    assert ((s >> 24) ^ w) & 0xff == ((s >> 24) & 0xff) ^ (w & 0xff);
  }

  lemma SplitAtIndex(s: bv32, w: bv32)
    requires w & 0xffffff00 == 0
    ensures Xor(s, OnTop(w)) == Xor(Rest(s), OnTop(Index(s, w)))
  {
    SplitRegister(s);
    XorAssociates(Rest(s), OnTop(s >> 24), OnTop(w));
    OnTopXor(s >> 24, w);
    IndexIsXor(s, w);
  }

  lemma RestShiftsUp(s: bv32)
    ensures Step8(Rest(s)) == UpEight(s)
  {
  }

  lemma LowByteOfByte(x: bv32)
    requires x & 0xffffff00 == 0
    ensures LowByte(x) == x as int
  {
    assert x & 0xff == x;
  }

  lemma UpdateForm(s: bv32, b: byte)
    ensures Update(s, b) == Xor(UpEight(s), TableEntry(LowByte(Index(s, Widen(b)))))
  {
  }

  lemma UpdateIsStep8(s: bv32, b: byte)
    ensures Update(s, b) == Step8(Xor(s, OnTop(Widen(b))))
  {
    var w := Widen(b);
    var x := Index(s, w);
    WidenIsByte(b);
    UpdateForm(s, b);
    IndexIsXor(s, w);
    LowByteOfByte(x);
    TableEntryIsImage(x);
    RestShiftsUp(s);
    Step8Xor(Rest(s), OnTop(x));
    SplitAtIndex(s, w);
  }

  lemma FeedByteIsStep8(s: bv32, w: bv32)
    requires w & 0xffffff00 == 0
    ensures Fold(FeedBit, s, TopBits(OnTop(w), 8)) == Step8(Xor(s, OnTop(w)))
  {
    StepEightTimes(Xor(s, OnTop(w)));
    StepsFeedBits(s, OnTop(w), 8);
    ByteShiftsOut(w);
    XorZero(Fold(FeedBit, s, TopBits(OnTop(w), 8)));
  }

  /** One turn of the crc32 loop is eight bits through the register. */
  lemma UpdateFeedsByte(s: bv32, b: byte)
    ensures Update(s, b) == Fold(FeedBit, s, BitsOfByte(b))
  {
    WidenIsByte(b);
    UpdateIsStep8(s, b);
    FeedByteIsStep8(s, Widen(b));
  }

  /** The table-driven checksum is the shift register's, on every input and from every state. */
  lemma UpdatesFeedBits(s: bv32, input: seq<byte>)
    ensures Fold(Update, s, input) == Fold(FeedBit, s, BitsOf(input))
  {
    forall r, t
      ensures Update(r, t) == Fold(FeedBit, r, BitsOfByte(t))
    {
      UpdateFeedsByte(r, t);
    }
    FoldFlatten(Update, FeedBit, BitsOfByte, s, input);
  }

  lemma ChecksumIsRegister(input: seq<byte>)
    ensures Checksum(input) == Register(input)
  {
    UpdatesFeedBits(INITIAL, input);
  }
}
