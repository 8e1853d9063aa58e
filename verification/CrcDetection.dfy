/**
 What validate_crc accepts and what it can never miss: the zero residue, the
 uniqueness of the trailer, and every error burst of up to 32 bits.
*/
module CrcDetection {
  import opened Bytes
  import opened Folds
  import opened Crc
  import opened ShiftRegister

  // ---- Words and their bits ----

  function And(v: bv32, m: bv32): bv32 {
    v & m
  }

  function Half(m: bv32): bv32 {
    m >> 1
  }

  /** The mask of the 32 - k low bits. */
  function LowMask(k: nat): bv32 {
    if k == 0 then 0xffffffff else Half(LowMask(k - 1))
  }

  lemma MaskBounds()
    ensures LowMask(31) == 1
    ensures LowMask(32) == 0
  {
    assert LowMask(4) == 0x0fffffff;
    assert LowMask(8) == 0x00ffffff;
    assert LowMask(12) == 0x000fffff;
    assert LowMask(16) == 0x0000ffff;
    assert LowMask(20) == 0x00000fff;
    assert LowMask(24) == 0x000000ff;
    assert LowMask(28) == 0x0000000f;
  }

  lemma {:induction false} MaskNonzero(k: nat)
    requires k <= 31
    ensures LowMask(k) != 0
    decreases 31 - k
  {
    if k == 31 {
      MaskBounds();
    } else {
      MaskNonzero(k + 1);
    }
  }

  lemma HalfOfLowOnes(m: bv32)
    requires m & (m + 1) == 0
    ensures Half(m) & (Half(m) + 1) == 0
    ensures m != 0 ==> m & 1 == 1
  {
  }

  lemma {:induction false} MaskIsLowOnes(k: nat)
    ensures LowMask(k) & (LowMask(k) + 1) == 0
  {
    if k > 0 {
      MaskIsLowOnes(k - 1);
      HalfOfLowOnes(LowMask(k - 1));
    }
  }

  /** A mask of low ones is odd unless it is empty. */
  lemma MaskOdd(k: nat)
    requires k <= 31
    ensures LowMask(k) & 1 == 1
  {
    MaskNonzero(k);
    MaskIsLowOnes(k);
    HalfOfLowOnes(LowMask(k));
  }

  lemma DoubleClears(v: bv32, m: bv32)
    requires And(v, Half(m)) == 0
    ensures And(Double(v), m) == 0
  {
  }

  lemma {:induction false} DoublingClears(v: bv32, j: nat, n: nat)
    requires n <= j && And(v, LowMask(j)) == 0
    ensures And(Iterate(Double, n, v), LowMask(j - n)) == 0
    decreases n
  {
    if n > 0 {
      DoubleClears(v, LowMask(j - 1));
      DoublingClears(Double(v), j - 1, n - 1);
    }
  }

  lemma DoubleOut(v: bv32)
    ensures Iterate(Double, 32, v) == 0
  {
    MaskBounds();
    DoublingClears(v, 32, 32);
    assert And(Iterate(Double, 32, v), 0xffffffff) == Iterate(Double, 32, v);
  }

  lemma {:induction false} TopBitsSplit(v: bv32, m: nat, n: nat)
    ensures TopBits(v, m + n) == TopBits(v, m) + TopBits(Iterate(Double, m, v), n)
    decreases m
  {
    if m > 0 {
      TopBitsSplit(Double(v), m - 1, n);
    }
  }

  lemma DoubleAndTopDetermine(v: bv32, w: bv32)
    requires Double(v) == Double(w)
    requires TopBit(v) != 0 <==> TopBit(w) != 0
    ensures v == w
  {
  }

  lemma {:induction false} TopBitsDetermine(v: bv32, w: bv32, n: nat)
    requires TopBits(v, n) == TopBits(w, n)
    requires Iterate(Double, n, v) == Iterate(Double, n, w)
    ensures v == w
    decreases n
  {
    if n > 0 {
      var a, b := TopBits(Double(v), n - 1), TopBits(Double(w), n - 1);
      assert TopBits(v, n)[0] == (TopBit(v) != 0) && TopBits(v, n)[1..] == a;
      assert TopBits(w, n)[0] == (TopBit(w) != 0) && TopBits(w, n)[1..] == b;
      TopBitsDetermine(Double(v), Double(w), n - 1);
      DoubleAndTopDetermine(v, w);
    }
  }

  lemma WordBitsDetermine(v: bv32, w: bv32)
    requires TopBits(v, 32) == TopBits(w, 32)
    ensures v == w
  {
    DoubleOut(v);
    DoubleOut(w);
    TopBitsDetermine(v, w, 32);
  }

  // ---- Bytes and their bits ----

  lemma WidenBits(b: byte)
    ensures Widen(b) & 0x80 != 0 <==> b / 128 % 2 == 1
    ensures Widen(b) & 0x40 != 0 <==> b / 64 % 2 == 1
    ensures Widen(b) & 0x20 != 0 <==> b / 32 % 2 == 1
    ensures Widen(b) & 0x10 != 0 <==> b / 16 % 2 == 1
    ensures Widen(b) & 0x08 != 0 <==> b / 8 % 2 == 1
    ensures Widen(b) & 0x04 != 0 <==> b / 4 % 2 == 1
    ensures Widen(b) & 0x02 != 0 <==> b / 2 % 2 == 1
    ensures Widen(b) & 0x01 != 0 <==> b % 2 == 1
  {
  }

  lemma Halves(b: byte)
    ensures b / 128 / 2 == 0 && b / 64 / 2 == b / 128 && b / 32 / 2 == b / 64 && b / 16 / 2 == b / 32
    ensures b / 8 / 2 == b / 16 && b / 4 / 2 == b / 8 && b / 2 / 2 == b / 4
  {
  }

  lemma LastDigit(x: nat, y: nat)
    requires x / 2 == y / 2 && (x % 2 == 1 <==> y % 2 == 1)
    ensures x == y
  {
  }

  lemma BinaryDigitsDetermine(a: byte, b: byte)
    requires a / 128 % 2 == 1 <==> b / 128 % 2 == 1
    requires a / 64 % 2 == 1 <==> b / 64 % 2 == 1
    requires a / 32 % 2 == 1 <==> b / 32 % 2 == 1
    requires a / 16 % 2 == 1 <==> b / 16 % 2 == 1
    requires a / 8 % 2 == 1 <==> b / 8 % 2 == 1
    requires a / 4 % 2 == 1 <==> b / 4 % 2 == 1
    requires a / 2 % 2 == 1 <==> b / 2 % 2 == 1
    requires a % 2 == 1 <==> b % 2 == 1
    ensures a == b
  {
    Halves(a);
    Halves(b);
    LastDigit(a / 128, b / 128);
    LastDigit(a / 64, b / 64);
    LastDigit(a / 32, b / 32);
    LastDigit(a / 16, b / 16);
    LastDigit(a / 8, b / 8);
    LastDigit(a / 4, b / 4);
    LastDigit(a / 2, b / 2);
    LastDigit(a, b);
  }

  lemma WidenInjective(a: byte, b: byte)
    requires Widen(a) == Widen(b)
    ensures a == b
  {
    WidenBits(a);
    WidenBits(b);
    BinaryDigitsDetermine(a, b);
  }

  lemma OnTopInjective(v: bv32, w: bv32)
    requires v & 0xffffff00 == 0 && w & 0xffffff00 == 0 && OnTop(v) == OnTop(w)
    ensures v == w
  {
  }

  lemma ByteBitsDetermine(a: byte, b: byte)
    requires BitsOfByte(a) == BitsOfByte(b)
    ensures a == b
  {
    WidenIsByte(a);
    WidenIsByte(b);
    ByteShiftsOut(Widen(a));
    ByteShiftsOut(Widen(b));
    TopBitsDetermine(OnTop(Widen(a)), OnTop(Widen(b)), 8);
    OnTopInjective(Widen(a), Widen(b));
    WidenInjective(a, b);
  }

  lemma {:induction false} BitsLength(s: seq<byte>)
    ensures |BitsOf(s)| == 8 * |s|
  {
    if s != [] {
      BitsLength(s[1..]);
    }
  }

  lemma {:induction false} BitsDetermine(a: seq<byte>, b: seq<byte>)
    requires BitsOf(a) == BitsOf(b)
    ensures a == b
  {
    BitsLength(a);
    BitsLength(b);
    if a != [] {
      assert BitsOf(a) == BitsOfByte(a[0]) + BitsOf(a[1..]);
      assert BitsOf(b) == BitsOfByte(b[0]) + BitsOf(b[1..]);
      assert BitsOf(a)[..8] == BitsOfByte(a[0]) && BitsOf(a)[8..] == BitsOf(a[1..]);
      assert BitsOf(b)[..8] == BitsOfByte(b[0]) && BitsOf(b)[8..] == BitsOf(b[1..]);
      ByteBitsDetermine(a[0], b[0]);
      BitsDetermine(a[1..], b[1..]);
    }
  }

  // ---- The register forgets nothing ----

  /** Two registers that agree on low bits after a step took the same tap and agreed before it. */
  lemma UndoFeed(s: bv32, b: bool, t: bv32, c: bool, m: bv32)
    requires m & 1 == 1
    requires And(FeedBit(s, b), m) == And(FeedBit(t, c), m)
    ensures And(s, Half(m)) == And(t, Half(m))
    ensures (TopBit(s) != 0) != b <==> (TopBit(t) != 0) != c
  {
  }

  lemma LowAndTopDetermine(s: bv32, t: bv32)
    requires And(s, Half(0xffffffff)) == And(t, Half(0xffffffff))
    requires TopBit(s) != 0 <==> TopBit(t) != 0
    ensures s == t
  {
  }

  lemma FeedInjective(s: bv32, t: bv32, bit: bool)
    requires FeedBit(s, bit) == FeedBit(t, bit)
    ensures s == t
  {
    UndoFeed(s, bit, t, bit, 0xffffffff);
    LowAndTopDetermine(s, t);
  }

  lemma {:induction false} StateInjective(s: bv32, t: bv32, bits: seq<bool>)
    requires Fold(FeedBit, s, bits) == Fold(FeedBit, t, bits)
    ensures s == t
    decreases bits
  {
    if bits != [] {
      StateInjective(FeedBit(s, bits[0]), FeedBit(t, bits[0]), bits[1..]);
      FeedInjective(s, t, bits[0]);
    }
  }

  lemma {:induction false} LowBitsAgree(s: bv32, v: seq<bool>, t: bv32, w: seq<bool>)
    requires |v| == |w| <= 32
    requires Fold(FeedBit, s, v) == Fold(FeedBit, t, w)
    ensures And(s, LowMask(|v|)) == And(t, LowMask(|v|))
    decreases v
  {
    if v != [] {
      LowBitsAgree(FeedBit(s, v[0]), v[1..], FeedBit(t, w[0]), w[1..]);
      MaskOdd(|v| - 1);
      UndoFeed(s, v[0], t, w[0], LowMask(|v| - 1));
    }
  }

  /** From one state, two different inputs of the same length, at most 32 bits, end apart. */
  lemma {:induction false} WindowInjective(s: bv32, v: seq<bool>, w: seq<bool>)
    requires |v| == |w| <= 32
    requires Fold(FeedBit, s, v) == Fold(FeedBit, s, w)
    ensures v == w
    decreases v
  {
    if v != [] {
      var t, u := FeedBit(s, v[0]), FeedBit(s, w[0]);
      LowBitsAgree(t, v[1..], u, w[1..]);
      MaskOdd(|v| - 1);
      UndoFeed(s, v[0], s, w[0], LowMask(|v| - 1));
      WindowInjective(t, v[1..], w[1..]);
      assert v == [v[0]] + v[1..] && w == [w[0]] + w[1..];
    }
  }

  // ---- The residue ----

  lemma FeedOwnTop(s: bv32)
    ensures FeedBit(s, TopBit(s) != 0) == Double(s)
  {
  }

  lemma {:induction false} FeedOwnBits(s: bv32, n: nat)
    ensures Fold(FeedBit, s, TopBits(s, n)) == Iterate(Double, n, s)
    decreases n
  {
    if n > 0 {
      FeedOwnTop(s);
      FeedOwnBits(Double(s), n - 1);
    }
  }

  /** Exactly the register's own 32 bits drive it to zero. */
  lemma ZeroExactlyOnOwnBits(s: bv32, bits: seq<bool>)
    requires |bits| == 32
    ensures Fold(FeedBit, s, bits) == 0 <==> bits == TopBits(s, 32)
  {
    FeedOwnBits(s, 32);
    DoubleOut(s);
    if Fold(FeedBit, s, bits) == 0 {
      WindowInjective(s, bits, TopBits(s, 32));
    }
  }

  ghost predicate TopSet(m: bv32, n: nat)
    decreases n
  {
    n == 0 || (TopBit(m) != 0 && TopSet(Double(m), n - 1))
  }

  lemma AgreeOnTop(v: bv32, w: bv32, m: bv32)
    requires TopBit(m) != 0 && And(v, m) == And(w, m)
    ensures TopBit(v) == TopBit(w)
    ensures And(Double(v), Double(m)) == And(Double(w), Double(m))
  {
  }

  lemma {:induction false} TopBitsAgree(v: bv32, w: bv32, m: bv32, n: nat)
    requires TopSet(m, n) && And(v, m) == And(w, m)
    ensures TopBits(v, n) == TopBits(w, n)
    decreases n
  {
    if n > 0 {
      AgreeOnTop(v, w, m);
      TopBitsAgree(Double(v), Double(w), Double(m), n - 1);
    }
  }

  lemma TopByteBits(v: bv32)
    ensures TopBits(v, 8) == TopBits(OnTop(Byte3(v)), 8)
  {
    assert And(v, 0xff000000) == And(OnTop(Byte3(v)), 0xff000000);
    assert TopSet(0xff000000, 8);
    TopBitsAgree(v, OnTop(Byte3(v)), 0xff000000, 8);
  }

  lemma DoubleTwice(v: bv32)
    ensures Iterate(Double, 2, v) == v << 2
  {
    assert (v << 1) << 1 == v << 2;
  }

  lemma DoubleFour(v: bv32)
    ensures Iterate(Double, 4, v) == v << 4
  {
    IterateSplit(Double, 2, 2, v);
    DoubleTwice(v);
    DoubleTwice(v << 2);
    assert (v << 2) << 2 == v << 4;
  }

  lemma DoubleEight(v: bv32)
    ensures Iterate(Double, 8, v) == UpEight(v)
  {
    IterateSplit(Double, 4, 4, v);
    DoubleFour(v);
    DoubleFour(v << 4);
    assert (v << 4) << 4 == v << 8;
  }

  function Byte3(v: bv32): bv32 {
    (v >> 24) & 0xff
  }

  function Byte2(v: bv32): bv32 {
    (v >> 16) & 0xff
  }

  function Byte1(v: bv32): bv32 {
    (v >> 8) & 0xff
  }

  function Byte0(v: bv32): bv32 {
    v & 0xff
  }

  lemma BytesOfSum(w0: bv32, w1: bv32, w2: bv32, w3: bv32)
    requires w0 & 0xffffff00 == 0 && w1 & 0xffffff00 == 0
    requires w2 & 0xffffff00 == 0 && w3 & 0xffffff00 == 0
    ensures Byte3(Join(w0, w1, w2, w3)) == w0 && Byte2(Join(w0, w1, w2, w3)) == w1
    ensures Byte1(Join(w0, w1, w2, w3)) == w2 && Byte0(Join(w0, w1, w2, w3)) == w3
  {
  }

  lemma SumOfBytes(v: bv32)
    ensures Join(Byte3(v), Byte2(v), Byte1(v), Byte0(v)) == v
  {
    assert (((v >> 24) & 0xff) << 24) + (((v >> 16) & 0xff) << 16) + (((v >> 8) & 0xff) << 8) + (v & 0xff) == v;
  }

  lemma CrcWordBytes(t: seq<byte>)
    requires |t| == 4
    ensures Byte3(CrcWord(t)) == Widen(t[0]) && Byte2(CrcWord(t)) == Widen(t[1])
    ensures Byte1(CrcWord(t)) == Widen(t[2]) && Byte0(CrcWord(t)) == Widen(t[3])
  {
    WidenIsByte(t[0]);
    WidenIsByte(t[1]);
    WidenIsByte(t[2]);
    WidenIsByte(t[3]);
    BytesOfSum(Widen(t[0]), Widen(t[1]), Widen(t[2]), Widen(t[3]));
  }

  lemma WidenBack(x: bv32)
    requires x & 0xffffff00 == 0
    ensures 0 <= x as int < 0x100 && Widen(x as int) == x
  {
  }

  lemma WidenLowByte(v: bv32)
    ensures Widen(LowByte(v)) == Byte0(v)
  {
    WidenBack(v & 0xff);
  }

  lemma LowByteDetermines(v: bv32, b: byte)
    requires Byte0(v) == Widen(b)
    ensures LowByte(v) == b
  {
    WidenLowByte(v);
    WidenInjective(LowByte(v), b);
  }

  lemma ShiftedBytes(v: bv32)
    ensures Byte0(v >> 24) == Byte3(v) && Byte0(v >> 16) == Byte2(v) && Byte0(v >> 8) == Byte1(v)
    ensures Byte3(UpEight(v)) == Byte2(v)
    ensures Byte3(UpEight(UpEight(v))) == Byte1(v)
    ensures Byte3(UpEight(UpEight(UpEight(v)))) == Byte0(v)
  {
  }

  lemma WordOfCrcBytes(crc: bv32)
    ensures CrcWord(CrcBytes(crc)) == crc
  {
    WidenLowByte(crc >> 24);
    WidenLowByte(crc >> 16);
    WidenLowByte(crc >> 8);
    WidenLowByte(crc);
    ShiftedBytes(crc);
    SumOfBytes(crc);
  }

  lemma CrcBytesOfWord(t: seq<byte>)
    requires |t| == 4
    ensures CrcBytes(CrcWord(t)) == t
  {
    var v := CrcWord(t);
    CrcWordBytes(t);
    ShiftedBytes(v);
    LowByteDetermines(v >> 24, t[0]);
    LowByteDetermines(v >> 16, t[1]);
    LowByteDetermines(v >> 8, t[2]);
    LowByteDetermines(v, t[3]);
  }

  lemma WordBitsSplit(v: bv32)
    ensures TopBits(v, 32) == TopBits(v, 8) + TopBits(UpEight(v), 8)
                            + TopBits(UpEight(UpEight(v)), 8) + TopBits(UpEight(UpEight(UpEight(v))), 8)
  {
    var a := UpEight(v);
    var b := UpEight(a);
    TopByteSplit(v, 24);
    TopByteSplit(a, 16);
    TopByteSplit(b, 8);
    FourPieces(TopBits(v, 8), TopBits(a, 8), TopBits(b, 8), TopBits(UpEight(b), 8), TopBits(b, 16), TopBits(a, 24));
  }

  lemma TopByteSplit(v: bv32, n: nat)
    ensures TopBits(v, 8 + n) == TopBits(v, 8) + TopBits(UpEight(v), n)
  {
    DoubleEight(v);
    TopBitsSplit(v, 8, n);
  }

  lemma FourPieces<T>(a: seq<T>, b: seq<T>, c: seq<T>, d: seq<T>, cd: seq<T>, bcd: seq<T>)
    requires cd == c + d && bcd == b + cd
    ensures a + bcd == a + b + c + d
  {
  }

  lemma WordBytesBits(v: bv32)
    ensures TopBits(v, 32) == TopBits(OnTop(Byte3(v)), 8) + TopBits(OnTop(Byte2(v)), 8)
                            + TopBits(OnTop(Byte1(v)), 8) + TopBits(OnTop(Byte0(v)), 8)
  {
    WordBitsSplit(v);
    ShiftedBytes(v);
    TopByteBits(v);
    TopByteBits(UpEight(v));
    TopByteBits(UpEight(UpEight(v)));
    TopByteBits(UpEight(UpEight(UpEight(v))));
  }

  lemma TrailerBits(t: seq<byte>)
    requires |t| == 4
    ensures BitsOf(t) == TopBits(CrcWord(t), 32)
  {
    FlattenFour(BitsOfByte, t);
    CrcWordBytes(t);
    WordBytesBits(CrcWord(t));
  }

  /** validate_crc accepts a block exactly when the checksum over all of it, trailer included, is zero. */
  lemma AcceptsIsZeroResidue(block: seq<byte>)
    requires |block| >= 4
    ensures Accepts(block) <==> Checksum(block) == 0
  {
    var data, trailer := block[..|block| - 4], block[|block| - 4..];
    var c := Checksum(data);
    assert block == data + trailer;
    FoldConcat(Update, INITIAL, data, trailer);
    UpdatesFeedBits(c, trailer);
    TrailerBits(trailer);
    ZeroExactlyOnOwnBits(c, BitsOf(trailer));
    if BitsOf(trailer) == TopBits(c, 32) {
      WordBitsDetermine(CrcWord(trailer), c);
    }
  }

  /** A sealed block is accepted, and for given data no other trailer is. */
  lemma AcceptsExactlySealed(block: seq<byte>)
    requires |block| >= 4
    ensures Accepts(block) <==> block == Sealed(block[..|block| - 4])
  {
    var data, trailer := block[..|block| - 4], block[|block| - 4..];
    assert block == data + trailer;
    CrcBytesOfWord(trailer);
    WordOfCrcBytes(Checksum(data));
    if block == Sealed(data) {
      assert trailer == Sealed(data)[|data|..] == CrcBytes(Checksum(data));
    }
  }

  // ---- Bursts ----

  /** The two blocks' bits agree outside the 32 bits from position i. */
  ghost predicate BurstAt(a: seq<byte>, b: seq<byte>, i: nat)
    requires |a| == |b|
  {
    BitsLength(a);
    BitsLength(b);
    forall k | 0 <= k < 8 * |a| && (k < i || i + 32 <= k) :: BitsOf(a)[k] == BitsOf(b)[k]
  }

  lemma WindowBetween(s: bv32, p: seq<bool>, v: seq<bool>, w: seq<bool>, q: seq<bool>)
    requires |v| == |w| <= 32
    requires Fold(FeedBit, s, p + (v + q)) == Fold(FeedBit, s, p + (w + q))
    ensures v == w
  {
    var t := Fold(FeedBit, s, p);
    FoldConcat(FeedBit, s, p, v + q);
    FoldConcat(FeedBit, s, p, w + q);
    FoldConcat(FeedBit, t, v, q);
    FoldConcat(FeedBit, t, w, q);
    StateInjective(Fold(FeedBit, t, v), Fold(FeedBit, t, w), q);
    WindowInjective(t, v, w);
  }

  /** Equal checksums and a difference confined to 32 consecutive bits: no difference at all. */
  lemma BurstChangesChecksum(a: seq<byte>, b: seq<byte>, i: nat)
    requires |a| == |b| && BurstAt(a, b, i)
    requires Checksum(a) == Checksum(b)
    ensures a == b
  {
    BitsLength(a);
    BitsLength(b);
    var p, v, w, q := SplitWindow(BitsOf(a), BitsOf(b), i, 32);
    ChecksumIsRegister(a);
    ChecksumIsRegister(b);
    WindowBetween(INITIAL, p, v, w, q);
    BitsDetermine(a, b);
  }

  /** A block that differs from an accepted one only inside 32 consecutive bits is rejected. */
  lemma BurstDetected(a: seq<byte>, b: seq<byte>, i: nat)
    requires |a| == |b| >= 4 && a != b && BurstAt(a, b, i)
    requires Accepts(a)
    ensures !Accepts(b)
  {
    AcceptsIsZeroResidue(a);
    AcceptsIsZeroResidue(b);
    if Accepts(b) {
      BurstChangesChecksum(a, b, i);
    }
  }

  lemma {:induction false} BitsOfConcat(a: seq<byte>, b: seq<byte>)
    ensures BitsOf(a + b) == BitsOf(a) + BitsOf(b)
  {
    if a == [] {
      assert a + b == b;
    } else {
      assert (a + b)[0] == a[0] && (a + b)[1..] == a[1..] + b;
      BitsOfConcat(a[1..], b);
    }
  }

  lemma SameAround<T>(p: seq<T>, v: seq<T>, w: seq<T>, q: seq<T>, k: nat)
    requires |v| == |w| && k < |p| + |v| + |q| && (k < |p| || |p| + |v| <= k)
    ensures (p + (v + q))[k] == (p + (w + q))[k]
  {
  }

  lemma BytesAround(p: seq<byte>, v: seq<byte>, w: seq<byte>, q: seq<byte>)
    requires |v| == |w| <= 4
    ensures BurstAt(p + (v + q), p + (w + q), 8 * |p|)
  {
    BitsOfConcat(p, v + q);
    BitsOfConcat(p, w + q);
    BitsOfConcat(v, q);
    BitsOfConcat(w, q);
    BitsLength(p);
    BitsLength(v);
    BitsLength(w);
    BitsLength(q);
    BitsLength(p + (v + q));
    BitsLength(p + (w + q));
    forall k | 0 <= k < 8 * |p + (v + q)| && (k < 8 * |p| || 8 * |p| + 32 <= k)
      ensures BitsOf(p + (v + q))[k] == BitsOf(p + (w + q))[k]
    {
      SameAround(BitsOf(p), BitsOf(v), BitsOf(w), BitsOf(q), k);
    }
  }

  lemma PiecesDetected(p: seq<byte>, v: seq<byte>, w: seq<byte>, q: seq<byte>)
    requires |v| == |w| <= 4 && v != w && |p| + |v| + |q| >= 4
    requires Accepts(p + (v + q))
    ensures !Accepts(p + (w + q))
  {
    BytesAround(p, v, w, q);
    assert (p + (v + q))[|p|..][..|v|] == v && (p + (w + q))[|p|..][..|v|] == w;
    BurstDetected(p + (v + q), p + (w + q), 8 * |p|);
  }

  /** In particular: four consecutive bytes, wherever they lie, trailer included. */
  lemma ByteBurstDetected(a: seq<byte>, b: seq<byte>, p: nat)
    requires |a| == |b| >= 4 && a != b
    requires forall k | 0 <= k < |a| && (k < p || p + 4 <= k) :: a[k] == b[k]
    requires Accepts(a)
    ensures !Accepts(b)
  {
    var before, v, w, after := SplitWindow(a, b, p, 4);
    PiecesDetected(before, v, w, after);
  }

  /** 32 bits is the limit: these two accepted blocks differ inside 33 consecutive bits. */
  lemma LongerBurstsCanPass()
    ensures Accepts([0x00, 0x4e, 0x08, 0xbf, 0xb4])
    ensures Accepts([0x01, 0x4a, 0xc9, 0xa2, 0x03])
  {
    FoldOne(Update, INITIAL, 0x00);
    FoldOne(Update, INITIAL, 0x01);
    assert Widen(0x00) == 0x00 && Widen(0x01) == 0x01;
    assert Index(INITIAL, 0x00) == 0xff && Index(INITIAL, 0x01) == 0xfe;
    assert LowByte(0xff) == 255 && LowByte(0xfe) == 254;
    assert TableEntry(255) == 0xb1f740b4 && TableEntry(254) == 0xb5365d03;
    assert Update(INITIAL, 0x00) == 0x4e08bfb4;
    assert Update(INITIAL, 0x01) == 0x4ac9a203;
    var a, b := [0x00, 0x4e, 0x08, 0xbf, 0xb4], [0x01, 0x4a, 0xc9, 0xa2, 0x03];
    assert a[..1] == [0x00] && a[1..] == [0x4e, 0x08, 0xbf, 0xb4];
    assert b[..1] == [0x01] && b[1..] == [0x4a, 0xc9, 0xa2, 0x03];
    assert CrcWord(a[1..]) == 0x4e08bfb4;
    assert CrcWord(b[1..]) == 0x4ac9a203;
  }
}
