/** The width-generic big-endian loops of pack_data.h. */
module PackData {
  import opened Bytes

  /** The byte a shift by (size - 1 - i) * 8 and a cast to one byte leave. */
  function ByteAt(src: nat, size: nat, i: nat): byte
    requires i < size
  {
    src / Pow256(size - 1 - i) % 0x100
  }

  lemma NonzeroMultiple(d: int, k: int)
    requires d > 0 && k != 0
    ensures d * k >= d || d * k <= -d
  {
  }

  lemma QuotientUnique(v: int, d: int, q: int, r: int)
    requires d > 0 && 0 <= r < d && v == d * q + r
    ensures v / d == q
  {
    var k := v / d - q;
    assert d * k == r - v % d;
    if k != 0 {
      NonzeroMultiple(d, k);
    }
  }

  lemma DivideTwice(v: nat, d: nat)
    requires d > 0
    ensures v / (256 * d) == v / 256 / d
  {
    var q, r := v / 256, v % 256;
    assert q == d * (q / d) + q % d;
    QuotientUnique(v, 256 * d, q / d, 256 * (q % d) + r);
  }

  lemma {:induction false} ByteAtIsBigEndian(src: nat, size: nat, i: nat)
    requires i < size
    ensures BigEndian(src, size)[i] == ByteAt(src, size, i)
  {
    if i == size - 1 {
      assert Pow256(0) == 1;
    } else {
      ByteAtIsBigEndian(src / 256, size - 1, i);
      DivideTwice(src, Pow256(size - 2 - i));
    }
  }

  method PackPrimitive(dst: array<byte>, size: nat, src: nat) returns (written: nat)
    requires src < Pow256(size) && dst.Length >= size
    modifies dst
    ensures written == size
    ensures dst[..] == BigEndian(src, size) + old(dst[size..])
  {
    for i := 0 to size
      invariant dst[..i] == BigEndian(src, size)[..i]
      invariant dst[size..] == old(dst[size..])
    {
      ByteAtIsBigEndian(src, size, i);
      dst[i] := ByteAt(src, size, i);
      assert dst[..i + 1] == dst[..i] + [dst[i]];
    }
    assert dst[..] == dst[..size] + dst[size..];
    return size;
  }

  lemma ShiftIn(src: seq<byte>, i: nat, size: nat)
    requires i < size <= |src|
    ensures Value(src[..i + 1]) == (256 * Value(src[..i]) + src[i]) % Pow256(size)
  {
    assert src[..i + 1][..i] == src[..i];
    ValueBound(src[..i + 1]);
    PowMonotone(i + 1, size);
    WordIsShifted(Value(src[..i + 1]), Pow256(size));
  }

  /** Each step shifts in one byte and keeps only what fits the type. */
  method ParsePrimitive(src: seq<byte>, size: nat) returns (read: nat, dst: nat)
    requires |src| >= size
    ensures read == size
    ensures dst == Value(src[..size])
  {
    dst := 0;
    for i := 0 to size
      invariant dst == Value(src[..i])
    {
      ShiftIn(src, i, size);
      dst := (256 * dst + src[i]) % Pow256(size);
    }
    return size, dst;
  }

  lemma {:induction false} PowMonotone(m: nat, n: nat)
    requires m <= n
    ensures Pow256(m) <= Pow256(n)
    decreases n
  {
    if m < n {
      PowMonotone(m, n - 1);
    }
  }

  /** Packing then parsing gives the value back, whatever the width. */
  method RoundTrip(buffer: array<byte>, size: nat, v: nat) returns (r: nat)
    requires v < Pow256(size) && buffer.Length >= size
    modifies buffer
    ensures r == v
  {
    var n := PackPrimitive(buffer, size, v);
    var m;
    m, r := ParsePrimitive(buffer[..], size);
    ValueOfBigEndian(v, size);
    assert buffer[..][..size] == BigEndian(v, size);
  }

  /** Two's complement: the signed reading of an n-byte word, and the word of a signed value. */
  function Signed(v: nat, n: nat): int
    requires n > 0 && v < Pow256(n)
  {
    if v < Pow256(n) / 2 then v else v - Pow256(n)
  }

  function Word(x: int, n: nat): (v: nat)
    requires n > 0 && -(Pow256(n) / 2) <= x < Pow256(n) / 2
    ensures v < Pow256(n)
  {
    x % Pow256(n)
  }

  lemma WordIsShifted(x: int, m: int)
    requires m > 0 && -m <= x < m
    ensures x % m == if x < 0 then (if x == -m then 0 else x + m) else x
  {
    if x < 0 {
      if x == -m {
        assert x == -1 * m + 0;
      } else {
        assert x == -1 * m + (x + m);
      }
    }
  }

  lemma SignedRoundTrip(x: int, n: nat)
    requires n > 0 && -(Pow256(n) / 2) <= x < Pow256(n) / 2
    ensures Signed(Word(x, n), n) == x
    ensures Value(BigEndian(Word(x, n), n)) == Word(x, n)
  {
    assert Pow256(n) == 256 * Pow256(n - 1);
    WordIsShifted(x, Pow256(n));
    ValueOfBigEndian(Word(x, n), n);
  }

  // ---- The signed packers ----

  /** The bytes that the shifts of a signed value and the casts to a byte leave: a shift rounds toward minus infinity. */
  function ShiftedShort(x: int): (s: seq<byte>)
    ensures |s| == 2
  {
    [x / 0x100 % 0x100, x % 0x100]
  }

  function ShiftedInt(x: int): (s: seq<byte>)
    ensures |s| == 4
  {
    [x / 0x100_0000 % 0x100, x / 0x1_0000 % 0x100, x / 0x100 % 0x100, x % 0x100]
  }

  lemma ByteOfSum(x: int, k: int, d: nat)
    requires d > 0
    ensures (x + 256 * d * k) / d % 256 == x / d % 256
  {
    var q, r := x / d, x % d;
    assert x + 256 * d * k == d * (q + 256 * k) + r;
    QuotientUnique(x + 256 * d * k, d, q + 256 * k, r);
    RemainderKeeps(q, k);
  }

  lemma RemainderKeeps(q: int, k: int)
    ensures (q + 256 * k) % 256 == q % 256
  {
  }

  /** The signed packers store the two's complement word, most significant byte first. */
  lemma SignedPackers(x: int, y: int)
    requires -0x8000 <= x < 0x8000 && -0x8000_0000 <= y < 0x8000_0000
    ensures Pow256(2) == 0x1_0000 && Pow256(4) == 0x1_0000_0000
    ensures ShiftedShort(x) == BigEndian(Word(x, 2), 2)
    ensures ShiftedInt(y) == BigEndian(Word(y, 4), 4)
  {
    ShortIsWord(x);
    IntIsWord(y);
  }

  /** And read as a number and then as a signed one, those bytes give the value back. */
  lemma SignedThroughBytes(x: int, y: int)
    requires -0x8000 <= x < 0x8000 && -0x8000_0000 <= y < 0x8000_0000
    ensures Value(ShiftedShort(x)) < Pow256(2) && Signed(Value(ShiftedShort(x)), 2) == x
    ensures Value(ShiftedInt(y)) < Pow256(4) && Signed(Value(ShiftedInt(y)), 4) == y
  {
    SignedPackers(x, y);
    SignedRoundTrip(x, 2);
    SignedRoundTrip(y, 4);
  }

  lemma Powers()
    ensures Pow256(1) == 0x100 && Pow256(2) == 0x1_0000 && Pow256(3) == 0x100_0000 && Pow256(4) == 0x1_0000_0000
  {
    assert Pow256(1) == 256 * Pow256(0);
    assert Pow256(3) == 256 * Pow256(2);
  }

  lemma ShortIsWord(x: int)
    requires -0x8000 <= x < 0x8000
    ensures Pow256(2) == 0x1_0000 && ShiftedShort(x) == BigEndian(Word(x, 2), 2)
  {
    Powers();
    WordIsShifted(x, Pow256(2));
    var k := if x < 0 then 1 else 0;
    assert Word(x, 2) == x + 0x1_0000 * k;
    ByteOfSum(x, k, 0x100);
    ByteOfSum(x, 0x100 * k, 1);
    UnrolledForms(Word(x, 2), 0);
  }

  lemma IntIsWord(y: int)
    requires -0x8000_0000 <= y < 0x8000_0000
    ensures Pow256(4) == 0x1_0000_0000 && ShiftedInt(y) == BigEndian(Word(y, 4), 4)
  {
    Powers();
    WordIsShifted(y, Pow256(4));
    var k, v := if y < 0 then 1 else 0, Word(y, 4);
    assert v == y + 0x1_0000_0000 * k;
    ByteOfSum(y, k, 0x100_0000);
    ByteOfSum(y, 0x100 * k, 0x1_0000);
    ByteOfSum(y, 0x1_0000 * k, 0x100);
    ByteOfSum(y, 0x100_0000 * k, 1);
    forall i | 0 <= i < 4 ensures BigEndian(v, 4)[i] == ShiftedInt(y)[i] {
      ByteAtIsBigEndian(v, 4, i);
    }
  }
}
