/** Fixed-width unsigned values and their big-endian byte sequences. */
module Bytes {

  datatype Option<+T> = None | Some(value: T)

  type byte = b: int | 0 <= b < 0x100
  type u16 = v: int | 0 <= v < 0x1_0000
  type u32 = v: int | 0 <= v < 0x1_0000_0000

  function Pow256(n: nat): (r: nat)
    ensures r > 0
  {
    if n == 0 then 1 else 256 * Pow256(n - 1)
  }

  /** The n low bytes of v, most significant first. */
  function BigEndian(v: nat, n: nat): (s: seq<byte>)
    ensures |s| == n
  {
    if n == 0 then [] else BigEndian(v / 256, n - 1) + [v % 256]
  }

  /** The number a byte sequence denotes, most significant byte first. */
  function Value(s: seq<byte>): nat {
    if s == [] then 0 else 256 * Value(s[..|s| - 1]) + (s[|s| - 1] as int)
  }

  lemma {:induction false} ValueBound(s: seq<byte>)
    ensures Value(s) < Pow256(|s|)
  {
    if s != [] {
      ValueBound(s[..|s| - 1]);
    }
  }

  lemma {:induction false} ValueOfBigEndian(v: nat, n: nat)
    requires v < Pow256(n)
    ensures Value(BigEndian(v, n)) == v
  {
    if n > 0 {
      ValueOfBigEndian(v / 256, n - 1);
      assert BigEndian(v, n)[..n - 1] == BigEndian(v / 256, n - 1);
    }
  }

  lemma {:induction false} BigEndianOfValue(s: seq<byte>)
    ensures BigEndian(Value(s), |s|) == s
  {
    if s != [] {
      BigEndianOfValue(s[..|s| - 1]);
      assert s == s[..|s| - 1] + [s[|s| - 1]];
    }
  }

  /** The two- and four-byte forms the codec writes out by hand. */
  function Be16(v: u16): (s: seq<byte>)
    ensures |s| == 2
  {
    [v / 0x100, v % 0x100]
  }

  function Be32(v: u32): (s: seq<byte>)
    ensures |s| == 4
  {
    var w := v / 0x100;
    var x := w / 0x100;
    [x / 0x100, x % 0x100, w % 0x100, v % 0x100]
  }

  function U16(s: seq<byte>): u16
    requires |s| >= 2
  {
    0x100 * (s[0] as int) + s[1]
  }

  function U32(s: seq<byte>): u32
    requires |s| >= 4
  {
    0x100 * (0x100 * (0x100 * (s[0] as int) + s[1]) + s[2]) + s[3]
  }

  lemma UnrolledForms(v: u16, w: u32)
    ensures Be16(v) == BigEndian(v, 2)
    ensures Be32(w) == BigEndian(w, 4)
  {
    assert forall x: nat :: BigEndian(x, 1) == BigEndian(x / 256, 0) + [x % 256] == [x % 256];
    var x, y := w / 256, w / 256 / 256;
    assert BigEndian(y, 2) == [y / 256 % 256] + [y % 256];
    assert BigEndian(x, 3) == BigEndian(y, 2) + [x % 256];
  }

  lemma UnrolledValues(s: seq<byte>)
    ensures |s| == 2 ==> Value(s) == U16(s)
    ensures |s| == 4 ==> Value(s) == U32(s)
  {
    if |s| == 2 {
      assert s[..1][..0] == [];
      assert Value(s[..1]) == 256 * Value([]) + s[0];
    } else if |s| == 4 {
      assert s[..3][..2] == s[..2] && s[..2][..1] == s[..1] && s[..1][..0] == [];
      assert Value(s[..1]) == 256 * Value([]) + s[0];
      assert Value(s[..2]) == 256 * Value(s[..1]) + s[1];
      assert Value(s[..3]) == 256 * Value(s[..2]) + s[2];
    }
  }

  lemma Be16RoundTrip(v: u16, rest: seq<byte>)
    ensures U16(Be16(v) + rest) == v
  {
  }

  lemma Be32RoundTrip(v: u32, rest: seq<byte>)
    ensures U32(Be32(v) + rest) == v
  {
  }
}
