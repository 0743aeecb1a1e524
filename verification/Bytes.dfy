/** Bytes, fixed-width unsigned integers and big-endian layout, as `bytes::{Buf, BufMut}` uses them. */
module Bytes {
  newtype Byte = b: int | 0 <= b < 0x100
  type U16 = n: int | 0 <= n < 0x1_0000
  type U64 = n: int | 0 <= n < 0x1_0000_0000_0000_0000

  function Pow256(width: nat): (p: nat)
    ensures p > 0
  {
    if width == 0 then 1 else 256 * Pow256(width - 1)
  }

  /** The `width` low bytes of `value`, most significant first (`put_u16`, `put_u32`, `put_u64`). */
  function BigEndian(width: nat, value: nat): (s: seq<Byte>)
    ensures |s| == width
  {
    if width == 0 then [] else BigEndian(width - 1, value / 256) + [(value % 256) as Byte]
  }

  /** The value a big-endian field carries (`get_u16`, `get_u32`, `get_u64`). */
  function FromBigEndian(s: seq<Byte>): (value: nat)
    ensures value < Pow256(|s|)
  {
    if s == [] then 0 else 256 * FromBigEndian(s[..|s| - 1]) + s[|s| - 1] as nat
  }

  lemma {:induction false} ReadsBackWritten(width: nat, value: nat)
    requires value < Pow256(width)
    ensures FromBigEndian(BigEndian(width, value)) == value
  {
    if width > 0 {
      ReadsBackWritten(width - 1, value / 256);
      assert BigEndian(width, value)[..width - 1] == BigEndian(width - 1, value / 256);
    }
  }

  lemma {:induction false} WritesBackRead(s: seq<Byte>)
    ensures BigEndian(|s|, FromBigEndian(s)) == s
  {
    if s != [] {
      var init := s[..|s| - 1];
      WritesBackRead(init);
      assert FromBigEndian(s) / 256 == FromBigEndian(init);
      assert s == init + [s[|s| - 1]];
    }
  }

  /** One and two byte fields, byte by byte. */
  lemma FieldBytes(value: nat)
    ensures BigEndian(1, value) == [(value % 256) as Byte]
    ensures BigEndian(2, value) == [(value / 256 % 256) as Byte, (value % 256) as Byte]
  {
    var a := value / 256;
    assert BigEndian(0, a) == [] && BigEndian(0, a / 256) == [];
    assert BigEndian(1, a) == BigEndian(0, a / 256) + [(a % 256) as Byte];
  }

  lemma TwoByteValue(s: seq<Byte>)
    requires |s| == 2
    ensures FromBigEndian(s) == 256 * s[0] as nat + s[1] as nat
  {
    assert s[..1][..0] == [];
    assert FromBigEndian(s[..1]) == 256 * FromBigEndian(s[..1][..0]) + s[0] as nat;
  }

  /** A two-byte field and the number it carries determine each other. */
  lemma TwoBytes(value: U16, s: seq<Byte>)
    requires |s| == 2
    ensures s == BigEndian(2, value) <==> FromBigEndian(s) == value
  {
    assert Pow256(2) == 256 * Pow256(1);
    ReadsBackWritten(2, value);
    WritesBackRead(s);
  }

  lemma Regroup(a: int, p: int)
    ensures a * (256 * p) == 256 * (a * p)
  {
  }

  /** The leading byte fixes the value to within one multiple of its place value. */
  lemma {:induction false} LeadingByte(s: seq<Byte>)
    requires s != []
    ensures s[0] as int * Pow256(|s| - 1) <= FromBigEndian(s) < (1 + s[0] as int) * Pow256(|s| - 1)
  {
    if |s| == 1 {
      assert s[..0] == [];
    } else {
      var init := s[..|s| - 1];
      LeadingByte(init);
      var p, first := Pow256(|s| - 2), s[0] as int;
      Regroup(first, p);
      Regroup(1 + first, p);
    }
  }

  function Fill<T>(n: nat, x: T): (s: seq<T>)
    ensures |s| == n && forall i :: 0 <= i < n ==> s[i] == x
  {
    if n == 0 then [] else Fill(n - 1, x) + [x]
  }

  lemma Associates<T>(a: seq<T>, b: seq<T>, c: seq<T>)
    ensures (a + b) + c == a + (b + c)
  {
  }

  lemma Splits<T>(s: seq<T>, n: nat)
    requires n <= |s|
    ensures s == s[..n] + s[n..]
  {
  }

  lemma SplitsBefore<T>(s: seq<T>, n: nat, m: nat)
    requires n <= m <= |s|
    ensures s[..m] == s[..n] + s[n..m] && s[n..][..m - n] == s[n..m]
  {
  }

  lemma Parts<T>(a: seq<T>, b: seq<T>)
    ensures (a + b)[..|a|] == a && (a + b)[|a|..] == b
  {
  }

  lemma Sections<T>(a: seq<T>, b: seq<T>, c: seq<T>, d: seq<T>)
    ensures var s := a + b + (c + d); var m := |a| + |b|; var n := m + |c|;
      |s| == n + |d| && s[..|a|] == a && s[|a|..m] == b && s[m..n] == c && s[n..] == d
  {
  }

  lemma Behind<T>(s: seq<T>, low: nat, high: nat, n: nat, tail: seq<T>)
    requires low <= high <= |s| && n <= high - low && s[low..high][n..] == tail
    ensures s[low + n..high] == tail
  {
  }

  lemma TailGrows<T>(a: seq<T>, b: seq<T>, n: nat)
    requires n <= |a|
    ensures (a + b)[..n] == a[..n] && (a + b)[n..] == a[n..] + b
  {
  }
}
