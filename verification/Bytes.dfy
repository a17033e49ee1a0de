/** Bytes, fixed-width big-endian and host-order words, and four-byte padded strings. */
module Bytes {
  newtype Byte = x: int | 0 <= x < 256

  type uint32 = x: int | 0 <= x < 0x1_0000_0000
  type uint64 = x: int | 0 <= x < 0x1_0000_0000_0000_0000

  // A C++ conversion to a 32-bit unsigned type keeps the low 32 bits.
  function Low32(x: nat): uint32 {
    x % 0x1_0000_0000
  }

  // The low n bytes of v, most significant first.
  function BigEndian(v: nat, n: nat): (b: seq<Byte>)
    ensures |b| == n
    decreases v, n
  {
    if n == 0 then [] else BigEndian(v / 0x100, n - 1) + [(v % 0x100) as Byte]
  }

  function BE32(v: uint32): (b: seq<Byte>)
    ensures |b| == 4
  {
    BigEndian(v, 4)
  }

  // The order in which a little-endian host stores a uint32 through a pointer.
  function LE32(v: uint32): (b: seq<Byte>)
    ensures |b| == 4
  {
    Reverse(BE32(v))
  }

  function BE64(v: uint64): (b: seq<Byte>)
    ensures |b| == 8
  {
    BE32(v / 0x1_0000_0000) + BE32(v % 0x1_0000_0000)
  }

  function ToUInt32(m: seq<Byte>, p: nat): uint32
    requires p + 4 <= |m|
  {
    m[p] as int * 0x100_0000 + m[p + 1] as int * 0x1_0000 + m[p + 2] as int * 0x100 + m[p + 3] as int
  }

  function ToUInt64(m: seq<Byte>, p: nat): uint64
    requires p + 8 <= |m|
  {
    ToUInt32(m, p) * 0x1_0000_0000 + ToUInt32(m, p + 4)
  }

  function HostUInt32(m: seq<Byte>, p: nat): uint32
    requires p + 4 <= |m|
  {
    ToUInt32(Reverse(m[p..p + 4]), 0)
  }

  lemma ReadBE32(m: seq<Byte>, p: nat, v: uint32)
    requires p + 4 <= |m|
    requires m[p..p + 4] == BE32(v)
    ensures ToUInt32(m, p) == v
  {
    var b := m[p..p + 4];
    var b3, b2, b1 := BigEndian(v / 0x100, 3), BigEndian(v / 0x1_0000, 2), BigEndian(v / 0x100_0000, 1);
    assert b == b3 + [(v % 0x100) as Byte];
    assert b3 == b2 + [(v / 0x100 % 0x100) as Byte];
    assert b2 == b1 + [(v / 0x1_0000 % 0x100) as Byte];
    assert b1 == [(v / 0x100_0000) as Byte];
    assert m[p] == b[0] && m[p + 1] == b[1] && m[p + 2] == b[2] && m[p + 3] == b[3];
  }

  lemma ReadLE32(m: seq<Byte>, p: nat, v: uint32)
    requires p + 4 <= |m|
    requires m[p..p + 4] == LE32(v)
    ensures HostUInt32(m, p) == v
  {
    var b := Reverse(m[p..p + 4]);
    assert b == BE32(v) == b[0..4];
    ReadBE32(b, 0, v);
  }

  lemma ReadBE64(m: seq<Byte>, p: nat, v: uint64)
    requires p + 8 <= |m|
    requires m[p..p + 8] == BE64(v)
    ensures ToUInt64(m, p) == v
  {
    assert m[p..p + 4] == m[p..p + 8][..4] == BE32(v / 0x1_0000_0000);
    assert m[p + 4..p + 8] == m[p..p + 8][4..] == BE32(v % 0x1_0000_0000);
    ReadBE32(m, p, v / 0x1_0000_0000);
    ReadBE32(m, p + 4, v % 0x1_0000_0000);
  }

  function RoundUp4(n: nat): (r: nat)
    ensures n <= r < n + 4
  {
    (n + 3) / 4 * 4
  }

  lemma RoundUp4Multiple(n: nat)
    ensures RoundUp4(n) % 4 == 0
  {}

  // Sums of multiples of four.
  lemma Sum4(m: nat, n: nat)
    requires m % 4 == 0 && n % 4 == 0
    ensures (m + n) % 4 == 0
  {}

  function Zeros(n: nat): (z: seq<Byte>)
    ensures |z| == n
  {
    seq(n, _ => 0)
  }

  // A string as OSC writes it: at least one NUL, up to a multiple of four bytes.
  function Str4(s: seq<Byte>): (b: seq<Byte>)
    ensures |b| == RoundUp4(|s| + 1)
    ensures s <= b
  {
    s + Zeros(RoundUp4(|s| + 1) - |s|)
  }

  predicate NoNul(s: seq<Byte>) {
    0 !in s
  }

  function Reverse<T>(s: seq<T>): (r: seq<T>)
    ensures |r| == |s|
  {
    seq(|s|, i requires 0 <= i < |s| => s[|s| - 1 - i])
  }

  // Bytes b written over s from offset at.
  function Splice(s: seq<Byte>, at: nat, b: seq<Byte>): (r: seq<Byte>)
    requires at + |b| <= |s|
    ensures |r| == |s|
  {
    seq(|s|, i requires 0 <= i < |s| => if at <= i < at + |b| then b[i - at] else s[i])
  }

  lemma Assoc(a: seq<Byte>, b: seq<Byte>, c: seq<Byte>)
    ensures (a + b) + c == a + (b + c)
  {}

  lemma SplicePrefix(s: seq<Byte>, at: nat, b: seq<Byte>)
    requires at + |b| <= |s|
    ensures Splice(s, at, b)[..at] == s[..at]
    ensures Splice(s, at, b)[..at + |b|] == s[..at] + b
    ensures Splice(s, at, b)[at + |b|..] == s[at + |b|..]
  {}

  // Overwriting the middle part of a prefix.
  lemma Refill(s: seq<Byte>, n: nat, a: seq<Byte>, hole: seq<Byte>, b: seq<Byte>, filler: seq<Byte>)
    requires n <= |s| && s[..n] == a + hole + b
    requires |filler| == |hole|
    ensures s[|a|..|a| + |hole|] == hole
    ensures Splice(s, |a|, filler)[..n] == a + (filler + b)
  {
    assert s[|a|..|a| + |hole|] == s[..n][|a|..|a| + |hole|];
    assert s[..|a|] == s[..n][..|a|] == a;
    assert s[|a| + |hole|..n] == s[..n][|a| + |hole|..] == b;
  }

  // A host-order word standing between a and b.
  lemma ReadLink(s: seq<Byte>, n: nat, a: seq<Byte>, v: uint32, b: seq<Byte>)
    requires n <= |s| && s[..n] == a + LE32(v) + b
    ensures HostUInt32(s, |a|) == v
  {
    Refill(s, n, a, LE32(v), b, LE32(v));
    ReadLE32(s, |a|, v);
  }

  lemma SpliceTwice(s: seq<Byte>, at: nat, a: seq<Byte>, b: seq<Byte>)
    requires at + |a| + |b| <= |s|
    ensures Splice(Splice(s, at, a), at + |a|, b) == Splice(s, at, a + b)
  {}
}
