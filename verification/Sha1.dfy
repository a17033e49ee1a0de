/**
 SHA-1 as the WebSocket handshake computes it, against sections 4 to 6 of FIPS 180-4.
 Messages are shorter than 2^29 bytes: the code keeps their bit length in 32 bits.
 */
module Sha1 {
  type Octet = bv8
  type Word = bv32

  function Rol(x: Word, n: bv6): Word
    requires 0 < n < 32
  {
    (x << n) | (x >> (32 - n))
  }

  // Sums of words are modulo 2^32.
  function Add(x: Word, y: Word): Word { x + y }
  function Sum(r: Word, f: Word, e: Word, k: Word, w: Word): Word { r + f + e + k + w }

  // ---- section 4: functions and constants

  function Ch(x: Word, y: Word, z: Word): Word { (x & y) ^ (!x & z) }
  function Parity(x: Word, y: Word, z: Word): Word { x ^ y ^ z }
  function Maj(x: Word, y: Word, z: Word): Word { (x & y) ^ (x & z) ^ (y & z) }

  function F(t: nat, x: Word, y: Word, z: Word): Word {
    if t < 20 then Ch(x, y, z) else if t < 40 then Parity(x, y, z) else if t < 60 then Maj(x, y, z) else Parity(x, y, z)
  }

  function K(t: nat): Word {
    if t < 20 then 0x5a827999 else if t < 40 then 0x6ed9eba1 else if t < 60 then 0x8f1bbcdc else 0xca62c1d6
  }

  // ---- section 5: padding and the initial value

  function LowOctet(v: nat): Octet {
    (v % 256) as Octet
  }

  // The low n octets of a number, most significant first.
  function OctetsOf(v: nat, n: nat): (s: seq<Octet>)
    ensures |s| == n
    decreases n
  {
    if n == 0 then [] else OctetsOf(v / 256, n - 1) + [LowOctet(v)]
  }

  function ZeroOctets(n: nat): (s: seq<Octet>)
    ensures |s| == n
  {
    seq(n, _ => 0)
  }

  // The fewest zero octets that make room for the 64-bit length at the end of a block.
  function ZerosNeeded(length: nat): nat {
    (119 - length % 64) % 64
  }

  function Padded(m: seq<Octet>): seq<Octet> {
    m + [0x80] + ZeroOctets(ZerosNeeded(|m|)) + OctetsOf(8 * |m|, 8)
  }

  lemma PaddingIsLeast(length: nat, zeros: nat)
    requires (length + 1 + zeros + 8) % 64 == 0
    ensures ZerosNeeded(length) <= zeros && (length + 1 + ZerosNeeded(length) + 8) % 64 == 0
  {
  }

  datatype State = State(a: Word, b: Word, c: Word, d: Word, e: Word)

  const INITIAL := State(0x67452301, 0xefcdab89, 0x98badcfe, 0x10325476, 0xc3d2e1f0)

  // ---- section 6.1.2: the hash computation

  function BlockWord(block: seq<Octet>, t: nat): Word
    requires |block| == 64 && t < 16
  {
    (block[4 * t] as Word << 24) | (block[4 * t + 1] as Word << 16)
    | (block[4 * t + 2] as Word << 8) | block[4 * t + 3] as Word
  }

  function Schedule(block: seq<Octet>, t: nat): Word
    requires |block| == 64
  {
    if t < 16 then BlockWord(block, t)
    else Rol(Schedule(block, t - 3) ^ Schedule(block, t - 8) ^ Schedule(block, t - 14) ^ Schedule(block, t - 16), 1)
  }

  function Round(s: State, t: nat, w: Word): State {
    State(Sum(Rol(s.a, 5), F(t, s.b, s.c, s.d), s.e, K(t), w), s.a, Rol(s.b, 30), s.c, s.d)
  }

  function Rounds(s: State, block: seq<Octet>, t: nat): State
    requires |block| == 64
  {
    if t == 0 then s else Round(Rounds(s, block, t - 1), t - 1, Schedule(block, t - 1))
  }

  function Compressed(h: State, block: seq<Octet>): State
    requires |block| == 64
  {
    var s := Rounds(h, block, 80);
    State(Add(h.a, s.a), Add(h.b, s.b), Add(h.c, s.c), Add(h.d, s.d), Add(h.e, s.e))
  }

  // The hash value after the first n blocks.
  function Hashed(m: seq<Octet>, n: nat): State
    requires 64 * n <= |m|
  {
    if n == 0 then INITIAL else Compressed(Hashed(m, n - 1), m[64 * (n - 1)..64 * n])
  }

  function WordOctets(w: Word): (s: seq<Octet>)
    ensures |s| == 4
  {
    [((w >> 24) & 0xff) as Octet, ((w >> 16) & 0xff) as Octet, ((w >> 8) & 0xff) as Octet, (w & 0xff) as Octet]
  }

  function Digest(m: seq<Octet>): (d: seq<Octet>)
    ensures |d| == 20
  {
    var p := Padded(m);
    var h := Hashed(p, |p| / 64);
    WordOctets(h.a) + WordOctets(h.b) + WordOctets(h.c) + WordOctets(h.d) + WordOctets(h.e)
  }

  // ---- what the words mean

  /** Rotation, addition and the octet order, each on its own terms. */
  lemma WordsRotate(x: Word)
    ensures Rol(x, 1) == x.RotateLeft(1) && Rol(x, 5) == x.RotateLeft(5) && Rol(x, 30) == x.RotateRight(2)
  {}

  // Reckoned in 64 bits, where no carry is lost.
  lemma SumsWrap(x: Word, y: Word)
    ensures Add(x, y) as bv64 == (x as bv64 + y as bv64) % 0x1_0000_0000
  {}

  lemma FiveWrap(r: Word, f: Word, e: Word, k: Word, w: Word)
    ensures Sum(r, f, e, k, w) as bv64 ==
            (r as bv64 + f as bv64 + e as bv64 + k as bv64 + w as bv64) % 0x1_0000_0000
  {}

  // A word's octets are its digits to the base 256, and the block is read as it was written.
  lemma OctetsAreDigits(w: Word)
    ensures var o := WordOctets(w);
            w == o[0] as Word * 0x100_0000 + o[1] as Word * 0x1_0000 + o[2] as Word * 0x100 + o[3] as Word
  {}

  lemma BlockIsReadBack(block: seq<Octet>, t: nat)
    requires |block| == 64 && t < 16
    ensures WordOctets(BlockWord(block, t)) == block[4 * t..4 * t + 4]
  {
    WordReadBack(block[4 * t], block[4 * t + 1], block[4 * t + 2], block[4 * t + 3]);
  }

  lemma WordReadBack(a: Octet, b: Octet, c: Octet, d: Octet)
    ensures WordOctets((a as Word << 24) | (b as Word << 16) | (c as Word << 8) | d as Word) == [a, b, c, d]
  {}

  /** The constants are the square roots of 2, 3, 5 and 10 times 2^30, rounded down. */
  lemma ConstantsAreRoots(t: nat)
    requires t < 80
    ensures var n := if t < 20 then 2 else if t < 40 then 3 else if t < 60 then 5 else 10;
            var k := K(t) as nat;
            k * k <= n * 0x1000_0000_0000_0000 < (k + 1) * (k + 1)
  {}

  const ABC: seq<Octet> := [0x61, 0x62, 0x63]

  lemma ExampleOctets()
    ensures var b := Padded(ABC);
            && |b| == 64 && b[..4] == [0x61, 0x62, 0x63, 0x80] && b[60..] == [0, 0, 0, 0x18]
            && forall k :: 4 <= k < 60 ==> b[k] == 0
  {
    ShortLength(24);
    ShortOctets(24);
    assert ZerosNeeded(3) == 52 && LowOctet(24) == 0x18;
    hide OctetsOf, ZerosNeeded, LowOctet;
    assert Padded(ABC) == ABC + [0x80] + ZeroOctets(52) + (ZeroOctets(4) + [0, 0, 0, 0x18]);
  }

  lemma ShortOctets(v: nat)
    requires v < 256
    ensures OctetsOf(v, 4) == [0, 0, 0, LowOctet(v)]
  {
    hide LowOctet;
    OctetsOfZero(3);
    LastOctet(v, 3);
    hide OctetsOf;
    assert v / 256 == 0 && ZeroOctets(3) == [0, 0, 0];
  }

  lemma LastOctet(v: nat, n: nat)
    ensures OctetsOf(v, n + 1) == OctetsOf(v / 256, n) + [LowOctet(v)]
  {
    hide LowOctet;
  }

  lemma ExampleBlock()
    ensures |Padded(ABC)| == 64
    ensures BlockWord(Padded(ABC), 0) == 0x61626380 && BlockWord(Padded(ABC), 15) == 0x18
    ensures forall t: nat :: 1 <= t < 15 ==> BlockWord(Padded(ABC), t) == 0
  {
    ExampleOctets();
    var b := Padded(ABC);
    hide Padded;
    assert b[0] == b[..4][0] && b[1] == b[..4][1] && b[2] == b[..4][2] && b[3] == b[..4][3];
    assert b[60] == b[60..][0] && b[61] == b[60..][1] && b[62] == b[60..][2] && b[63] == b[60..][3];
  }

  lemma DerivedWord(b: seq<Octet>, t: nat, x: Word)
    requires |b| == 64 && t >= 16
    requires Schedule(b, t - 3) ^ Schedule(b, t - 8) ^ Schedule(b, t - 14) ^ Schedule(b, t - 16) == x
    ensures Schedule(b, t) == Rol(x, 1)
  {
    hide Rol;
    ScheduleStep(b, t);
  }

  /** The message "abc" and words derived from it, as the standard's published example lists them. */
  lemma ExampleSchedule()
    ensures |Padded(ABC)| == 64
    ensures Schedule(Padded(ABC), 0) == 0x61626380 && Schedule(Padded(ABC), 15) == 0x18
    ensures Schedule(Padded(ABC), 16) == 0xc2c4c700 && Schedule(Padded(ABC), 18) == 0x30
    ensures Schedule(Padded(ABC), 23) == 0x30 && Schedule(Padded(ABC), 29) == 0xf0
  {
    ExampleBlock();
    var b := Padded(ABC);
    assert forall t: nat :: t < 16 ==> Schedule(b, t) == BlockWord(b, t);
    assert Rol(0, 1) == 0 && Rol(0x61626380, 1) == 0xc2c4c700;
    assert Rol(0x18, 1) == 0x30 && Rol(0x30, 1) == 0x60 && Rol(0x78, 1) == 0xf0;
    hide BlockWord, Padded, Schedule, Rol;
    DerivedWord(b, 16, 0x61626380);
    DerivedWord(b, 17, 0);
    DerivedWord(b, 18, 0x18);
    DerivedWord(b, 20, 0);
    DerivedWord(b, 21, 0x30);
    DerivedWord(b, 23, 0x18);
    DerivedWord(b, 26, 0);
    DerivedWord(b, 29, 0x78);
  }

  function FiveRounds(s: State, t: nat, w: seq<Word>): State
    requires |w| == 5
  {
    Round(Round(Round(Round(Round(s, t, w[0]), t + 1, w[1]), t + 2, w[2]), t + 3, w[3]), t + 4, w[4])
  }

  /** Rounds of each kind on the message "abc", as the standard's published example lists them. */
  lemma ExampleRounds()
    ensures FiveRounds(INITIAL, 0, [0x61626380, 0x00000000, 0x00000000, 0x00000000, 0x00000000]) ==
            State(0xcfd499de, 0xcdd8e11b, 0x284e43c2, 0x626414db, 0xc045bf0c)
    ensures FiveRounds(State(0xfd9e1d7d, 0xdc64901d, 0x20aa99ca, 0xd3a49608, 0xc82f758b),
                       20, [0x00000000, 0x00000060, 0x0b131c03, 0x00000030, 0x85898ec1]) ==
            State(0xc7567dc6, 0xd541f12d, 0x884a0d21, 0x0ce88eff, 0x868dec32)
    ensures FiveRounds(State(0x32de1cba, 0x4c986405, 0xf718e5cf, 0x03d447f6, 0xf72eec32),
                       40, [0xd2e138c4, 0x00000f00, 0x3afb5079, 0x898e04e5, 0xe2ba3c2b]) ==
            State(0x40f28e09, 0xee1b1aaf, 0x5fc64f71, 0x25c28357, 0xff21f7b7)
    ensures FiveRounds(State(0x3f52de5a, 0x09d785fd, 0x3498bfd4, 0xf211824f, 0xd79915ab),
                       60, [0x7ba06619, 0x6380aea2, 0x0ae55269, 0x627b49a1, 0x7cd45c9d]) ==
            State(0x19dfa7ac, 0x6b61c9e1, 0xed9b0082, 0x9523272c, 0xf5d5b051)
  {}

  // ---- what the code writes differently

  function ChOr(x: Word, y: Word, z: Word): Word { (x & y) | (!x & z) }
  function MajOr(x: Word, y: Word, z: Word): Word { (x & y) | (x & z) | (y & z) }

  lemma OrFormOfCh(x: Word, y: Word, z: Word)
    ensures ChOr(x, y, z) == Ch(x, y, z)
  {
    ChBits(x, y, z);
  }

  lemma ChBits(x: Word, y: Word, z: Word)
    ensures (x & y) | (!x & z) == (x & y) ^ (!x & z)
  {
  }

  lemma OrFormOfMaj(x: Word, y: Word, z: Word)
    ensures MajOr(x, y, z) == Maj(x, y, z)
  {
    MajBits(x, y, z);
  }

  lemma MajBits(x: Word, y: Word, z: Word)
    ensures (x & y) | (x & z) | (y & z) == (x & y) ^ (x & z) ^ (y & z)
  {
  }

  // The order in which the code adds the five terms of a round.
  function CodeSum(f: Word, k: Word, r: Word, e: Word, w: Word): Word { (f + k) + (r + e + w) }

  lemma SumInAnyOrder(r: Word, f: Word, e: Word, k: Word, w: Word)
    ensures CodeSum(f, k, r, e, w) == Sum(r, f, e, k, w)
  {
    SumBits(r, f, e, k, w);
  }

  lemma SumBits(r: Word, f: Word, e: Word, k: Word, w: Word)
    ensures (f + k) + (r + e + w) == r + f + e + k + w
  {
  }

  // The block that the code assembles at offset i.
  function Assembled(m: seq<Octet>, i: nat): (b: seq<Octet>)
    ensures |b| == 64
  {
    Filled(m, 0x80, 0, OctetsOf(8 * |m|, 4), i)
  }

  lemma {:induction false} OctetsOfZero(n: nat)
    ensures OctetsOf(0, n) == ZeroOctets(n)
  {
    if n > 0 {
      OctetsOfZero(n - 1);
    }
  }

  // The high half of the length is zero, so the code need not write it.
  lemma ShortLength(v: nat)
    requires v < 0x1_0000_0000
    ensures OctetsOf(v, 8) == ZeroOctets(4) + OctetsOf(v, 4)
  {
    hide LowOctet;
    var v1, v2, v3, v4 := v / 256, v / 256 / 256, v / 256 / 256 / 256, v / 256 / 256 / 256 / 256;
    assert v4 == 0;
    OctetsOfZero(4);
    assert OctetsOf(v3, 5) == OctetsOf(v4, 4) + [LowOctet(v3)];
    assert OctetsOf(v3, 1) == OctetsOf(v4, 0) + [LowOctet(v3)];
    assert OctetsOf(v2, 6) == OctetsOf(v3, 5) + [LowOctet(v2)];
    assert OctetsOf(v2, 2) == OctetsOf(v3, 1) + [LowOctet(v2)];
    assert OctetsOf(v1, 7) == OctetsOf(v2, 6) + [LowOctet(v1)];
    assert OctetsOf(v1, 3) == OctetsOf(v2, 2) + [LowOctet(v1)];
    assert OctetsOf(v, 8) == OctetsOf(v1, 7) + [LowOctet(v)];
    assert OctetsOf(v, 4) == OctetsOf(v1, 3) + [LowOctet(v)];
  }

  /** The loop's range covers the padded message exactly. */
  lemma LoopCoversPadded(m: seq<Octet>, i: nat)
    requires i % 64 == 0
    ensures |Padded(m)| % 64 == 0
    ensures i < |m| + 9 <==> i + 64 <= |Padded(m)|
    ensures i >= |m| + 9 <==> i >= |Padded(m)|
  {
    hide ZerosNeeded, OctetsOf;
    PaddingRange(|m|);
    Multiples(|m|, ZerosNeeded(|m|), i);
    assert |Padded(m)| == |m| + 9 + ZerosNeeded(|m|);
  }

  lemma Multiples(length: nat, zeros: nat, i: nat)
    requires zeros < 64 && (length + 9 + zeros) % 64 == 0 && i % 64 == 0
    ensures i < length + 9 <==> i + 64 <= length + 9 + zeros
    ensures i >= length + 9 <==> i >= length + 9 + zeros
    ensures i < length + 9 ==> (length - i < 56 <==> i + 64 == length + 9 + zeros)
    ensures i < length + 9 && length - i >= 56 ==> i + 128 <= length + 9 + zeros
  {
    var blocks, k := (length + 9 + zeros) / 64, i / 64;
    assert length + 9 + zeros == 64 * blocks && i == 64 * k;
  }

  lemma PaddingRange(length: nat)
    ensures ZerosNeeded(length) < 64 && (length + 9 + ZerosNeeded(length)) % 64 == 0
  {
  }

  // The two layouts on octets of any kind: a message, a stop octet, zeros, and the length at the end.
  function Laid<T>(m: seq<T>, stop: T, zero: T, zeros: nat, length: seq<T>): seq<T> {
    m + [stop] + seq(zeros, _ => zero) + length
  }

  function Filled<T>(m: seq<T>, stop: T, zero: T, length: seq<T>, i: nat): (b: seq<T>)
    requires |length| == 4
    ensures |b| == 64
  {
    var remaining := |m| - i;
    var filled :=
      if remaining >= 64 then m[i..i + 64]
      else if remaining >= 0 then m[i..] + [stop] + seq(63 - remaining, _ => zero)
      else seq(64, _ => zero);
    if remaining < 56 then filled[..60] + length else filled
  }

  lemma FilledIsLaid<T>(m: seq<T>, stop: T, zero: T, zeros: nat, length: seq<T>, i: nat)
    requires |length| == 4 && i < |m| + 9
    requires |m| - i < 56 <==> i + 64 == |m| + 5 + zeros
    requires i + 64 <= |m| + 5 + zeros
    requires |m| - i >= 56 ==> i + 64 <= |m| + 1 + zeros
    ensures Laid(m, stop, zero, zeros, length)[i..i + 64] == Filled(m, stop, zero, length, i)
  {
    var p, b, end := Laid(m, stop, zero, zeros, length), Filled(m, stop, zero, length, i), |m| + 1 + zeros;
    assert forall x :: 0 <= x < |p| ==>
      p[x] == if x < |m| then m[x] else if x == |m| then stop else if x < end then zero else length[x - end];
    assert forall k :: 0 <= k < 64 ==>
      b[k] == if |m| - i < 56 && k >= 60 then length[k - 60]
              else if i + k < |m| then m[i + k] else if i + k == |m| then stop else zero;
  }

  /** In every residue case, the assembled block is the padded message's. */
  lemma BlockIsPadded(m: seq<Octet>, i: nat)
    requires i % 64 == 0 && i < |m| + 9 && |m| < 0x2000_0000
    ensures i + 64 <= |Padded(m)| && Padded(m)[i..i + 64] == Assembled(m, i)
  {
    LastBlock(|m|, i);
    PaddedIsLaid(m);
    FilledIsLaid(m, 0x80, 0, ZerosNeeded(|m|) + 4, OctetsOf(8 * |m|, 4), i);
    hide Padded, OctetsOf, ZerosNeeded, Laid, Filled;
  }

  lemma PaddedIsLaid(m: seq<Octet>)
    requires |m| < 0x2000_0000
    ensures Padded(m) == Laid(m, 0x80, 0, ZerosNeeded(|m|) + 4, OctetsOf(8 * |m|, 4))
    ensures |Padded(m)| == |m| + 9 + ZerosNeeded(|m|)
  {
    ShortLength(8 * |m|);
    hide OctetsOf, ZerosNeeded;
  }

  // The block is the last one exactly when the length fits behind the message in it.
  lemma LastBlock(length: nat, i: nat)
    requires i % 64 == 0 && i < length + 9
    ensures length - i < 56 <==> i + 64 == length + 9 + ZerosNeeded(length)
    ensures i + 64 <= length + 9 + ZerosNeeded(length)
    ensures length - i >= 56 ==> i + 128 <= length + 9 + ZerosNeeded(length)
  {
    hide ZerosNeeded;
    PaddingRange(length);
    Multiples(length, ZerosNeeded(length), i);
  }

  method AssembleBlock(m: seq<Octet>, i: nat, buf: array<Octet>)
    requires buf.Length == 64 && i < |m| + 9
    modifies buf
    ensures buf[..] == Assembled(m, i)
  {
    hide OctetsOf;
    var remaining := |m| - i;
    if remaining >= 64 {
      forall k | 0 <= k < 64 {
        buf[k] := m[i + k];
      }
    } else if remaining >= 0 {
      forall k | 0 <= k < 64 {
        buf[k] := if k < remaining then m[i + k] else 0;
      }
      buf[remaining] := 0x80;
    } else {
      forall k | 0 <= k < 64 {
        buf[k] := 0;
      }
    }
    if remaining < 56 {
      var length := OctetsOf(8 * |m|, 4);
      forall k | 0 <= k < 4 {
        buf[60 + k] := length[k];
      }
    }
    assert forall k :: 0 <= k < 64 ==> buf[k] == Assembled(m, i)[k];
  }

  method BuildSchedule(buf: array<Octet>, w: array<Word>)
    requires buf.Length == 64 && w.Length == 80
    modifies w
    ensures forall t :: 0 <= t < 80 ==> w[t] == Schedule(buf[..], t)
  {
    hide BlockWord, Rol, Schedule;
    var j := 0;
    while j < 16
      invariant 0 <= j <= 16
      invariant forall t :: 0 <= t < j ==> w[t] == Schedule(buf[..], t)
    {
      ScheduleStep(buf[..], j);
      w[j] := BlockWord(buf[..], j);
      j := j + 1;
    }
    while j < 80
      invariant 16 <= j <= 80
      invariant forall t :: 0 <= t < j ==> w[t] == Schedule(buf[..], t)
    {
      ScheduleStep(buf[..], j);
      w[j] := Rol(w[j - 3] ^ w[j - 8] ^ w[j - 14] ^ w[j - 16], 1);
      j := j + 1;
    }
  }

  lemma ScheduleStep(block: seq<Octet>, t: nat)
    requires |block| == 64
    ensures t < 16 ==> Schedule(block, t) == BlockWord(block, t)
    ensures t >= 16 ==>
      Schedule(block, t) ==
      Rol(Schedule(block, t - 3) ^ Schedule(block, t - 8) ^ Schedule(block, t - 14) ^ Schedule(block, t - 16), 1)
  {
    hide BlockWord, Rol;
  }

  lemma SameRound(s: State, t: nat, f: Word, w: Word)
    requires t < 80
    requires f == if t < 20 then ChOr(s.b, s.c, s.d)
                  else if 40 <= t < 60 then MajOr(s.b, s.c, s.d) else Parity(s.b, s.c, s.d)
    ensures State(CodeSum(f, K(t), Rol(s.a, 5), s.e, w), s.a, Rol(s.b, 30), s.c, s.d) == Round(s, t, w)
  {
    hide Rol, Sum, CodeSum, Ch, Maj, ChOr, MajOr, Parity, K;
    OrFormOfCh(s.b, s.c, s.d);
    OrFormOfMaj(s.b, s.c, s.d);
    SumInAnyOrder(Rol(s.a, 5), F(t, s.b, s.c, s.d), s.e, K(t), w);
  }

  method RunRounds(w: array<Word>, h: State, ghost block: seq<Octet>) returns (s: State)
    requires w.Length == 80 && |block| == 64
    requires forall t :: 0 <= t < 80 ==> w[t] == Schedule(block, t)
    ensures s == Rounds(h, block, 80)
  {
    hide Rol, CodeSum, Schedule, Round, ChOr, MajOr, Parity;
    var a, b, c, d, e := h.a, h.b, h.c, h.d, h.e;
    for j := 0 to 80
      invariant State(a, b, c, d, e) == Rounds(h, block, j)
    {
      ghost var before := State(a, b, c, d, e);
      var f, k;
      if j < 20 {
        f, k := ChOr(b, c, d), 0x5a827999;
      } else if j < 40 {
        f, k := Parity(b, c, d), 0x6ed9eba1;
      } else if j < 60 {
        f, k := MajOr(b, c, d), 0x8f1bbcdc;
      } else {
        f, k := Parity(b, c, d), 0xca62c1d6;
      }
      SameRound(before, j, f, w[j]);
      var temp := CodeSum(f, k, Rol(a, 5), e, w[j]);
      e := d;
      d := c;
      c := Rol(b, 30);
      b := a;
      a := temp;
    }
    s := State(a, b, c, d, e);
  }

  /** The digest of every message the 32-bit length can describe. */
  method Sha1(m: seq<Octet>) returns (digest: seq<Octet>)
    requires |m| < 0x2000_0000
    ensures digest == Digest(m)
  {
    hide Padded, Compressed, Assembled, Schedule, Rounds, Add, WordOctets;
    var h := INITIAL;
    var buf := new Octet[64];
    var w := new Word[80];
    var i := 0;
    ghost var p := Padded(m);
    while i < |m| + 9
      invariant i % 64 == 0 && 0 <= i <= |p|
      invariant h == Hashed(p, i / 64)
    {
      LoopCoversPadded(m, i);
      AssembleBlock(m, i, buf);
      BlockIsPadded(m, i);
      BuildSchedule(buf, w);
      var s := RunRounds(w, h, buf[..]);
      Compress(h, s, buf[..]);
      h := State(Add(h.a, s.a), Add(h.b, s.b), Add(h.c, s.c), Add(h.d, s.d), Add(h.e, s.e));
      NextBlock(p, i);
      i := i + 64;
    }
    LoopCoversPadded(m, i);
    digest := WordOctets(h.a) + WordOctets(h.b) + WordOctets(h.c) + WordOctets(h.d) + WordOctets(h.e);
  }

  lemma Compress(h: State, s: State, block: seq<Octet>)
    requires |block| == 64 && s == Rounds(h, block, 80)
    ensures State(Add(h.a, s.a), Add(h.b, s.b), Add(h.c, s.c), Add(h.d, s.d), Add(h.e, s.e)) == Compressed(h, block)
  {
    hide Rounds, Add;
  }

  lemma NextBlock(p: seq<Octet>, i: nat)
    requires i % 64 == 0 && i + 64 <= |p|
    ensures Hashed(p, (i + 64) / 64) == Compressed(Hashed(p, i / 64), p[i..i + 64])
  {
    hide Compressed;
    assert (i + 64) / 64 - 1 == i / 64;
  }
}
