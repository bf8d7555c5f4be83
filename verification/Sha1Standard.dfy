/** SHA-1 as FIPS 180-4 defines it: sections 4.1.1, 4.2.1, 5.1.1, 5.3.1 and 6.1.2. */
module Sha1Standard {
  import opened BigEndianBytes

  datatype Hash = Hash(a: bv32, b: bv32, c: bv32, d: bv32, e: bv32)

  /** Section 5.3.1. */
  const INITIAL: Hash := Hash(0x67452301, 0xEFCDAB89, 0x98BADCFE, 0x10325476, 0xC3D2E1F0)

  function RotL1(x: bv32): bv32 {
    (x << 1) | (x >> 31)
  }

  function RotL5(x: bv32): bv32 {
    (x << 5) | (x >> 27)
  }

  function RotL30(x: bv32): bv32 {
    (x << 30) | (x >> 2)
  }

  /** Section 4.1.1. */
  function F(t: nat, x: bv32, y: bv32, z: bv32): bv32 {
    if t < 20 then (x & y) ^ (!x & z)
    else if t < 40 then x ^ y ^ z
    else if t < 60 then (x & y) ^ (x & z) ^ (y & z)
    else x ^ y ^ z
  }

  /** Section 4.2.1. */
  function K(t: nat): bv32 {
    if t < 20 then 0x5A827999 else if t < 40 then 0x6ED9EBA1 else if t < 60 then 0x8F1BBCDC else 0xCA62C1D6
  }

  function Xor4(a: bv32, b: bv32, c: bv32, d: bv32): bv32 {
    a ^ b ^ c ^ d
  }

  /** The word that follows the words w of the message schedule. */
  function NextWord(block: seq<bv8>, w: seq<bv32>): bv32
    requires |block| == 64
  {
    var t := |w|;
    if t < 16 then BigEndian(block[4 * t], block[4 * t + 1], block[4 * t + 2], block[4 * t + 3])
    else RotL1(Xor4(w[t - 3], w[t - 8], w[t - 14], w[t - 16]))
  }

  /** The first n words of the message schedule of a block. */
  function Schedule(block: seq<bv8>, n: nat): (w: seq<bv32>)
    requires |block| == 64
    ensures |w| == n
  {
    if n == 0 then []
    else
      var w := Schedule(block, n - 1);
      w + [NextWord(block, w)]
  }

  lemma {:induction false} ScheduleAt(block: seq<bv8>, n: nat, t: nat)
    requires |block| == 64 && t < n
    ensures Schedule(block, n)[..t] == Schedule(block, t)
    ensures Schedule(block, n)[t] == NextWord(block, Schedule(block, t))
  {
    hide NextWord;
    var w := Schedule(block, n - 1);
    assert (w + [NextWord(block, w)])[..n - 1] == w;
    if t < n - 1 {
      ScheduleAt(block, n - 1, t);
      assert Schedule(block, n)[..t] == w[..t];
    }
  }

  /** Section 6.1.2: the first sixteen words are the block's, each later one mixes four earlier ones. */
  lemma ScheduleIsStandard(block: seq<bv8>, t: nat)
    requires |block| == 64 && t < 80
    ensures var w := Schedule(block, 80);
      && (t < 16 ==>
            w[t] as nat == block[4 * t] as nat * 0x100_0000 + block[4 * t + 1] as nat * 0x1_0000
                           + block[4 * t + 2] as nat * 0x100 + block[4 * t + 3] as nat)
      && (t >= 16 ==> w[t] == RotL1(w[t - 3] ^ w[t - 8] ^ w[t - 14] ^ w[t - 16]))
  {
    hide BigEndian, RotL1, Schedule;
    var w, before := Schedule(block, 80), Schedule(block, t);
    ScheduleAt(block, 80, t);
    if t < 16 {
      BigEndianIsNumber(block[4 * t], block[4 * t + 1], block[4 * t + 2], block[4 * t + 3]);
    } else {
      assert w[..t][t - 3] == before[t - 3] && w[..t][t - 8] == before[t - 8];
      assert w[..t][t - 14] == before[t - 14] && w[..t][t - 16] == before[t - 16];
    }
  }

  function Sum(x: bv32, y: bv32): bv32 {
    x + y
  }

  function Sum5(a: bv32, b: bv32, c: bv32, d: bv32, e: bv32): bv32 {
    a + b + c + d + e
  }

  function Round(h: Hash, t: nat, w: bv32): Hash {
    Hash(Sum5(RotL5(h.a), F(t, h.b, h.c, h.d), h.e, K(t), w), h.a, RotL30(h.b), h.c, h.d)
  }

  function Rounds(h: Hash, w: seq<bv32>, n: nat): Hash
    requires n <= |w|
  {
    if n == 0 then h else Round(Rounds(h, w, n - 1), n - 1, w[n - 1])
  }

  function Plus(g: Hash, h: Hash): Hash {
    Hash(Sum(g.a, h.a), Sum(g.b, h.b), Sum(g.c, h.c), Sum(g.d, h.d), Sum(g.e, h.e))
  }

  /** Section 6.1.2: the intermediate hash value after one more block. */
  function Compress(h: Hash, block: seq<bv8>): Hash
    requires |block| == 64
  {
    Plus(h, Rounds(h, Schedule(block, 80), 80))
  }

  /** The hash value after all complete blocks of the data. */
  function Absorb(h: Hash, data: seq<bv8>): Hash
    requires |data| % 64 == 0
  {
    if data == [] then h
    else Compress(Absorb(h, data[..|data| - 64]), data[|data| - 64..])
  }

  // ----- Section 5.1.1: padding -----

  function ZeroBytes(n: nat): (z: seq<bv8>)
    ensures |z| == n
  {
    if n == 0 then [] else ZeroBytes(n - 1) + [0]
  }

  /** Zero bytes between the one bit and the length. */
  function Gap(n: nat): nat {
    (119 - n % 64) % 64
  }

  /** The gap is the least that leaves exactly eight bytes of the last block. */
  lemma GapIsLeast(n: nat, k: nat)
    ensures (n + 1 + Gap(n)) % 64 == 56
    ensures (n + 1 + k) % 64 == 56 ==> Gap(n) <= k
  {
    var q, r := n / 64, n % 64;
    assert n == 64 * q + r;
    if r <= 55 {
      assert Gap(n) == 55 - r;
      assert n + 1 + Gap(n) == 64 * q + 56;
    } else {
      assert Gap(n) == 119 - r;
      assert n + 1 + Gap(n) == 64 * (q + 1) + 56;
    }
    var p := (n + 1 + k) / 64;
    if (n + 1 + k) % 64 == 56 {
      assert n + 1 + k == 64 * p + 56;
    }
  }

  /** A 64-bit big-endian number, as two 32-bit words. */
  function LengthBytes(bits: nat): (b: seq<bv8>)
    ensures |b| == 8
  {
    WordBytes(bits / 0x1_0000_0000) + WordBytes(bits % 0x1_0000_0000)
  }

  function Padding(n: nat): (p: seq<bv8>)
    ensures |p| == Gap(n) + 9
  {
    [0x80] + ZeroBytes(Gap(n)) + LengthBytes(8 * n)
  }

  lemma FillsBlocks(n: nat)
    ensures (n + Gap(n) + 9) % 64 == 0
  {
    GapIsLeast(n, 0);
    hide Gap;
    var p := (n + 1 + Gap(n)) / 64;
    assert n + Gap(n) + 9 == 64 * (p + 1);
  }

  function Padded(message: seq<bv8>): (p: seq<bv8>)
    ensures |p| % 64 == 0
  {
    FillsBlocks(|message|);
    message + Padding(|message|)
  }

  lemma {:induction false} ZeroBytesAre(n: nat, i: nat)
    requires i < n
    ensures ZeroBytes(n)[i] == 0
  {
    if i < n - 1 {
      ZeroBytesAre(n - 1, i);
    }
  }

  lemma LengthBytesRead(bits: nat)
    requires bits < 0x1_0000_0000_0000_0000
    ensures FourBytes(LengthBytes(bits)[..4]) * 0x1_0000_0000 + FourBytes(LengthBytes(bits)[4..]) == bits
  {
    hide WordBytes, FourBytes;
    var high, low := bits / 0x1_0000_0000, bits % 0x1_0000_0000;
    WordBytesRead(high);
    WordBytesRead(low);
    assert LengthBytes(bits)[..4] == WordBytes(high) && LengthBytes(bits)[4..] == WordBytes(low);
  }

  lemma PaddedParts(message: seq<bv8>)
    ensures var p, n := Padded(message), |message|;
      && |p| == n + Gap(n) + 9 && p[..n] == message && p[n] == 0x80
      && p[n + 1..|p| - 8] == ZeroBytes(Gap(n)) && p[|p| - 8..] == LengthBytes(8 * n)
  {
    hide Gap, ZeroBytes, LengthBytes;
  }

  /**
    Section 5.1.1: the message, a one bit, the least number of zero bits, and the length in bits
    as a 64-bit number, most significant byte first.
  */
  lemma PaddedIsStandard(message: seq<bv8>)
    requires |message| < 0x2000_0000_0000_0000
    ensures var p, n := Padded(message), |message|;
      && |p| % 64 == 0 && n + 9 <= |p| < n + 9 + 64
      && p[..n] == message && p[n] == 0x80
      && (forall i :: n < i < |p| - 8 ==> p[i] == 0)
      && FourBytes(p[|p| - 8..|p| - 4]) * 0x1_0000_0000 + FourBytes(p[|p| - 4..]) == 8 * n
  {
    hide ZeroBytes, FourBytes, LengthBytes, Padded;
    var p, n := Padded(message), |message|;
    PaddedParts(message);
    LengthBytesRead(8 * n);
    var length := p[|p| - 8..];
    assert length[..4] == p[|p| - 8..|p| - 4] && length[4..] == p[|p| - 4..];
    forall i | n < i < |p| - 8
      ensures p[i] == 0
    {
      ZeroBytesAre(Gap(n), i - n - 1);
      assert p[i] == p[n + 1..|p| - 8][i - n - 1];
    }
  }

  /** The digest of a message, starting from a given hash value. */
  function DigestFrom(h: Hash, message: seq<bv8>): Hash {
    Absorb(h, Padded(message))
  }

  function Digest(message: seq<bv8>): Hash {
    DigestFrom(INITIAL, message)
  }
}
