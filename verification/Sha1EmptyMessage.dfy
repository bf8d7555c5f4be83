/**
 * The empty message. The object never runs `reset` for it, so its digest starts from the
 * all-zero hash value; this module follows all eighty rounds from both starting values.
 */
module Sha1EmptyMessage {
  import opened BigEndianBytes
  import opened Sha1Standard

  datatype Start = AllZero | Initial

  function StartHash(s: Start): Hash {
    if s == AllZero then Hash(0, 0, 0, 0, 0) else INITIAL
  }

  function Pick(i: int, a: bv32, b: bv32, c: bv32, d: bv32, e: bv32, f: bv32, g: bv32, h: bv32): bv32 {
    if i <= 0 then a else if i == 1 then b else if i == 2 then c else if i == 3 then d
    else if i == 4 then e else if i == 5 then f else if i == 6 then g else h
  }

  /** The message schedule of the padded empty message. */
  function Word(t: nat): bv32 {
    if t < 8 then Pick(t - 0, 0x80000000, 0x00000000, 0x00000000, 0x00000000, 0x00000000, 0x00000000, 0x00000000, 0x00000000)
    else if t < 16 then Pick(t - 8, 0x00000000, 0x00000000, 0x00000000, 0x00000000, 0x00000000, 0x00000000, 0x00000000, 0x00000000)
    else if t < 24 then Pick(t - 16, 0x00000001, 0x00000000, 0x00000000, 0x00000002, 0x00000000, 0x00000000, 0x00000004, 0x00000000)
    else if t < 32 then Pick(t - 24, 0x00000002, 0x00000008, 0x00000000, 0x00000000, 0x00000010, 0x00000000, 0x0000000a, 0x00000020)
    else if t < 40 then Pick(t - 32, 0x00000006, 0x00000000, 0x00000040, 0x00000008, 0x00000028, 0x00000080, 0x00000008, 0x00000000)
    else if t < 48 then Pick(t - 40, 0x00000108, 0x00000000, 0x000000a0, 0x00000200, 0x00000064, 0x00000000, 0x00000408, 0x00000088)
    else if t < 56 then Pick(t - 48, 0x0000029c, 0x00000800, 0x00000080, 0x00000028, 0x00001088, 0x00000000, 0x00000a40, 0x00002000)
    else if t < 64 then Pick(t - 56, 0x00000668, 0x00000080, 0x00004088, 0x00000880, 0x000028c8, 0x00008000, 0x000008a8, 0x00000080)
    else if t < 72 then Pick(t - 64, 0x000108e8, 0x00000000, 0x0000a000, 0x00020080, 0x00006400, 0x00000000, 0x00040800, 0x00008800)
    else Pick(t - 72, 0x00029c10, 0x00080000, 0x00008080, 0x00002820, 0x001088c0, 0x00000000, 0x000a40c0, 0x00200080)
  }

  /**
   * The values of a through the rounds, after the five that encode the starting value: the
   * other four variables are earlier values of a, rotated where the standard rotates them.
   */
  function Trail(s: Start, t: nat): bv32 {
    match s
    case AllZero =>
      if t < 8 then Pick(t - 0, 0x00000000, 0x00000000, 0x00000000, 0x00000000, 0x00000000, 0xda827999, 0xaad1acd4, 0xb4b8142e)
      else if t < 16 then Pick(t - 8, 0x14058bb3, 0x3de47a5f, 0xbc66c4ed, 0x9719e9d1, 0xb84edf5b, 0x78d97f13, 0xac82f50f, 0xc712043f)
      else if t < 24 then Pick(t - 16, 0x709cd3d9, 0x37550c60, 0x1eff126e, 0xfa0b0a0e, 0xda7d631f, 0x8e3553a5, 0xce84f7e5, 0x69790b74)
      else if t < 32 then Pick(t - 24, 0xbac6078e, 0x378f98a3, 0x9793cd9a, 0x5855388d, 0x88a0ea7a, 0x61faea9a, 0xf76c7c5c, 0x981608cc)
      else if t < 40 then Pick(t - 32, 0x94eb4fbb, 0xec1fcb3e, 0x1a87e0c3, 0x2cd1be08, 0x73d1f0db, 0x1fca8ffa, 0xe178451c, 0x2c8f23fb)
      else if t < 48 then Pick(t - 40, 0xc6717564, 0xad20a5d9, 0xcfedf831, 0xfc9633a7, 0x61fdb5bc, 0x7c490def, 0xf78360ed, 0x6ff06735)
      else if t < 56 then Pick(t - 48, 0x6b6193e1, 0x93bdea17, 0x61cbdd32, 0xa274a848, 0x9a785cf5, 0xd976bd6f, 0x3b5b6bb0, 0xfb9a69ee)
      else if t < 64 then Pick(t - 56, 0xa165542e, 0x21435663, 0x5ccb1309, 0xdf98599e, 0x0967003b, 0x4365f54a, 0xdb91409f, 0x1bdcaa6f)
      else if t < 72 then Pick(t - 64, 0x957069c4, 0xb8ab6a58, 0x160d1db7, 0xddeb2c39, 0x6c3b517c, 0xad6cc67e, 0x84e94960, 0xee28ae82)
      else if t < 80 then Pick(t - 72, 0x3bb20a61, 0xbffd13a1, 0x1662db45, 0x02983f69, 0x10667fcb, 0x4f21a730, 0x33f7b387, 0x5a90a125)
      else Pick(t - 80, 0x41436434, 0x3c9e9518, 0x4d186f45, 0xb4e33c7c, 0x0ffd8d43, 0x00000000, 0x00000000, 0x00000000)
    case Initial =>
      if t < 8 then Pick(t - 0, 0x0f4b87c3, 0x40c951d8, 0x62eb73fa, 0xefcdab89, 0x67452301, 0x1fb498b3, 0x5d43e370, 0x158d2f62)
      else if t < 16 then Pick(t - 8, 0xcdecfb5d, 0x4953565e, 0xe44ab766, 0xc09d7f27, 0x87074800, 0x41376611, 0xcbdbff31, 0x40166973)
      else if t < 24 then Pick(t - 16, 0xadc0e0ca, 0x84c05eb2, 0x1512c8b9, 0x40182905, 0xd8fd6547, 0x06bf9173, 0x28a9520e, 0x0b3088dd)
      else if t < 32 then Pick(t - 24, 0xe758e8da, 0x90eb9850, 0x7dbb787d, 0x1c64d028, 0x1e97b73a, 0x62d7f53f, 0x34f3d6d8, 0x4f2ed1c1)
      else if t < 40 then Pick(t - 32, 0xc7b11e2d, 0x874b786f, 0xca4556cb, 0x6a2e466e, 0x62ea3d59, 0xb77bac25, 0x4b1347e2, 0x391ef0c4)
      else if t < 48 then Pick(t - 40, 0xabbab988, 0x04f07669, 0xb201788b, 0x62273351, 0x9bdbdd71, 0x95aa398b, 0x5e28e858, 0x95642485)
      else if t < 56 then Pick(t - 48, 0xfa950aba, 0xde1e3a01, 0xafe695ab, 0xa195ba90, 0xe6d39f43, 0x0bca9922, 0x6ae826ff, 0x01ff3253)
      else if t < 64 then Pick(t - 56, 0xe2581ce0, 0x56ce73ab, 0xae56e542, 0x8590c0e8, 0xbe4a4bea, 0x168ce0bb, 0xe1afab22, 0x982bcbca)
      else if t < 72 then Pick(t - 64, 0x9b9d2913, 0xd37db937, 0x85b9d227, 0xcd98fbb7, 0xbb0f226f, 0xeb59446c, 0xd37225cb, 0x111341f3)
      else if t < 80 then Pick(t - 72, 0xe79afbf0, 0x8ba00627, 0x503c7ae0, 0x3cd517f9, 0xb47ddf0e, 0x5e3a0780, 0x63db37b2, 0x15e98d17)
      else Pick(t - 80, 0xb0149467, 0x14b7106a, 0x666b8bc6, 0x6e9d9f84, 0x72f480ed, 0x00000000, 0x00000000, 0x00000000)
  }

  function StateAt(s: Start, t: nat): Hash {
    Hash(Trail(s, t + 4), Trail(s, t + 3), RotL30(Trail(s, t + 2)), RotL30(Trail(s, t + 1)), RotL30(Trail(s, t)))
  }

  function NextA(h: Hash, t: nat, w: bv32): bv32 {
    Sum5(RotL5(h.a), F(t, h.b, h.c, h.d), h.e, K(t), w)
  }

  predicate RoundOk(s: Start, t: nat) {
    Trail(s, t + 5) == NextA(StateAt(s, t), t, Word(t))
  }

  predicate WordOk(t: nat) {
    t < 16 || Word(t) == RotL1(Xor4(Word(t - 3), Word(t - 8), Word(t - 14), Word(t - 16)))
  }

  predicate RoundsOk(s: Start, lo: nat, hi: nat)
    decreases hi - lo
  {
    lo >= hi || (RoundOk(s, lo) && RoundsOk(s, lo + 1, hi))
  }

  predicate WordsOk(lo: nat, hi: nat)
    decreases hi - lo
  {
    lo >= hi || (WordOk(lo) && WordsOk(lo + 1, hi))
  }

  // ----- The tables are right -----
  //
  // Whether a table entry follows from the ones before it is a question about literal words. The
  // verifier answers it by computing, and it computes eight steps well within its resource limit
  // but not eighty, nor eight of a step that is not a literal. So each lemma below covers eight
  // literal steps, and `WordHolds` and `RoundHolds` put them together for every step.

  lemma Words0()
    ensures WordsOk(0, 8)
  {
  }

  lemma Words8()
    ensures WordsOk(8, 16)
  {
  }

  lemma Words16()
    ensures WordsOk(16, 24)
  {
  }

  lemma Words24()
    ensures WordsOk(24, 32)
  {
  }

  lemma Words32()
    ensures WordsOk(32, 40)
  {
  }

  lemma Words40()
    ensures WordsOk(40, 48)
  {
  }

  lemma Words48()
    ensures WordsOk(48, 56)
  {
  }

  lemma Words56()
    ensures WordsOk(56, 64)
  {
  }

  lemma Words64()
    ensures WordsOk(64, 72)
  {
  }

  lemma Words72()
    ensures WordsOk(72, 80)
  {
  }

  lemma AllZero0()
    ensures RoundsOk(AllZero, 0, 8)
  {
  }

  lemma AllZero8()
    ensures RoundsOk(AllZero, 8, 16)
  {
  }

  lemma AllZero16()
    ensures RoundsOk(AllZero, 16, 24)
  {
  }

  lemma AllZero24()
    ensures RoundsOk(AllZero, 24, 32)
  {
  }

  lemma AllZero32()
    ensures RoundsOk(AllZero, 32, 40)
  {
  }

  lemma AllZero40()
    ensures RoundsOk(AllZero, 40, 48)
  {
  }

  lemma AllZero48()
    ensures RoundsOk(AllZero, 48, 56)
  {
  }

  lemma AllZero56()
    ensures RoundsOk(AllZero, 56, 64)
  {
  }

  lemma AllZero64()
    ensures RoundsOk(AllZero, 64, 72)
  {
  }

  lemma AllZero72()
    ensures RoundsOk(AllZero, 72, 80)
  {
  }

  lemma Initial0()
    ensures RoundsOk(Initial, 0, 8)
  {
  }

  lemma Initial8()
    ensures RoundsOk(Initial, 8, 16)
  {
  }

  lemma Initial16()
    ensures RoundsOk(Initial, 16, 24)
  {
  }

  lemma Initial24()
    ensures RoundsOk(Initial, 24, 32)
  {
  }

  lemma Initial32()
    ensures RoundsOk(Initial, 32, 40)
  {
  }

  lemma Initial40()
    ensures RoundsOk(Initial, 40, 48)
  {
  }

  lemma Initial48()
    ensures RoundsOk(Initial, 48, 56)
  {
  }

  lemma Initial56()
    ensures RoundsOk(Initial, 56, 64)
  {
  }

  lemma Initial64()
    ensures RoundsOk(Initial, 64, 72)
  {
  }

  lemma Initial72()
    ensures RoundsOk(Initial, 72, 80)
  {
  }

  lemma {:induction false} WordAmong(lo: nat, hi: nat, t: nat)
    requires WordsOk(lo, hi) && lo <= t < hi
    ensures WordOk(t)
    decreases hi - lo
  {
    hide WordOk;
    if lo < t {
      WordAmong(lo + 1, hi, t);
    }
  }

  lemma {:induction false} RoundAmong(s: Start, lo: nat, hi: nat, t: nat)
    requires RoundsOk(s, lo, hi) && lo <= t < hi
    ensures RoundOk(s, t)
    decreases hi - lo
  {
    hide RoundOk;
    if lo < t {
      RoundAmong(s, lo + 1, hi, t);
    }
  }

  lemma WordHolds(t: nat)
    requires t < 80
    ensures WordOk(t)
  {
    hide *;
    if t < 8 {
      Words0();
      WordAmong(0, 8, t);
    } else if t < 16 {
      Words8();
      WordAmong(8, 16, t);
    } else if t < 24 {
      Words16();
      WordAmong(16, 24, t);
    } else if t < 32 {
      Words24();
      WordAmong(24, 32, t);
    } else if t < 40 {
      Words32();
      WordAmong(32, 40, t);
    } else if t < 48 {
      Words40();
      WordAmong(40, 48, t);
    } else if t < 56 {
      Words48();
      WordAmong(48, 56, t);
    } else if t < 64 {
      Words56();
      WordAmong(56, 64, t);
    } else if t < 72 {
      Words64();
      WordAmong(64, 72, t);
    } else {
      Words72();
      WordAmong(72, 80, t);
    }
  }

  lemma RoundHolds(s: Start, t: nat)
    requires t < 80
    ensures RoundOk(s, t)
  {
    hide *;
    if t < 8 {
      if s == AllZero {
        AllZero0();
      } else {
        Initial0();
      }
      RoundAmong(s, 0, 8, t);
    } else if t < 16 {
      if s == AllZero {
        AllZero8();
      } else {
        Initial8();
      }
      RoundAmong(s, 8, 16, t);
    } else if t < 24 {
      if s == AllZero {
        AllZero16();
      } else {
        Initial16();
      }
      RoundAmong(s, 16, 24, t);
    } else if t < 32 {
      if s == AllZero {
        AllZero24();
      } else {
        Initial24();
      }
      RoundAmong(s, 24, 32, t);
    } else if t < 40 {
      if s == AllZero {
        AllZero32();
      } else {
        Initial32();
      }
      RoundAmong(s, 32, 40, t);
    } else if t < 48 {
      if s == AllZero {
        AllZero40();
      } else {
        Initial40();
      }
      RoundAmong(s, 40, 48, t);
    } else if t < 56 {
      if s == AllZero {
        AllZero48();
      } else {
        Initial48();
      }
      RoundAmong(s, 48, 56, t);
    } else if t < 64 {
      if s == AllZero {
        AllZero56();
      } else {
        Initial56();
      }
      RoundAmong(s, 56, 64, t);
    } else if t < 72 {
      if s == AllZero {
        AllZero64();
      } else {
        Initial64();
      }
      RoundAmong(s, 64, 72, t);
    } else {
      if s == AllZero {
        AllZero72();
      } else {
        Initial72();
      }
      RoundAmong(s, 72, 80, t);
    }
  }

  // ----- The block -----

  lemma {:induction false} ZeroBytesAt(n: nat, i: nat)
    requires i < n
    ensures ZeroBytes(n)[i] == 0
  {
    if i < n - 1 {
      ZeroBytesAt(n - 1, i);
    }
  }

  lemma LengthZero()
    ensures LengthBytes(0) == [0, 0, 0, 0, 0, 0, 0, 0]
  {
    WordZero();
    hide WordBytes;
    assert [0, 0, 0, 0] + [0, 0, 0, 0] == [0 as bv8, 0, 0, 0, 0, 0, 0, 0];
  }

  lemma WordZero()
    ensures WordBytes(0) == [0, 0, 0, 0]
  {
  }

  lemma BlockAt(i: nat)
    requires i < 64
    ensures |Padded([])| == 64
    ensures Padded([])[i] == if i == 0 then 0x80 else 0
  {
    hide ZeroBytes, LengthBytes;
    assert Gap(0) == 55;
    LengthZero();
    if 0 < i < 56 {
      ZeroBytesAt(55, i - 1);
    }
  }

  lemma FirstWords(t: nat)
    requires t < 16
    ensures |Padded([])| == 64
    ensures BigEndian(Padded([])[4 * t], Padded([])[4 * t + 1], Padded([])[4 * t + 2], Padded([])[4 * t + 3]) == Word(t)
  {
    hide Padded, BigEndian, Word;
    BlockAt(4 * t);
    BlockAt(4 * t + 1);
    BlockAt(4 * t + 2);
    BlockAt(4 * t + 3);
    TopBit(t);
  }

  lemma TopBit(t: nat)
    requires t < 16
    ensures BigEndian(0x80, 0, 0, 0) == 0x8000_0000 && BigEndian(0, 0, 0, 0) == 0
    ensures Word(t) == if t == 0 then 0x8000_0000 else 0
  {
  }

  lemma {:induction false} ScheduleAt(n: nat, t: nat)
    requires t < n <= 80
    ensures |Padded([])| == 64 && Schedule(Padded([]), n)[t] == Word(t)
    decreases n
  {
    hide Padded, BigEndian, RotL1, Xor4, Word;
    BlockAt(0);
    if t < n - 1 {
      ScheduleAt(n - 1, t);
    } else if t < 16 {
      FirstWords(t);
    } else {
      ScheduleAt(n - 1, t - 3);
      ScheduleAt(n - 1, t - 8);
      ScheduleAt(n - 1, t - 14);
      ScheduleAt(n - 1, t - 16);
      WordHolds(t);
    }
  }

  // ----- The digest -----

  lemma StateStep(s: Start, t: nat)
    requires t < 80
    ensures Round(StateAt(s, t), t, Word(t)) == StateAt(s, t + 1)
  {
    hide Trail, Word, RotL5, RotL30, F, K, Sum5;
    RoundHolds(s, t);
  }

  lemma StateStart(s: Start)
    ensures StateAt(s, 0) == StartHash(s)
  {
  }

  lemma {:induction false} RoundsAre(s: Start, n: nat)
    requires n <= 80
    ensures |Padded([])| == 64
    ensures Rounds(StartHash(s), Schedule(Padded([]), 80), n) == StateAt(s, n)
  {
    hide Padded, Schedule, StartHash, StateAt, Round, Word;
    BlockAt(0);
    if n == 0 {
      StateStart(s);
    } else {
      RoundsAre(s, n - 1);
      ScheduleAt(80, n - 1);
      StateStep(s, n - 1);
    }
  }

  function Result(s: Start): Hash {
    match s
    case AllZero => Hash(0x0ffd8d43, 0xb4e33c7c, 0x53461bd1, 0x0f27a546, 0x1050d90d)
    case Initial => Hash(0xda39a3ee, 0x5e6b4b0d, 0x3255bfef, 0x95601890, 0xafd80709)
  }

  lemma ResultIs(s: Start)
    ensures Plus(StartHash(s), StateAt(s, 80)) == Result(s)
  {
  }

  /** The digest of the empty message from either starting value. */
  lemma EmptyDigest(s: Start)
    ensures DigestFrom(StartHash(s), []) == Result(s)
  {
    hide Padded, Schedule, StartHash, StateAt, Plus, Rounds, Result;
    BlockAt(0);
    RoundsAre(s, 80);
    ResultIs(s);
    OneBlock(StartHash(s), Padded([]));
  }

  lemma OneBlock(h: Hash, block: seq<bv8>)
    requires |block| == 64
    ensures Absorb(h, block) == Compress(h, block)
  {
    hide Compress;
    assert block[..0] == [] && block[0..] == block;
    assert Absorb(h, []) == h;
  }

  /** From the all-zero hash value the digest is not the one the standard defines. */
  lemma EmptyMessageDiffers()
    ensures DigestFrom(Hash(0, 0, 0, 0, 0), []) != Digest([])
  {
    hide DigestFrom;
    EmptyDigest(AllZero);
    EmptyDigest(Initial);
  }
}
