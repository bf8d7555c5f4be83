/**
  The bit manipulation behind the table sizes: rounding up to a power of two, the floor
  logarithm by de Bruijn multiplication, and what both compute.

  An unsigned 64-bit word is a natural number below 2^64. Shifting right by s divides by 2^s,
  `Or` is bitwise or, and additions and multiplications that may wrap are reduced modulo 2^64.
*/
module BitTricks {
  import opened Powers

  const WORD: nat := 0x1_0000_0000_0000_0000

  function Or(a: nat, b: nat): nat
    decreases a + b
  {
    if a == 0 then b
    else if b == 0 then a
    else 2 * Or(a / 2, b / 2) + (if a % 2 == 1 || b % 2 == 1 then 1 else 0)
  }

  function Quotient(v: nat, d: nat): nat
    requires d > 0
  {
    v / d
  }

  function Shr(v: nat, s: nat): nat {
    Positive(s);
    Quotient(v, Pow2(s))
  }

  /** Copies the highest set bit into every lower position. */
  function Smear(v: nat): nat {
    var a := Or(v, Shr(v, 1));
    var b := Or(a, Shr(a, 2));
    var c := Or(b, Shr(b, 4));
    var d := Or(c, Shr(c, 8));
    var e := Or(d, Shr(d, 16));
    Or(e, Shr(e, 32))
  }

  const TABLE_0: seq<nat> := [63, 0, 58, 1, 59, 47, 53, 2, 60, 39, 48, 27, 54, 33, 42, 3]
  const TABLE_1: seq<nat> := [61, 51, 37, 40, 49, 18, 28, 20, 55, 30, 34, 11, 43, 14, 22, 4]
  const TABLE_2: seq<nat> := [62, 57, 46, 52, 38, 26, 32, 41, 50, 36, 17, 19, 29, 10, 13, 21]
  const TABLE_3: seq<nat> := [56, 45, 25, 31, 35, 16, 9, 12, 44, 24, 15, 8, 23, 7, 6, 5]

  function Table(i: nat): nat
    requires i < 64
  {
    if i < 16 then TABLE_0[i]
    else if i < 32 then TABLE_1[i - 16]
    else if i < 48 then TABLE_2[i - 32]
    else TABLE_3[i - 48]
  }

  /** The six bits of the wrapped product that index the table. */
  function TableSlot(p: nat): (i: nat)
    ensures i < 64
  {
    p * 0x07ED_D5E5_9A4E_28C2 % 0x1_0000_0000_0000_0000 / 0x400_0000_0000_0000
  }

  function Log2(v: nat): nat {
    var s := Smear(v);
    Table(TableSlot((s - Shr(s, 1)) % WORD))
  }

  function NextPowerOfTwo(i: nat): nat {
    (Smear((i + WORD - 1) % WORD) + 1) % WORD
  }

  // ----- Or on numbers that split at a bit position -----

  lemma {:induction false} OrBounds(a: nat, b: nat, e: nat)
    requires a < Pow2(e) && b < Pow2(e)
    ensures a <= Or(a, b) && b <= Or(a, b) < Pow2(e)
    decreases e
  {
    if a != 0 && b != 0 {
      OrBounds(a / 2, b / 2, e - 1);
    }
  }

  /** Oring a number below 2^e into h * 2^e + l leaves the high part h alone. */
  lemma {:induction false} OrKeepsHigh(h: nat, l: nat, b: nat, e: nat)
    requires l < Pow2(e) && b < Pow2(e)
    ensures Or(h * Pow2(e) + l, b) == h * Pow2(e) + Or(l, b)
    decreases e
  {
    Positive(e);
    if e == 0 {
    } else {
      var a := h * Pow2(e) + l;
      assert a == 2 * (h * Pow2(e - 1)) + l;
      if b != 0 && a != 0 {
        OrKeepsHigh(h, l / 2, b / 2, e - 1);
        assert a / 2 == h * Pow2(e - 1) + l / 2;
        assert a % 2 == l % 2;
        if l == 0 {
          OrZero(b / 2);
        }
      }
    }
  }

  lemma OrZero(b: nat)
    ensures Or(0, b) == b && Or(b, 0) == b
  {
  }

  // ----- Smearing -----

  function Minus(a: nat, b: nat): nat {
    if a < b then 0 else a - b
  }

  /** v is below 2^top and its highest `len` bits below that position are all ones. */
  ghost predicate OnesFrom(v: nat, top: nat, len: nat) {
    v < Pow2(top) && v + Pow2(Minus(top, len)) >= Pow2(top)
  }

  lemma QuotientIsUnique(v: nat, d: nat, q: nat, r: nat)
    requires d > 0 && v == q * d + r && r < d
    ensures v / d == q
  {
    assert v / d * d + v % d == v;
    if v / d < q {
      MulMonotone(v / d + 1, q, d);
    } else if v / d > q {
      MulMonotone(q + 1, v / d, d);
    }
  }

  lemma QuotientAtLeast(v: nat, d: nat, q: nat)
    requires d > 0 && v >= q * d
    ensures v / d >= q
  {
    assert v / d * d + v % d == v;
    if v / d < q {
      MulMonotone(v / d + 1, q, d);
    }
  }

  lemma LongShift(v: nat, l: nat, r: nat, s: nat)
    requires l > 0 && r == s * l && s <= r && v + r >= r * l
    ensures v / l + s >= r
  {
    assert (r - s) * l == r * l - s * l;
    QuotientAtLeast(v, l, r - s);
  }

  lemma ShortShift(v: nat, l: nat, r: nat)
    requires 1 <= r <= l && v + r >= r * l
    ensures v / l + 1 >= r
  {
    assert (r - 1) * l == r * l - l;
    QuotientAtLeast(v, l, r - 1);
  }

  /** The shifted copy supplies ones to the next `len` positions. */
  lemma ShiftedOnes(v: nat, top: nat, len: nat)
    requires OnesFrom(v, top, len) && len <= top
    ensures Shr(v, len) < Pow2(top - len)
    ensures Shr(v, len) + Pow2(Minus(top, 2 * len)) >= Pow2(top - len)
  {
    var rest := top - len;
    Positive(len);
    Positive(rest);
    ShiftBound(v, rest, len);
    Adds(rest, len);
    if len <= rest {
      Adds(rest - len, len);
      Monotone(rest - len, rest);
      LongShift(v, Pow2(len), Pow2(rest), Pow2(rest - len));
    } else {
      Monotone(rest, len);
      ShortShift(v, Pow2(len), Pow2(rest));
    }
  }

  lemma SplitHigh(v: nat, l: nat, e: nat)
    requires l >= 1 && v < l * e && v + e >= l * e
    ensures (l - 1) * e == l * e - e
    ensures v == (l - 1) * e + (v - (l - 1) * e) && 0 <= v - (l - 1) * e < e
  {
    assert (l - 1) * e == l * e - e;
  }

  lemma ShiftedOut(v: nat, top: nat, len: nat)
    requires v < Pow2(top) && top <= len
    ensures Shr(v, len) == 0
  {
    Positive(len);
    Monotone(top, len);
    QuotientIsUnique(v, Pow2(len), 0, v);
  }

  /** One step of the cascade doubles the run of ones. */
  lemma SmearStep(v: nat, top: nat, len: nat)
    requires OnesFrom(v, top, len)
    ensures OnesFrom(Or(v, Shr(v, len)), top, 2 * len)
  {
    if len > top {
      ShiftedOut(v, top, len);
      OrZero(v);
    } else {
      var e := top - len;
      var b := Shr(v, len);
      ShiftedOnes(v, top, len);
      Adds(len, e);
      Positive(len);
      SplitHigh(v, Pow2(len), Pow2(e));
      var h := Pow2(len) - 1;
      var l := v - h * Pow2(e);
      OrKeepsHigh(h, l, b, e);
      OrBounds(l, b, e);
    }
  }

  /** Smearing a word whose highest set bit is k gives 2^(k+1) - 1. */
  lemma SmearIsAllOnes(v: nat, k: nat)
    requires k < 64 && Pow2(k) <= v < Pow2(k + 1)
    ensures Smear(v) == Pow2(k + 1) - 1
  {
    var top := k + 1;
    assert OnesFrom(v, top, 1);
    SmearStep(v, top, 1);
    var a := Or(v, Shr(v, 1));
    SmearStep(a, top, 2);
    var b := Or(a, Shr(a, 2));
    SmearStep(b, top, 4);
    var c := Or(b, Shr(b, 4));
    SmearStep(c, top, 8);
    var d := Or(c, Shr(c, 8));
    SmearStep(d, top, 16);
    var e := Or(d, Shr(d, 16));
    SmearStep(e, top, 32);
  }

  // ----- The logarithm -----

  lemma {:induction false} HighestBit(v: nat) returns (k: nat)
    requires v >= 1
    ensures Pow2(k) <= v < Pow2(k + 1)
  {
    if v == 1 {
      k := 0;
    } else {
      k := HighestBit(v / 2);
      k := k + 1;
    }
  }

  lemma PowersOfBytes()
    ensures Pow2(8) == 0x100 && Pow2(16) == 0x1_0000 && Pow2(24) == 0x100_0000
    ensures Pow2(32) == 0x1_0000_0000 && Pow2(40) == 0x100_0000_0000
    ensures Pow2(48) == 0x1_0000_0000_0000 && Pow2(56) == 0x100_0000_0000_0000
  {
    Adds(8, 8);
    Adds(8, 16);
    Adds(16, 16);
    Adds(8, 32);
    Adds(16, 32);
    Adds(24, 32);
  }

  lemma PowersOfWord()
    ensures Pow2(64) == WORD && Pow2(1) == 2
  {
    PowersOfBytes();
    Adds(32, 32);
  }

  /** A word's highest bit is below 64. */
  lemma HighestBitOfWord(v: nat, k: nat)
    requires Pow2(k) <= v < WORD
    ensures k < 64
  {
    PowersOfWord();
    if k >= 64 {
      Monotone(64, k);
    }
  }

  // The multiplier is a de Bruijn word: the products of the 64 powers of two have 64 different
  // top six bits, and the table sends each back to its exponent.

  lemma PowerValues()
    ensures Pow2(0) == 0x1 && Pow2(1) == 0x2 && Pow2(2) == 0x4 && Pow2(3) == 0x8
    ensures Pow2(4) == 0x10 && Pow2(5) == 0x20 && Pow2(6) == 0x40 && Pow2(7) == 0x80
    ensures Pow2(8) == 0x100 && Pow2(9) == 0x200 && Pow2(10) == 0x400 && Pow2(11) == 0x800
    ensures Pow2(12) == 0x1000 && Pow2(13) == 0x2000 && Pow2(14) == 0x4000 && Pow2(15) == 0x8000
    ensures Pow2(16) == 0x1_0000 && Pow2(17) == 0x2_0000 && Pow2(18) == 0x4_0000 && Pow2(19) == 0x8_0000
    ensures Pow2(20) == 0x10_0000 && Pow2(21) == 0x20_0000 && Pow2(22) == 0x40_0000 && Pow2(23) == 0x80_0000
    ensures Pow2(24) == 0x100_0000 && Pow2(25) == 0x200_0000 && Pow2(26) == 0x400_0000 && Pow2(27) == 0x800_0000
    ensures Pow2(28) == 0x1000_0000 && Pow2(29) == 0x2000_0000 && Pow2(30) == 0x4000_0000 && Pow2(31) == 0x8000_0000
    ensures Pow2(32) == 0x1_0000_0000 && Pow2(33) == 0x2_0000_0000 && Pow2(34) == 0x4_0000_0000 && Pow2(35) == 0x8_0000_0000
    ensures Pow2(36) == 0x10_0000_0000 && Pow2(37) == 0x20_0000_0000 && Pow2(38) == 0x40_0000_0000 && Pow2(39) == 0x80_0000_0000
    ensures Pow2(40) == 0x100_0000_0000 && Pow2(41) == 0x200_0000_0000 && Pow2(42) == 0x400_0000_0000 && Pow2(43) == 0x800_0000_0000
    ensures Pow2(44) == 0x1000_0000_0000 && Pow2(45) == 0x2000_0000_0000 && Pow2(46) == 0x4000_0000_0000 && Pow2(47) == 0x8000_0000_0000
    ensures Pow2(48) == 0x1_0000_0000_0000 && Pow2(49) == 0x2_0000_0000_0000 && Pow2(50) == 0x4_0000_0000_0000 && Pow2(51) == 0x8_0000_0000_0000
    ensures Pow2(52) == 0x10_0000_0000_0000 && Pow2(53) == 0x20_0000_0000_0000 && Pow2(54) == 0x40_0000_0000_0000 && Pow2(55) == 0x80_0000_0000_0000
    ensures Pow2(56) == 0x100_0000_0000_0000 && Pow2(57) == 0x200_0000_0000_0000 && Pow2(58) == 0x400_0000_0000_0000 && Pow2(59) == 0x800_0000_0000_0000
    ensures Pow2(60) == 0x1000_0000_0000_0000 && Pow2(61) == 0x2000_0000_0000_0000 && Pow2(62) == 0x4000_0000_0000_0000 && Pow2(63) == 0x8000_0000_0000_0000
  {
  }

  /** The product splits into the part that wraps away, the six index bits and the rest. */
  lemma SlotIs(p: nat, wrapped: nat, i: nat, rest: nat)
    requires p * 0x07ED_D5E5_9A4E_28C2 == (64 * wrapped + i) * 0x400_0000_0000_0000 + rest
    requires i < 64 && rest < 0x400_0000_0000_0000
    ensures TableSlot(p) == i
  {
    var low := i * 0x400_0000_0000_0000 + rest;
    assert p * 0x07ED_D5E5_9A4E_28C2 == wrapped * 0x1_0000_0000_0000_0000 + low;
    assert p * 0x07ED_D5E5_9A4E_28C2 % 0x1_0000_0000_0000_0000 == low;
    assert low / 0x400_0000_0000_0000 == i;
  }

  lemma SlotValues0()
    ensures TableSlot(0x1) == 1 && TableSlot(0x2) == 3 && TableSlot(0x4) == 7 && TableSlot(0x8) == 15
    ensures TableSlot(0x10) == 31 && TableSlot(0x20) == 63 && TableSlot(0x40) == 62 && TableSlot(0x80) == 61
    ensures TableSlot(0x100) == 59 && TableSlot(0x200) == 54 && TableSlot(0x400) == 45 && TableSlot(0x800) == 27
    ensures TableSlot(0x1000) == 55 && TableSlot(0x2000) == 46 && TableSlot(0x4000) == 29 && TableSlot(0x8000) == 58
  {
    hide *;
    SlotIs(0x1, 0x0, 1, 0x3ed_d5e5_9a4e_28c2);
    SlotIs(0x2, 0x0, 3, 0x3db_abcb_349c_5184);
    SlotIs(0x4, 0x0, 7, 0x3b7_5796_6938_a308);
    SlotIs(0x8, 0x0, 15, 0x36e_af2c_d271_4610);
    SlotIs(0x10, 0x0, 31, 0x2dd_5e59_a4e2_8c20);
    SlotIs(0x20, 0x0, 63, 0x1ba_bcb3_49c5_1840);
    SlotIs(0x40, 0x1, 62, 0x375_7966_938a_3080);
    SlotIs(0x80, 0x3, 61, 0x2ea_f2cd_2714_6100);
    SlotIs(0x100, 0x7, 59, 0x1d5_e59a_4e28_c200);
    SlotIs(0x200, 0xf, 54, 0x3ab_cb34_9c51_8400);
    SlotIs(0x400, 0x1f, 45, 0x357_9669_38a3_0800);
    SlotIs(0x800, 0x3f, 27, 0x2af_2cd2_7146_1000);
    SlotIs(0x1000, 0x7e, 55, 0x15e_59a4_e28c_2000);
    SlotIs(0x2000, 0xfd, 46, 0x2bc_b349_c518_4000);
    SlotIs(0x4000, 0x1fb, 29, 0x179_6693_8a30_8000);
    SlotIs(0x8000, 0x3f6, 58, 0x2f2_cd27_1461_0000);
  }

  lemma SlotValues1()
    ensures TableSlot(0x1_0000) == 53 && TableSlot(0x2_0000) == 42 && TableSlot(0x4_0000) == 21 && TableSlot(0x8_0000) == 43
    ensures TableSlot(0x10_0000) == 23 && TableSlot(0x20_0000) == 47 && TableSlot(0x40_0000) == 30 && TableSlot(0x80_0000) == 60
    ensures TableSlot(0x100_0000) == 57 && TableSlot(0x200_0000) == 50 && TableSlot(0x400_0000) == 37 && TableSlot(0x800_0000) == 11
    ensures TableSlot(0x1000_0000) == 22 && TableSlot(0x2000_0000) == 44 && TableSlot(0x4000_0000) == 25 && TableSlot(0x8000_0000) == 51
  {
    hide *;
    SlotIs(0x1_0000, 0x7ed, 53, 0x1e5_9a4e_28c2_0000);
    SlotIs(0x2_0000, 0xfdb, 42, 0x3cb_349c_5184_0000);
    SlotIs(0x4_0000, 0x1fb7, 21, 0x396_6938_a308_0000);
    SlotIs(0x8_0000, 0x3f6e, 43, 0x32c_d271_4610_0000);
    SlotIs(0x10_0000, 0x7edd, 23, 0x259_a4e2_8c20_0000);
    SlotIs(0x20_0000, 0xfdba, 47, 0xb3_49c5_1840_0000);
    SlotIs(0x40_0000, 0x1_fb75, 30, 0x166_938a_3080_0000);
    SlotIs(0x80_0000, 0x3_f6ea, 60, 0x2cd_2714_6100_0000);
    SlotIs(0x100_0000, 0x7_edd5, 57, 0x19a_4e28_c200_0000);
    SlotIs(0x200_0000, 0xf_dbab, 50, 0x334_9c51_8400_0000);
    SlotIs(0x400_0000, 0x1f_b757, 37, 0x269_38a3_0800_0000);
    SlotIs(0x800_0000, 0x3f_6eaf, 11, 0xd2_7146_1000_0000);
    SlotIs(0x1000_0000, 0x7e_dd5e, 22, 0x1a4_e28c_2000_0000);
    SlotIs(0x2000_0000, 0xfd_babc, 44, 0x349_c518_4000_0000);
    SlotIs(0x4000_0000, 0x1fb_7579, 25, 0x293_8a30_8000_0000);
    SlotIs(0x8000_0000, 0x3f6_eaf2, 51, 0x127_1461_0000_0000);
  }

  lemma SlotValues2()
    ensures TableSlot(0x1_0000_0000) == 38 && TableSlot(0x2_0000_0000) == 13 && TableSlot(0x4_0000_0000) == 26 && TableSlot(0x8_0000_0000) == 52
    ensures TableSlot(0x10_0000_0000) == 41 && TableSlot(0x20_0000_0000) == 18 && TableSlot(0x40_0000_0000) == 36 && TableSlot(0x80_0000_0000) == 9
    ensures TableSlot(0x100_0000_0000) == 19 && TableSlot(0x200_0000_0000) == 39 && TableSlot(0x400_0000_0000) == 14 && TableSlot(0x800_0000_0000) == 28
    ensures TableSlot(0x1000_0000_0000) == 56 && TableSlot(0x2000_0000_0000) == 49 && TableSlot(0x4000_0000_0000) == 34 && TableSlot(0x8000_0000_0000) == 5
  {
    hide *;
    SlotIs(0x1_0000_0000, 0x7ed_d5e5, 38, 0x24e_28c2_0000_0000);
    SlotIs(0x2_0000_0000, 0xfdb_abcb, 13, 0x9c_5184_0000_0000);
    SlotIs(0x4_0000_0000, 0x1fb7_5796, 26, 0x138_a308_0000_0000);
    SlotIs(0x8_0000_0000, 0x3f6e_af2c, 52, 0x271_4610_0000_0000);
    SlotIs(0x10_0000_0000, 0x7edd_5e59, 41, 0xe2_8c20_0000_0000);
    SlotIs(0x20_0000_0000, 0xfdba_bcb3, 18, 0x1c5_1840_0000_0000);
    SlotIs(0x40_0000_0000, 0x1_fb75_7966, 36, 0x38a_3080_0000_0000);
    SlotIs(0x80_0000_0000, 0x3_f6ea_f2cd, 9, 0x314_6100_0000_0000);
    SlotIs(0x100_0000_0000, 0x7_edd5_e59a, 19, 0x228_c200_0000_0000);
    SlotIs(0x200_0000_0000, 0xf_dbab_cb34, 39, 0x51_8400_0000_0000);
    SlotIs(0x400_0000_0000, 0x1f_b757_9669, 14, 0xa3_0800_0000_0000);
    SlotIs(0x800_0000_0000, 0x3f_6eaf_2cd2, 28, 0x146_1000_0000_0000);
    SlotIs(0x1000_0000_0000, 0x7e_dd5e_59a4, 56, 0x28c_2000_0000_0000);
    SlotIs(0x2000_0000_0000, 0xfd_babc_b349, 49, 0x118_4000_0000_0000);
    SlotIs(0x4000_0000_0000, 0x1fb_7579_6693, 34, 0x230_8000_0000_0000);
    SlotIs(0x8000_0000_0000, 0x3f6_eaf2_cd27, 5, 0x61_0000_0000_0000);
  }

  lemma SlotValues3()
    ensures TableSlot(0x1_0000_0000_0000) == 10 && TableSlot(0x2_0000_0000_0000) == 20 && TableSlot(0x4_0000_0000_0000) == 40 && TableSlot(0x8_0000_0000_0000) == 17
    ensures TableSlot(0x10_0000_0000_0000) == 35 && TableSlot(0x20_0000_0000_0000) == 6 && TableSlot(0x40_0000_0000_0000) == 12 && TableSlot(0x80_0000_0000_0000) == 24
    ensures TableSlot(0x100_0000_0000_0000) == 48 && TableSlot(0x200_0000_0000_0000) == 33 && TableSlot(0x400_0000_0000_0000) == 2 && TableSlot(0x800_0000_0000_0000) == 4
    ensures TableSlot(0x1000_0000_0000_0000) == 8 && TableSlot(0x2000_0000_0000_0000) == 16 && TableSlot(0x4000_0000_0000_0000) == 32 && TableSlot(0x8000_0000_0000_0000) == 0
  {
    hide *;
    SlotIs(0x1_0000_0000_0000, 0x7ed_d5e5_9a4e, 10, 0xc2_0000_0000_0000);
    SlotIs(0x2_0000_0000_0000, 0xfdb_abcb_349c, 20, 0x184_0000_0000_0000);
    SlotIs(0x4_0000_0000_0000, 0x1fb7_5796_6938, 40, 0x308_0000_0000_0000);
    SlotIs(0x8_0000_0000_0000, 0x3f6e_af2c_d271, 17, 0x210_0000_0000_0000);
    SlotIs(0x10_0000_0000_0000, 0x7edd_5e59_a4e2, 35, 0x20_0000_0000_0000);
    SlotIs(0x20_0000_0000_0000, 0xfdba_bcb3_49c5, 6, 0x40_0000_0000_0000);
    SlotIs(0x40_0000_0000_0000, 0x1_fb75_7966_938a, 12, 0x80_0000_0000_0000);
    SlotIs(0x80_0000_0000_0000, 0x3_f6ea_f2cd_2714, 24, 0x100_0000_0000_0000);
    SlotIs(0x100_0000_0000_0000, 0x7_edd5_e59a_4e28, 48, 0x200_0000_0000_0000);
    SlotIs(0x200_0000_0000_0000, 0xf_dbab_cb34_9c51, 33, 0x0);
    SlotIs(0x400_0000_0000_0000, 0x1f_b757_9669_38a3, 2, 0x0);
    SlotIs(0x800_0000_0000_0000, 0x3f_6eaf_2cd2_7146, 4, 0x0);
    SlotIs(0x1000_0000_0000_0000, 0x7e_dd5e_59a4_e28c, 8, 0x0);
    SlotIs(0x2000_0000_0000_0000, 0xfd_babc_b349_c518, 16, 0x0);
    SlotIs(0x4000_0000_0000_0000, 0x1fb_7579_6693_8a30, 32, 0x0);
    SlotIs(0x8000_0000_0000_0000, 0x3f6_eaf2_cd27_1461, 0, 0x0);
  }

  lemma TableValues0()
    ensures Table(0) == 63 && Table(1) == 0 && Table(2) == 58 && Table(3) == 1 && Table(4) == 59 && Table(5) == 47 && Table(6) == 53 && Table(7) == 2
    ensures Table(8) == 60 && Table(9) == 39 && Table(10) == 48 && Table(11) == 27 && Table(12) == 54 && Table(13) == 33 && Table(14) == 42 && Table(15) == 3
    ensures Table(16) == 61 && Table(17) == 51 && Table(18) == 37 && Table(19) == 40 && Table(20) == 49 && Table(21) == 18 && Table(22) == 28 && Table(23) == 20
    ensures Table(24) == 55 && Table(25) == 30 && Table(26) == 34 && Table(27) == 11 && Table(28) == 43 && Table(29) == 14 && Table(30) == 22 && Table(31) == 4
  {
  }

  lemma TableValues1()
    ensures Table(32) == 62 && Table(33) == 57 && Table(34) == 46 && Table(35) == 52 && Table(36) == 38 && Table(37) == 26 && Table(38) == 32 && Table(39) == 41
    ensures Table(40) == 50 && Table(41) == 36 && Table(42) == 17 && Table(43) == 19 && Table(44) == 29 && Table(45) == 10 && Table(46) == 13 && Table(47) == 21
    ensures Table(48) == 56 && Table(49) == 45 && Table(50) == 25 && Table(51) == 31 && Table(52) == 35 && Table(53) == 16 && Table(54) == 9 && Table(55) == 12
    ensures Table(56) == 44 && Table(57) == 24 && Table(58) == 15 && Table(59) == 8 && Table(60) == 23 && Table(61) == 7 && Table(62) == 6 && Table(63) == 5
  {
  }

  lemma TableHits(k: nat)
    requires k < 64
    ensures Table(TableSlot(Pow2(k))) == k
  {
    hide *;
    PowerValues();
    TableValues0();
    TableValues1();
    SlotValues0();
    SlotValues1();
    SlotValues2();
    SlotValues3();
  }

  /** The de Bruijn logarithm is the exact floor logarithm of every non-zero word. */
  lemma Log2IsFloorLog(v: nat)
    requires 1 <= v < WORD
    ensures Log2(v) < 64
    ensures Pow2(Log2(v)) <= v < Pow2(Log2(v) + 1)
  {
    hide *;
    var k := HighestBit(v);
    HighestBitOfWord(v, k);
    SmearIsAllOnes(v, k);
    TopBit(k);
    TableHits(k);
    Log2Is(v);
  }

  lemma Log2Is(v: nat)
    ensures var s := Smear(v);
      Shr(s, 1) <= s && Log2(v) == Table(TableSlot((s - Shr(s, 1)) % WORD))
  {
    hide Smear, Table, TableSlot;
    assert Pow2(1) == 2;
  }

  /** All ones up to bit k, minus the same shifted by one, is bit k alone. */
  lemma TopBit(k: nat)
    requires k < 64
    ensures Pow2(k + 1) >= 1
    ensures var s := Pow2(k + 1) - 1; Shr(s, 1) <= s && (s - Shr(s, 1)) % WORD == Pow2(k)
  {
    PowersOfWord();
    Positive(k);
    Monotone(k, 63);
    Monotone(63, 64);
    assert Pow2(1) == 2;
    assert Shr(Pow2(k + 1) - 1, 1) == Pow2(k) - 1;
  }

  lemma SmearOfZero()
    ensures Smear(0) == 0
  {
    hide Pow2;
    assert forall s: nat :: Shr(0, s) == 0 by {
      forall s: nat
        ensures Shr(0, s) == 0
      {
        Positive(s);
        QuotientIsUnique(0, Pow2(s), 0, 0);
      }
    }
  }

  /** For every size from 1 to 2^63 the result is the least power of two at or above it. */
  lemma NextPowerOfTwoIsLeast(i: nat) returns (e: nat)
    requires 1 <= i <= Pow2(63)
    ensures e <= 63 && NextPowerOfTwo(i) == Pow2(e)
    ensures i <= Pow2(e)
    ensures forall f: nat :: i <= Pow2(f) ==> e <= f
  {
    hide Or, Shr;
    PowersOfWord();
    if i == 1 {
      e := 0;
      SmearOfZero();
    } else {
      var k := HighestBit(i - 1);
      HighestBitOfWord(i - 1, k);
      SmearIsAllOnes(i - 1, k);
      e := k + 1;
      if k >= 63 {
        Monotone(63, k);
      }
      Monotone(e, 63);
      forall f: nat | i <= Pow2(f)
        ensures e <= f
      {
        if f < e {
          Monotone(f, k);
        }
      }
    }
  }

  /** Outside that range the sum wraps to zero. */
  lemma NextPowerOfTwoWraps(i: nat)
    requires i == 0 || Pow2(63) < i < WORD
    ensures NextPowerOfTwo(i) == 0
  {
    hide Or, Shr;
    PowersOfWord();
    SmearIsAllOnes((i + WORD - 1) % WORD, 63);
  }

  /** The logarithm of a power of two is its exponent. */
  lemma Log2OfPower(e: nat)
    requires e < 64
    ensures Log2(Pow2(e)) == e
  {
    hide Log2;
    PowersOfWord();
    Positive(e);
    Monotone(e, 63);
    var k := Log2(Pow2(e));
    Log2IsFloorLog(Pow2(e));
    if k < e {
      Monotone(k + 1, e);
    } else {
      if e < k {
        Monotone(e, k);
      }
    }
  }
}
