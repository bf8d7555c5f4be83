/**
  What the multiplier of the Fibonacci policy does: no information of a hash is lost before the
  shift, every bucket is home to equally many hashes, and hashes that lie close together, such
  as consecutive integers, have different homes.
*/
module FibonacciHashing {
  import opened Powers
  import opened Sets
  import opened BitTricks
  import opened RobinHood
  import opened FlatHashTable

  // ----- The multiplier -----

  /** Odd, and 2^64 divided by the golden ratio, rounded down. */
  lemma GoldenMultiplier()
    ensures FIBONACCI % 2 == 1
    ensures FIBONACCI * (FIBONACCI + WORD) < WORD * WORD < (FIBONACCI + 1) * (FIBONACCI + 1 + WORD)
    ensures WORD == 0x1_0000_0000_0000_0000 == Pow2(64)
  {
    PowersOfWord();
  }

  /** The home bucket is bits [shift, 64) of the product with the multiplier. */
  lemma HomeIsProductBits(h: nat, shift: nat) returns (over: nat, low: nat)
    requires shift <= 64
    ensures FIBONACCI * h == over * Pow2(64) + Home(h, shift) * Pow2(shift) + low
    ensures low < Pow2(shift) && Home(h, shift) < Pow2(64 - shift)
  {
    HomeInRange(h, shift);
    Positive(64);
    Positive(shift);
    over, low := SplitTwice(FIBONACCI * h, Pow2(64), Pow2(shift));
  }

  lemma SplitTwice(x: nat, m: nat, d: nat) returns (over: nat, low: nat)
    requires m > 0 && d > 0
    ensures x == over * m + x % m / d * d + low && low < d
  {
    over, low := x / m, x % m % d;
    var rest := x % m;
    assert x == x / m * m + rest;
    assert rest == rest / d * d + rest % d;
  }

  // ----- Every bucket is home to equally many hashes -----

  /** The inverse of the multiplier modulo 2^64; it has one because it is odd. */
  const INVERSE: nat := 17428512612931826493

  function Undone(x: nat): nat {
    INVERSE * x % WORD
  }

  lemma UndoneIsInverse(x: nat)
    requires x < WORD
    ensures Undone(x) < WORD && FIBONACCI * Undone(x) % WORD == x && Undone(FIBONACCI * x % WORD) == x
  {
    TimesBack(FIBONACCI, INVERSE, FIBONACCI * INVERSE / WORD, x);
    TimesBack(INVERSE, FIBONACCI, FIBONACCI * INVERSE / WORD, x);
  }

  lemma TimesBack(f: nat, g: nat, over: nat, x: nat)
    requires f * g == over * WORD + 1 && x < WORD
    ensures f * (g * x % WORD) % WORD == x
  {
    var y, q := g * x % WORD, g * x / WORD;
    assert g * x == q * WORD + y;
    assert f * (g * x) == f * g * x;
    assert f * (q * WORD + y) == f * q * WORD + f * y;
    assert (over * WORD + 1) * x == over * x * WORD + x;
    Remainder(f * y, over * x - f * q, x);
  }

  lemma Remainder(z: nat, over: int, x: nat)
    requires z == over * WORD + x && x < WORD
    ensures z % WORD == x
  {
  }

  ghost function UndoneRange(lo: nat, n: nat): set<nat> {
    set x | lo <= x < lo + n :: Undone(x)
  }

  lemma {:induction false} UndoneRangeSize(lo: nat, n: nat)
    requires lo + n <= WORD
    ensures |UndoneRange(lo, n)| == n
  {
    if n == 0 {
      assert UndoneRange(lo, 0) == {};
    } else {
      UndoneRangeSize(lo, n - 1);
      var last := Undone(lo + n - 1);
      assert UndoneRange(lo, n) == UndoneRange(lo, n - 1) + {last};
      UndoneIsInverse(lo + n - 1);
      forall x | lo <= x < lo + n - 1
        ensures Undone(x) != last
      {
        UndoneIsInverse(x);
      }
    }
  }

  ghost function HashesAt(bucket: nat, shift: nat): set<nat> {
    set h: nat | h < WORD && Home(h, shift) == bucket
  }

  /** Of all 64-bit hashes, the same number has its home in each of the 2^(64 - shift) buckets. */
  lemma BucketsAreEqual(bucket: nat, shift: nat)
    requires shift <= 64 && bucket < Pow2(64 - shift)
    ensures |HashesAt(bucket, shift)| == Pow2(shift)
  {
    PowersOfWord();
    Positive(shift);
    Adds(64 - shift, shift);
    hide Pow2;
    var lo, n := bucket * Pow2(shift), Pow2(shift);
    MulMonotone(bucket + 1, Pow2(64 - shift), n);
    assert (bucket + 1) * n == lo + n;
    UndoneRangeSize(lo, n);
    forall h: nat | h < WORD
      ensures Home(h, shift) == bucket <==> h in UndoneRange(lo, n)
    {
      HomeIsRange(h, bucket, shift);
      UndoneIsInverse(h);
      var y := FIBONACCI * h % WORD;
      if x :| lo <= x < lo + n && Undone(x) == h {
        UndoneIsInverse(x);
      }
    }
    forall h | h in UndoneRange(lo, n)
      ensures h < WORD
    {
      var x :| lo <= x < lo + n && Undone(x) == h;
      UndoneIsInverse(x);
    }
    assert HashesAt(bucket, shift) == UndoneRange(lo, n);
  }

  lemma HomeIsRange(h: nat, bucket: nat, shift: nat)
    requires shift <= 64
    ensures Home(h, shift) == bucket <==> bucket * Pow2(shift) <= FIBONACCI * h % WORD < bucket * Pow2(shift) + Pow2(shift)
  {
    PowersOfWord();
    Positive(shift);
    QuotientIs(FIBONACCI * h % WORD, Pow2(shift), bucket);
  }

  lemma QuotientIs(y: nat, n: nat, b: nat)
    requires n > 0
    ensures y / n == b <==> b * n <= y < b * n + n
  {
    assert y == y / n * n + y % n;
    if y / n < b {
      MulMonotone(y / n + 1, b, n);
    } else if y / n > b {
      MulMonotone(b + 1, y / n, n);
    }
  }

  // ----- Hashes that lie close together -----

  /** The norm of the ring of golden integers is never zero, by infinite descent. */
  lemma {:induction false} NormNonzero(p: int, j: nat)
    requires j > 0
    ensures p * p + p * j - j * j != 0
    decreases j
  {
    var a, r, b, s := p / 2, p % 2, j / 2, j % 2;
    assert p == 2 * a + r && j == 2 * b + s;
    if p * p + p * j - j * j == 0 {
      NormHalves(a, r, b, s);
      NormNonzero(a, b);
    }
  }

  lemma NormHalves(a: int, r: int, b: int, s: int)
    requires 0 <= r <= 1 && 0 <= s <= 1
    requires var p, j := 2 * a + r, 2 * b + s; p * p + p * j - j * j == 0
    ensures r == 0 && s == 0 && a * a + a * b - b * b == 0
  {
    var p, j := 2 * a + r, 2 * b + s;
    assert p * p + p * j - j * j == 2 * (2 * a * a + 2 * a * r + 2 * a * b + a * s + b * r - 2 * b * b - 2 * b * s) + r * r + r * s - s * s;
  }

  /** If f * j misses a multiple of m by d, the norm measures how far d is from zero. */
  lemma NormScaled(f: int, m: int, p: int, j: int, d: int)
    requires p * m == f * j - d
    ensures m * m * (p * p + p * j - j * j) == d * d - d * j * (2 * f + m) - j * j * (m * m - f * f - f * m)
  {
    NormOfMultiples(m, p, j);
    NormOfDifference(f * j, j * m, d);
    MissTimes(f, m, j, d);
    NormOfFactor(f, m, j);
  }

  lemma NormOfMultiples(m: int, p: int, j: int)
    ensures m * m * (p * p + p * j - j * j) == p * m * (p * m) + p * m * (j * m) - j * m * (j * m)
  {
    var mm := m * m;
    assert p * m * (p * m) == mm * (p * p);
    assert p * m * (j * m) == mm * (p * j);
    assert j * m * (j * m) == mm * (j * j);
  }

  lemma NormOfDifference(u: int, v: int, d: int)
    ensures (u - d) * (u - d) + (u - d) * v - v * v == d * d - d * (2 * u + v) - (v * v - u * u - u * v)
  {
    assert (u - d) * (u - d) == u * u - 2 * (d * u) + d * d;
    assert (u - d) * v == u * v - d * v;
    assert d * (2 * u + v) == 2 * (d * u) + d * v;
  }

  lemma MissTimes(f: int, m: int, j: int, d: int)
    ensures d * (2 * (f * j) + j * m) == d * j * (2 * f + m)
  {
    assert 2 * (f * j) + j * m == j * (2 * f + m);
  }

  lemma NormOfFactor(f: int, m: int, j: int)
    ensures j * m * (j * m) - f * j * (f * j) - f * j * (j * m) == j * j * (m * m - f * f - f * m)
  {
    var jj := j * j;
    assert j * m * (j * m) == jj * (m * m);
    assert f * j * (f * j) == jj * (f * f);
    assert f * j * (j * m) == jj * (f * m);
  }

  const GAP: int := WORD * WORD - FIBONACCI * FIBONACCI - FIBONACCI * WORD

  lemma AbsoluteProduct(d: int, j: nat, bound: int)
    requires -bound < d < bound && j > 0
    ensures -(bound * j) < d * j < bound * j && 0 <= d * d <= bound * bound
  {
    assert bound * j - d * j == (bound - d) * j;
    assert bound * j + d * j == (bound + d) * j;
    assert bound * bound - d * d == (bound - d) * (bound + d);
  }

  lemma SquareMonotone(a: nat, b: nat)
    requires a <= b
    ensures a * a <= b * b
  {
    MulMonotone(a, b, a);
    MulMonotone(a, b, b);
  }

  /** The product of a small factor with the multiplier stays away from the multiples of 2^64. */
  lemma FarFromWrapping(e: nat, j: nat, p: int, d: int)
    requires 3 <= e <= 30 && 0 < j && 7 * j <= 3 * Pow2(e)
    requires p * WORD == FIBONACCI * j - d
    ensures d >= Pow2(64 - e) || d + Pow2(64 - e) <= 0
  {
    hide Pow2;
    var width: int := Pow2(64 - e);
    if -width < d < width {
      WidthBounds(e, j);
      var far, squares := width * j, j * j;
      SquareMonotone(width, WORD / 8);
      SquareMonotone(j, 460175067);
      AbsoluteProduct(d, j, width);
      NormNonzero(p, j);
      NormScaled(FIBONACCI, WORD, p, j, d);
      NormIsLarge(p * p + p * j - j * j, d * j, d * d, squares, far);
    }
  }

  lemma WidthBounds(e: nat, j: nat)
    requires 3 <= e <= 30 && 7 * j <= 3 * Pow2(e)
    ensures 7 * (Pow2(64 - e) * j) <= 3 * WORD
    ensures Pow2(64 - e) <= WORD / 8 && j <= 460175067
  {
    SizesOfPowers(e);
    hide Pow2;
    ScaledBound(Pow2(e), Pow2(64 - e), j);
  }

  lemma SizesOfPowers(e: nat)
    requires 3 <= e <= 30
    ensures Pow2(e) * Pow2(64 - e) == WORD && Pow2(64 - e) <= WORD / 8 && Pow2(e) <= 0x4000_0000
  {
    PowersOfWord();
    Adds(e, 64 - e);
    Adds(3, 61);
    assert Pow2(3) == 8;
    Monotone(64 - e, 61);
    PowersOfBytes();
    Adds(24, 6);
    assert Pow2(6) == 64;
    Monotone(e, 30);
  }

  lemma ScaledBound(size: nat, width: nat, j: nat)
    requires size * width == WORD && 7 * j <= 3 * size
    ensures 7 * (width * j) <= 3 * WORD
  {
    MulMonotone(7 * j, 3 * size, width);
    assert 7 * j * width == 7 * (width * j);
    assert 3 * size * width == 3 * (size * width);
  }

  /** The scaled norm would have to be at least 2^128, and what it equals is smaller. */
  lemma NormIsLarge(norm: int, dj: int, dd: nat, jj: nat, far: int)
    requires norm != 0 && -far < dj < far && 7 * far <= 3 * WORD
    requires dd <= WORD / 8 * (WORD / 8) && jj <= 460175067 * 460175067
    ensures WORD * WORD * norm != dd - dj * (2 * FIBONACCI + WORD) - jj * GAP
  {
  }

  /** Hashes no further apart than three sevenths of the bucket count have different home buckets. */
  lemma NeighboursApart(h: nat, j: nat, e: nat)
    requires 3 <= e <= 30 && 0 < j && 7 * j <= 3 * Pow2(e)
    ensures Home(h, 64 - e) != Home(h + j, 64 - e)
  {
    PowersOfWord();
    hide Home, Pow2;
    var over, low := HomeIsProductBits(h, 64 - e);
    var over', low' := HomeIsProductBits(h + j, 64 - e);
    if Home(h, 64 - e) == Home(h + j, 64 - e) {
      var base := Home(h, 64 - e) * Pow2(64 - e);
      Difference(h, j, over, over', base, low, low');
      var lift: int, miss: int := over' as int - over as int, low' as int - low as int;
      FarFromWrapping(e, j, lift, miss);
    }
  }

  lemma Difference(h: int, j: int, over: int, over': int, base: int, low: int, low': int)
    requires FIBONACCI * h == over * WORD + base + low
    requires FIBONACCI * (h + j) == over' * WORD + base + low'
    ensures (over' - over) * WORD == FIBONACCI * j - (low' - low)
  {
  }

  // ----- Keys with neighbouring hashes fit -----

  /** Different keys have different hashes, all within `reach` of each other. */
  ghost predicate Neighbours<K>(keys: set<K>, hash: K -> nat, reach: nat) {
    forall k, q :: k in keys && q in keys && k != q ==> hash(k) != hash(q) && hash(q) <= hash(k) + reach
  }

  lemma NeighbourHomes<K>(keys: set<K>, hash: K -> nat, reach: nat, e: nat, k: K, q: K)
    requires 3 <= e <= 30 && 7 * reach <= 3 * Pow2(e)
    requires Neighbours(keys, hash, reach) && k in keys && q in keys && k != q
    ensures Home(hash(k), 64 - e) != Home(hash(q), 64 - e)
  {
    hide Home;
    if hash(k) < hash(q) {
      NeighboursApart(hash(k), hash(q) - hash(k), e);
    } else {
      NeighboursApart(hash(q), hash(k) - hash(q), e);
    }
  }

  /** Keys with different homes fill a run of buckets at most once. */
  lemma {:induction false} DifferentHomes<K>(keys: set<K>, hash: K -> nat, shift: nat, a: nat, b: nat)
    requires forall k, q :: k in keys && q in keys && k != q ==> Home(hash(k), shift) != Home(hash(q), shift)
    requires a <= b + 1
    ensures |Cluster(keys, hash, shift, a, b)| <= b + 1 - a
    decreases b
  {
    hide Home;
    var c := Cluster(keys, hash, shift, a, b);
    if a == b + 1 {
      assert c == {};
    } else {
      var last := set k | k in c && Home(hash(k), shift) == b;
      if k :| k in last {
        assert last == {k};
      }
      var rest := c - last;
      assert |c| == |rest| + |last|;
      if b == 0 {
        assert rest == {};
      } else {
        DifferentHomes(keys, hash, shift, a, b - 1);
        assert rest == Cluster(keys, hash, shift, a, b - 1);
      }
    }
  }

  /** A table with seven buckets for every three of them spreads keys with neighbouring hashes. */
  lemma NeighboursSpread<K>(keys: set<K>, hash: K -> nat, reach: nat, e: nat)
    requires 3 <= e <= 30 && 7 * reach <= 3 * Pow2(e)
    requires Neighbours(keys, hash, reach)
    ensures Spread(keys, hash, e)
  {
    hide Home, Pow2, Neighbours;
    forall k, q | k in keys && q in keys && k != q
      ensures Home(hash(k), 64 - e) != Home(hash(q), 64 - e)
    {
      NeighbourHomes(keys, hash, reach, e, k, q);
    }
    forall a: nat, b: nat | a <= b < Pow2(e)
      ensures Roomy(keys, hash, e, a, b)
    {
      DifferentHomes(keys, hash, 64 - e, a, b);
    }
  }

  /** Keys that share one hash fit a table if and only if there are no more of them than its probe bound. */
  lemma SharedHashFits<K>(keys: set<K>, hash: K -> nat, h: nat, e: nat)
    requires 1 <= e <= 63 && forall k :: k in keys ==> hash(k) == h
    ensures Spread(keys, hash, e) <==> |keys| <= if e < 4 then 4 else e
  {
    var home := Home(h, 64 - e);
    HomeInRange(h, 64 - e);
    hide Home, Pow2;
    assert Cluster(keys, hash, 64 - e, home, home) == keys;
    if |keys| <= Lookups(e) {
      forall a: nat, b: nat | a <= b < Pow2(e)
        ensures Roomy(keys, hash, e, a, b)
      {
        SubsetSize(Cluster(keys, hash, 64 - e, a, b), keys);
      }
    } else {
      assert !Roomy(keys, hash, e, home, home);
    }
  }

  // ----- Inserting consecutive integers -----

  function Identity(k: nat): nat {
    k
  }

  ghost function Integers(n: nat): map<nat, nat> {
    if n == 0 then map[] else Integers(n - 1)[n - 1 := n - 1]
  }

  lemma {:induction false} IntegersAre(n: nat)
    ensures forall k: nat :: k in Integers(n) <==> k < n
    ensures forall k: nat :: k in Integers(n) ==> Integers(n)[k] == k
  {
    if n > 0 {
      IntegersAre(n - 1);
    }
  }

  lemma IntegersNext(n: nat)
    ensures n !in Integers(n) && Integers(n + 1) == Integers(n)[n := n]
    ensures Integers(n).Keys + {n} == Integers(n + 1).Keys
  {
    IntegersAre(n);
  }

  lemma {:induction false} IntegersSize(n: nat)
    ensures |Integers(n).Keys| == n
  {
    hide *;
    if n == 0 {
      IntegersNone();
    } else {
      IntegersSize(n - 1);
      IntegersNext(n - 1);
      OneMore(Integers(n - 1).Keys, n - 1);
    }
  }

  lemma OneMore(a: set<nat>, x: nat)
    requires x !in a
    ensures |a + {x}| == |a| + 1
  {
  }

  /** The integers below n fill no more than three sevenths of 2^e buckets, and no more than the load allows. */
  ghost predicate Takes(n: nat, e: nat, load: real) {
    3 <= e <= 30 && 7 * n <= 3 * Pow2(e) && load > 0.0 && WithinLoad(n, Pow2(e), load)
  }

  lemma IntegersAdmitted(i: nat, n: nat, e: nat, load: real)
    requires i < n && Takes(n, e, load)
    ensures Admits(Integers(i).Keys + {i}, Identity, Pow2(e), load, e)
  {
    hide Pow2, Spread, WithinLoad, Integers, Neighbours;
    LoadShrinks(n, i + 1, Pow2(e), load);
    IntegersNext(i);
    IntegersSize(i + 1);
    IntegersNeighbours(i + 1, n);
    NeighboursSpread(Integers(i + 1).Keys, Identity, n, e);
  }

  lemma IntegersNeighbours(i: nat, n: nat)
    requires i <= n
    ensures Neighbours(Integers(i).Keys, Identity, n)
  {
    IntegersAre(i);
  }

  lemma IntegersNone()
    ensures Integers(0) == map[]
  {
  }

  lemma AttainedBelow(t: Table<nat, nat>, e: nat)
    requires t.Valid() && 2 <= e && t.numSlotsMinusOne + 1 <= Pow2(e)
    ensures ExponentOf(t.numSlotsMinusOne, t.shift) <= e
  {
    t.ValidIsLoose();
    t.SizesApart();
    var x := ExponentOf(t.numSlotsMinusOne, t.shift);
    if x > e {
      Monotone(e, x);
    }
  }

  /**
    With the identity as hash function, a table with room for 2^e buckets takes the integers
    below n, one after another and with every growth in between, for all n up to three sevenths
    of 2^e that its load factor allows. No insertion fails and none asks for more buckets.
  */
  method InsertIntegers(n: nat, e: nat, load: real) returns (t: Table<nat, nat>)
    requires 3 <= e <= 30 && 7 * n <= 3 * Pow2(e)
    requires load > 0.0 && WithinLoad(n, Pow2(e), load)
    ensures fresh(t) && t.Valid() && t.hash == Identity && t.limit == Pow2(e) && t.maxLoad == load
    ensures forall k: nat :: k in t.contents <==> k < n
    ensures forall k: nat :: k in t.contents ==> t.contents[k] == k
  {
    Positive(e);
    Monotone(e, 62);
    assert Takes(n, e, load);
    hide *;
    t := new Table(Identity, Pow2(e), load);
    IntegersNone();
    ExponentOfNone(t.numSlotsMinusOne, t.shift);
    InsertAll(t, n, e);
    IntegersAre(n);
  }

  /** The loop of insertions. */
  method InsertAll(t: Table<nat, nat>, n: nat, e: nat)
    requires t.Valid() && t.contents == Integers(0) && t.hash == Identity && t.limit == Pow2(e)
    requires Takes(n, e, t.maxLoad) && 2 <= e && ExponentOf(t.numSlotsMinusOne, t.shift) <= e
    modifies t, t.entries
    ensures t.Valid() && t.contents == Integers(n)
  {
    hide *;
    var i := 0;
    while i < n
      invariant 0 <= i <= n && (fresh(t.entries) || t.entries == old(t.entries))
      invariant t.Valid() && t.contents == Integers(i) && ExponentOf(t.numSlotsMinusOne, t.shift) <= e
    {
      IntegersAdmitted(i, n, e, t.maxLoad);
      InsertNext(t, i, e);
      i := i + 1;
    }
  }

  lemma ExponentOfNone(numSlotsMinusOne: nat, shift: nat)
    requires numSlotsMinusOne == 0
    ensures ExponentOf(numSlotsMinusOne, shift) == 2
  {
  }

  /** One insertion that a size of 2^e admits. */
  method InsertNext(t: Table<nat, nat>, i: nat, e: nat)
    requires t.Valid() && t.contents == Integers(i) && 2 <= e && ExponentOf(t.numSlotsMinusOne, t.shift) <= e
    requires Admits(Integers(i).Keys + {i}, t.hash, t.limit, t.maxLoad, e)
    modifies t, t.entries
    ensures fresh(t.entries) || t.entries == old(t.entries)
    ensures t.Valid() && t.contents == Integers(i + 1) && ExponentOf(t.numSlotsMinusOne, t.shift) <= e
  {
    hide *;
    IntegersNext(i);
    ghost var keys, from := Integers(i).Keys + {i}, ExponentOf(t.numSlotsMinusOne, t.shift);
    var ok, slot, inserted := t.Insert(i, i);
    assert ok;
    ReachesAdmitted(keys, t.hash, t.limit, t.maxLoad, from, t.numSlotsMinusOne + 1, e);
    AttainedBelow(t, e);
  }

  lemma ReachesAdmitted(keys: set<nat>, hash: nat -> nat, limit: nat, load: real, from: nat, attained: nat, e: nat)
    requires Reaches(keys, hash, limit, load, from, attained) && from <= e && Admits(keys, hash, limit, load, e)
    ensures attained <= Pow2(e)
  {
    hide Spread, WithinLoad;
  }
}
