/**
  The Robin Hood hash table: lookup, insertion with displacement chains, growth and erasure,
  as a class over its slot array, proved against a plain map.

  Allocation is explicit: `limit` is the largest bucket count the allocator serves, and an
  operation that needs more returns ok == false where the library throws.
*/
module FlatHashTable {
  import opened Powers
  import opened Sets
  import opened BitTricks
  import opened RobinHood

  /** n elements in that many buckets respect the maximum load factor. */
  predicate WithinLoad(n: nat, buckets: nat, load: real) {
    n as real <= buckets as real * load
  }

  lemma LoadShrinks(n: nat, n': nat, buckets: nat, load: real)
    requires n' <= n && WithinLoad(n, buckets, load)
    ensures WithinLoad(n', buckets, load)
  {
  }

  lemma EmptyWithinLoad(buckets: nat, load: real)
    requires load > 0.0
    ensures WithinLoad(0, buckets, load)
  {
    RealMonotone(0.0, buckets as real, load);
  }

  /** ceil(n / load): the buckets that n elements need. */
  function BucketsFor(n: nat, load: real): (b: nat)
    requires load > 0.0
    ensures n == 0 <==> b == 0
  {
    var q := n as real / load;
    QuotientSign(n, load);
    if q.Floor as real == q then q.Floor else q.Floor + 1
  }

  lemma QuotientSign(n: nat, load: real)
    requires load > 0.0
    ensures n as real / load >= 0.0
    ensures n > 0 ==> n as real / load > 0.0
  {
    var q := n as real / load;
    assert q * load == n as real;
  }

  /** Some bucket count is enough for n elements exactly when it is at least BucketsFor. */
  lemma BucketsForIsCeiling(n: nat, load: real, s: nat)
    requires load > 0.0
    ensures BucketsFor(n, load) <= s <==> n as real <= s as real * load
    ensures BucketsFor(n, load) <= s <==> WithinLoad(n, s, load)
  {
    var q := n as real / load;
    var b := BucketsFor(n, load);
    QuotientTimes(n, load);
    assert q <= b as real < q + 1.0;
    if b <= s {
      RealMonotone(q, s as real, load);
    } else {
      assert (s + 1) as real <= b as real;
      RealStrict(s as real, q, load);
    }
  }

  lemma QuotientTimes(n: nat, load: real)
    requires load > 0.0
    ensures n as real / load * load == n as real
  {
  }

  lemma RealMonotone(a: real, b: real, c: real)
    requires a <= b && c > 0.0
    ensures a * c <= b * c
  {
    assert (b - a) * c >= 0.0;
  }

  lemma RealStrict(a: real, b: real, c: real)
    requires a < b && c > 0.0
    ensures a * c < b * c
  {
    assert (b - a) * c > 0.0;
  }

  /** 2^e buckets can be allocated, respect the load factor for these keys, and spread them. */
  ghost predicate Admits<K>(keys: set<K>, hash: K -> nat, limit: nat, load: real, e: nat) {
    && 1 <= e <= 62 && Pow2(e) <= limit
    && WithinLoad(|keys|, Pow2(e), load)
    && Spread(keys, hash, e)
  }

  /**
    Growth does not help keys that share one hash: 63 of them fit no table, so an insertion
    that would make that many cannot succeed.
  */
  lemma SharedHashNeverAdmitted<K>(keys: set<K>, hash: K -> nat, h: nat, limit: nat, load: real, e: nat)
    requires forall k :: k in keys ==> hash(k) == h
    requires |keys| >= 63
    ensures !Admits(keys, hash, limit, load, e)
  {
    if 1 <= e <= 62 {
      var a := Home(h, 64 - e);
      HomeInRange(h, 64 - e);
      assert Cluster(keys, hash, 64 - e, a, a) == keys;
      assert !Roomy(keys, hash, e, a, a);
    }
  }

  lemma AdmitsShrinks<K>(small: set<K>, big: set<K>, hash: K -> nat, limit: nat, load: real, e: nat)
    requires small <= big && Admits(big, hash, limit, load, e)
    ensures Admits(small, hash, limit, load, e)
  {
    SpreadShrinks(small, big, hash, e);
    SubsetSize(small, big);
  }

  /**
    The promise about growth: no admissible size from 2^from on is smaller than the size
    attained. An operation that fails attains a size the allocator cannot serve, so then no
    size at all is admissible.
  */
  ghost predicate Reaches<K>(keys: set<K>, hash: K -> nat, limit: nat, load: real, from: nat, attained: nat) {
    forall e: nat :: from <= e && Admits(keys, hash, limit, load, e) ==> attained <= Pow2(e)
  }

  function Attained(ok: bool, slots: nat, limit: nat): nat {
    if ok then slots else limit + 1
  }

  lemma PowerOverOne(e: nat)
    requires e >= 1
    ensures Pow2(e) >= 2
  {
    Monotone(1, e);
    assert Pow2(1) == 2;
  }

  lemma GeometryOf(g: Shape)
    requires ProperShape(g) && g != EMPTY_SHAPE
    ensures 1 <= 64 - g.shift <= 63 && g == ShapeOf(64 - g.shift) && g.slots >= 2
  {
    PowerOverOne(64 - g.shift);
  }

  /** Growth is called for: no size from 2^from below 2^next admits the keys. */
  ghost predicate MustGrow<K>(keys: set<K>, hash: K -> nat, limit: nat, load: real, from: nat, next: nat) {
    forall e: nat :: from <= e && Admits(keys, hash, limit, load, e) ==> next <= e
  }

  lemma OverloadMustGrow<K>(keys: set<K>, hash: K -> nat, limit: nat, load: real, e: nat)
    requires !WithinLoad(|keys|, Pow2(e), load)
    ensures MustGrow(keys, hash, limit, load, e, e + 1)
  {
    hide WithinLoad, Spread;
  }

  lemma CrowdedMustGrow<K>(keys: set<K>, hash: K -> nat, limit: nat, load: real, e: nat)
    requires e <= 64 && !Spread(keys, hash, e)
    ensures MustGrow(keys, hash, limit, load, e, e + 1)
  {
    hide WithinLoad, Spread;
  }

  lemma NotAtEnd<K, V>(es: seq<Entry<K, V>>, hash: K -> nat, g: Shape, k: K, d: nat)
    requires ProperShape(g) && g != EMPTY_SHAPE && Framed(es, g) && d < g.lookups
    ensures Home(hash(k), g.shift) + d < |es| && !es[Home(hash(k), g.shift) + d].EndMark?
  {
    ShapeBounds(g, hash, k);
    hide Home, ProperShape;
  }

  /** Rehashing to a requested bucket count attains no more than every admissible size above it. */
  ghost predicate ReachesSize<K>(keys: set<K>, hash: K -> nat, limit: nat, load: real, numBuckets: nat, attained: nat) {
    forall e: nat :: numBuckets <= Pow2(e) && Admits(keys, hash, limit, load, e) ==> attained <= Pow2(e)
  }

  /** 2^target is the size a rehash commits to: at most every admissible size above the request. */
  ghost predicate Targets<K>(keys: set<K>, hash: K -> nat, limit: nat, load: real, numBuckets: nat, target: nat) {
    forall e: nat :: numBuckets <= Pow2(e) && Admits(keys, hash, limit, load, e) ==> target <= e
  }

  lemma TargetReached<K>(keys: set<K>, hash: K -> nat, limit: nat, load: real, numBuckets: nat, target: nat)
    requires Targets(keys, hash, limit, load, numBuckets, target)
    ensures ReachesSize(keys, hash, limit, load, numBuckets, Pow2(target))
    ensures Pow2(target) > limit ==> ReachesSize(keys, hash, limit, load, numBuckets, limit + 1)
    ensures ReachesSize(keys, hash, limit, load, numBuckets, 1)
  {
    hide Spread, WithinLoad;
    forall e: nat | numBuckets <= Pow2(e) && Admits(keys, hash, limit, load, e)
      ensures 1 <= Pow2(e) && Pow2(target) <= Pow2(e)
    {
      Positive(e);
      Monotone(target, e);
    }
  }

  lemma TargetPassed<K>(keys: set<K>, hash: K -> nat, limit: nat, load: real, numBuckets: nat, target: nat, attained: nat)
    requires Targets(keys, hash, limit, load, numBuckets, target)
    requires Reaches(keys, hash, limit, load, target, attained)
    ensures ReachesSize(keys, hash, limit, load, numBuckets, attained)
  {
    hide Spread, WithinLoad, Pow2;
  }

  lemma SizeReaches<K>(keys: set<K>, hash: K -> nat, limit: nat, load: real, next: nat, attained: nat)
    requires ReachesSize(keys, hash, limit, load, Pow2(next), attained)
    ensures Reaches(keys, hash, limit, load, next, attained)
  {
    hide Spread, WithinLoad;
    forall e: nat | next <= e && Admits(keys, hash, limit, load, e)
      ensures attained <= Pow2(e)
    {
      Monotone(next, e);
    }
  }

  lemma NothingAdmits<K>(keys: set<K>, hash: K -> nat, limit: nat, load: real, from: nat)
    requires Reaches(keys, hash, limit, load, from, limit + 1)
    ensures forall e: nat :: from <= e ==> !Admits(keys, hash, limit, load, e)
  {
    hide Spread, WithinLoad, Pow2;
  }

  lemma AttainedIs(ok: bool, slots: nat, limit: nat)
    ensures Attained(ok, slots, limit) == if ok then slots else limit + 1
  {
  }

  /**
    The displacement loop: carries a pair from slot to slot, swapping it with every element
    nearer to home, until a vacant slot takes it or the probe bound is hit. In the second case
    the carried pair goes back to slot r, whose displacement is then that of the new key.
  */
  method RunChain<K, V>(a: array<Entry<K, V>>, hash: K -> nat, maxLookups: nat, ghost e: nat, ghost m: map<K, V>,
                        r: nat, k: K, v: V, p0: nat, c0: nat, ck0: K, cv0: V) returns (done: bool)
    requires 1 <= e <= 63 && maxLookups == Lookups(e)
    requires ChainAt(a[..], hash, ShapeOf(e), m, r, k, v, p0, c0, ck0, cv0)
    modifies a
    ensures done ==> Orderly(a[..], hash, ShapeOf(e)) && Holds(a[..], m[k := v])
    ensures done ==> r < a.Length && a[r].Full? && a[r].key == k && a[r].val == v
    ensures !done ==> Framed(a[..], ShapeOf(e)) && Holds(a[..], m) && Unique(a[..])
    ensures !done ==> !Spread(m.Keys + {k}, hash, e)
  {
    hide Home, Pow2, Lookups, Unique, Sloped, Placed, Holds, Carrying, Spread;
    var p: nat, c: nat, ck: K, cv: V := p0, c0, ck0, cv0;
    ghost var es, g := a[..], ShapeOf(e);
    while true
      invariant a[..] == es && ChainAt(es, hash, g, m, r, k, v, p, c, ck, cv)
      decreases a.Length - p
    {
      if a[p].Vacant? {
        ChainDrop(es, hash, g, m, r, k, v, p, c, ck, cv);
        a[p] := Full(c, ck, cv);
        assert a[..] == es[p := Full(c, ck, cv)];
        return true;
      } else if a[p].Dist() < c {
        ChainSwap(es, hash, g, m, r, k, v, p, c, ck, cv);
        es := es[p := Full(c, ck, cv)];
        var next := a[p];
        a[p] := Full(c, ck, cv);
        ck, cv, c := next.key, next.val, next.distance + 1;
      } else {
        if c + 1 == maxLookups {
          ChainOverflow(es, hash, e, m, r, k, v, p, c, ck, cv);
          ChainBackOut(es, hash, g, m, r, k, v, p, c, ck, cv);
          ghost var fs := es[r := Full(es[r].distance, ck, cv)];
          a[r] := Full(a[r].distance, ck, cv);
          assert a[..] == fs;
          return false;
        }
        ChainSkip(es, hash, g, m, r, k, v, p, c, ck, cv);
        c := c + 1;
      }
      p := p + 1;
    }
  }

  /** The probe loop shared by lookup and insertion. */
  method ProbeSlots<K(==), V>(a: array<Entry<K, V>>, hash: K -> nat, ghost g: Shape, k: K, h: nat) returns (found: bool, p: nat, d: nat)
    requires Orderly(a[..], hash, g) && g.lookups >= 3 && h == Home(hash(k), g.shift) <= g.slots
    ensures p == h + d < a.Length && d <= g.lookups
    ensures found ==> a[p].Full? && a[p].key == k
    ensures !found ==> !Has(a[..], k) && a[p].Dist() < d && Probed(a[..], h, d)
  {
    hide Home, Placed, Sloped, Unique, Has;
    ghost var es := a[..];
    p, d := h, 0;
    while a[p].Dist() >= d
      invariant p == h + d < a.Length && Probed(es, h, d)
      invariant forall j :: h <= j < p && es[j].Full? ==> es[j].key != k
      decreases a.Length - p
    {
      ProbeAdvances(es, g, h, d);
      ProbeBounded(es, hash, g, h, d);
      if a[p].key == k {
        return true, p, d;
      }
      p, d := p + 1, d + 1;
    }
    ProbeComplete(es, hash, g, k, d);
    ProbeBounded(es, hash, g, h, d);
    found := false;
  }

  /** The map without some keys. */
  function Without<K, V>(m: map<K, V>, gone: set<K>): map<K, V> {
    m - gone
  }

  lemma WithoutNone<K, V>(m: map<K, V>)
    ensures Without(m, {}) == m
  {
  }

  lemma WithoutNext<K, V>(m: map<K, V>, gone: set<K>, k: K)
    ensures Without(m, gone + {k}) == Without(Without(m, gone), {k})
  {
  }

  lemma WithoutCount<K, V>(m: map<K, V>, k: K)
    requires k in m
    ensures |m| == |Without(m, {k})| + 1
  {
    assert (m - {k}).Keys == m.Keys - {k};
    assert |m.Keys| == |m.Keys - {k}| + 1;
  }

  method VacateOne<K, V>(a: array<Entry<K, V>>, i: nat, ghost m: map<K, V>)
    requires i < a.Length && a[i].Full? && Holds(a[..], m) && Unique(a[..])
    modifies a
    ensures a[..] == old(a[..])[i := Vacant]
    ensures Unique(a[..]) && Holds(a[..], Without(m, {old(a[i].key)}))
    ensures |m| == |Without(m, {old(a[i].key)})| + 1
  {
    hide Unique, Holds;
    VacateHolds(a[..], m, i);
    HoldsKey(a[..], m, i);
    WithoutCount(m, a[i].key);
    ghost var fs := a[..][i := Vacant];
    a[i] := Vacant;
    assert a[..] == fs;
  }

  /** Destroys the values of a range of slots; the map loses exactly their keys. */
  method VacateRange<K, V>(a: array<Entry<K, V>>, b: nat, e: nat, ghost m: map<K, V>) returns (count: nat)
    requires b <= e < a.Length && Holds(a[..], m) && Unique(a[..])
    requires forall i :: 0 <= i < a.Length - 1 ==> !a[..][i].EndMark?
    modifies a
    ensures a[..] == Vacated(old(a[..]), b, e)
    ensures Unique(a[..]) && Holds(a[..], Without(m, KeysBetween(old(a[..]), b, e)))
    ensures |m| == |Without(m, KeysBetween(old(a[..]), b, e))| + count
  {
    hide *;
    ghost var es := a[..];
    KeysBetweenNone(es, b);
    VacatedNone(es, b);
    WithoutNone(m);
    count := 0;
    var it := b;
    ghost var rest := m;
    while it != e
      invariant b <= it <= e && a[..] == Vacated(es, b, it)
      invariant rest == Without(m, KeysBetween(es, b, it)) && |m| == |rest| + count
      invariant Unique(a[..]) && Holds(a[..], rest)
    {
      KeysBetweenNext(es, b, it);
      VacatedNext(es, b, it);
      assert a[it] == a[..][it] == es[it];
      if a[it].Full? {
        WithoutNext(m, KeysBetween(es, b, it), a[it].key);
        ghost var k := a[it].key;
        VacateOne(a, it, rest);
        rest := Without(rest, {k});
        count := count + 1;
      } else {
        assert KeysBetween(es, b, it + 1) == KeysBetween(es, b, it);
      }
      it := it + 1;
    }
  }

  lemma KeysBetweenNone<K, V>(es: seq<Entry<K, V>>, b: nat)
    requires b <= |es|
    ensures KeysBetween(es, b, b) == {}
  {
  }

  lemma KeysBetweenNext<K, V>(es: seq<Entry<K, V>>, lo: nat, hi: nat)
    requires lo <= hi < |es|
    ensures KeysBetween(es, lo, hi + 1) == KeysBetween(es, lo, hi) + if es[hi].Full? then {es[hi].key} else {}
  {
  }

  /** The backward shift with its shrinking shift amount. */
  method ShiftBack<K, V>(a: array<Entry<K, V>>, hash: K -> nat, ghost g: Shape, ghost m: map<K, V>, it0: nat, mv0: int)
    requires Holds(a[..], m) && 0 < it0 < a.Length
    requires ShiftAt(a[..], hash, g, it0, if mv0 < 0 then 0 else mv0)
    modifies a
    ensures Orderly(a[..], hash, g) && Holds(a[..], m)
    ensures old(a[it0].Dist()) <= 0 ==> a[..] == old(a[..])
    ensures old(a[it0].Dist()) > 0 ==>
      && old(a[it0].Full?) && mv0 <= it0 && a[it0 - mv0].Full?
      && a[it0 - mv0].key == old(a[it0].key) && a[it0 - mv0].val == old(a[it0].val)
      && forall i :: 0 <= i < it0 - mv0 ==> a[i] == old(a[i])
  {
    hide Home, Unique, Holds, Placed, SlopedIn;
    var it, mv := it0, mv0;
    ghost var es := a[..];
    while a[it].Dist() > 0
      invariant it0 <= it < a.Length && a[..] == es && Holds(es, m)
      invariant ShiftAt(es, hash, g, it, if mv < 0 then 0 else mv)
      invariant it == it0 ==> mv == mv0 && es == old(a[..])
      invariant it > it0 ==> old(a[it0].Dist()) > 0
      invariant it > it0 ==> old(a[it0].Full?) && 0 < mv0 <= it0
      invariant it > it0 && a[it].Dist() > 0 ==> mv <= mv0
      invariant it > it0 ==> a[it0 - mv0].Full? && a[it0 - mv0].key == old(a[it0].key) && a[it0 - mv0].val == old(a[it0].val)
      invariant it > it0 ==> forall i :: 0 <= i < it0 - mv0 ==> a[i] == old(a[i])
      decreases a.Length - it
    {
      ghost var next := Min(es[it + 1].Dist(), mv);
      ShiftStep(es, hash, g, it, mv, if next < 0 then 0 else next);
      MoveHolds(es, m, it - mv, it, es[it].distance - mv);
      es := es[it - mv := Full(es[it].distance - mv, es[it].key, es[it].val)][it := Vacant];
      a[it - mv] := Full(a[it].distance - mv, a[it].key, a[it].val);
      a[it] := Vacant;
      it := it + 1;
      mv := Min(a[it].Dist(), mv);
    }
    ShiftDone(es, hash, g, it, if mv < 0 then 0 else mv);
  }

  /** Range erase on the slot array. */
  method EraseSpan<K, V>(a: array<Entry<K, V>>, hash: K -> nat, ghost g: Shape, ghost m: map<K, V>, b: nat, e: nat)
    returns (count: nat, r: nat)
    requires Orderly(a[..], hash, g) && Holds(a[..], m)
    requires b <= e < a.Length && !a[e].Vacant?
    modifies a
    ensures Orderly(a[..], hash, g) && Holds(a[..], Without(m, KeysBetween(old(a[..]), b, e)))
    ensures |m| == |Without(m, KeysBetween(old(a[..]), b, e))| + count
    ensures r <= e && (e == a.Length - 1 ==> r == e)
    ensures e < a.Length - 1 ==> old(a[e].Full?) && a[r].Full?
    ensures e < a.Length - 1 ==> a[r].key == old(a[e].key) && a[r].val == old(a[e].val)
    ensures forall i :: 0 <= i < b ==> a[i] == old(a[i])
    ensures forall i :: b <= i < r ==> a[i].Vacant?
  {
    hide Home, Unique, Holds, Placed, Sloped, ShiftAt, KeysBetween, Without;
    ghost var es := a[..];
    assert es[e] == a[e];
    if b == e {
      KeysBetweenNone(es, b);
      WithoutNone(m);
      return 0, b;
    }
    count := VacateRange(a, b, e, m);
    var mv := Min(a[e].Dist(), e - b);
    ShiftStart(es, hash, g, b, e, mv);
    if e == a.Length - 1 {
      ShiftDone(a[..], hash, g, e, mv);
      return count, e;
    }
    r := e - mv;
    ShiftBack(a, hash, g, Without(m, KeysBetween(es, b, e)), e, mv);
  }

  method VacateAll<K, V>(a: array<Entry<K, V>>, hash: K -> nat, ghost g: Shape, ghost m: map<K, V>)
    requires Orderly(a[..], hash, g) && Holds(a[..], m)
    modifies a
    ensures Orderly(a[..], hash, g) && Holds(a[..], map[])
  {
    hide Home, Unique, Holds, Placed, Sloped, KeysBetween;
    ghost var es := a[..];
    assert es[|es| - 1] == a[a.Length - 1];
    var count := VacateRange(a, 0, a.Length - 1, m);
    BlankIsEmpty(a[..], hash, g);
  }

  /** The committed bucket count for a request: a power of two, at least 2. */
  function SizeOver(want: nat): nat {
    var size := NextPowerOfTwo(want);
    if size < 2 then 2 else size
  }

  lemma SizeOverIsPower(want: nat) returns (e: nat)
    requires 1 <= want < WORD
    ensures 1 <= e <= 63 && SizeOver(want) == Pow2(e) && Log2(SizeOver(want)) == e
    ensures want <= Pow2(63) ==> want <= Pow2(e) && forall f: nat :: 1 <= f && want <= Pow2(f) ==> e <= f
  {
    hide NextPowerOfTwo, Log2;
    assert Pow2(1) == 2;
    e := 1;
    if want <= Pow2(63) {
      var least := NextPowerOfTwoIsLeast(want);
      if least >= 1 {
        e := least;
        Monotone(1, e);
      }
    } else {
      NextPowerOfTwoWraps(want);
    }
    Log2OfPower(e);
  }

  // ----- Carrying the growth promise through nested operations -----

  lemma ReachesHere<K>(keys: set<K>, hash: K -> nat, limit: nat, load: real, e: nat)
    ensures Reaches(keys, hash, limit, load, e, Pow2(e))
  {
    forall f: nat | e <= f
      ensures Pow2(e) <= Pow2(f)
    {
      Monotone(e, f);
    }
  }

  lemma ReachesOn<K>(small: set<K>, big: set<K>, hash: K -> nat, limit: nat, load: real,
                     from: nat, reached: nat, attained: nat)
    requires small <= big
    requires Reaches(big, hash, limit, load, from, Pow2(reached))
    requires Reaches(small, hash, limit, load, reached, attained)
    ensures Reaches(big, hash, limit, load, from, attained)
  {
    hide Spread;
    forall e: nat | from <= e && Admits(big, hash, limit, load, e)
      ensures attained <= Pow2(e)
    {
      if e < reached {
        Monotone(e, reached);
      }
      AdmitsShrinks(small, big, hash, limit, load, e);
    }
  }

  lemma ReachesGrown<K>(small: set<K>, big: set<K>, hash: K -> nat, limit: nat, load: real,
                        from: nat, next: nat, attained: nat)
    requires small <= big
    requires MustGrow(big, hash, limit, load, from, next)
    requires Reaches(small, hash, limit, load, next, attained)
    ensures Reaches(big, hash, limit, load, from, attained)
  {
    hide Spread;
    forall e: nat | from <= e && Admits(big, hash, limit, load, e)
      ensures attained <= Pow2(e)
    {
      AdmitsShrinks(small, big, hash, limit, load, e);
    }
  }

  /** The exponent of a bucket count; a table without buckets first allocates 2^2 of them. */
  function ExponentOf(numSlotsMinusOne: nat, shift: nat): nat {
    if numSlotsMinusOne == 0 then 2 else if shift > 64 then 0 else 64 - shift
  }

  /** The exponent that growing goes to. */
  function NextOf(numSlotsMinusOne: nat, shift: nat): nat {
    if numSlotsMinusOne == 0 then 2 else ExponentOf(numSlotsMinusOne, shift) + 1
  }

  /** A shape, an element count and contents that are consistent with each other and with the allocator. */
  ghost predicate SizedFor<K, V>(g: Shape, m: map<K, V>, n: nat, limit: nat, load: real) {
    && load > 0.0 && 1 <= limit <= Pow2(62)
    && ProperShape(g)
    && (g == EMPTY_SHAPE ==> m == map[])
    && (g != EMPTY_SHAPE ==> g.slots <= limit)
    && n == |m|
    && WithinLoad(n, g.slots, load)
  }

  lemma SizedShrinks<K, V>(g: Shape, m: map<K, V>, gone: set<K>, n: nat, count: nat, limit: nat, load: real)
    requires SizedFor(g, m, n, limit, load) && |m| == |Without(m, gone)| + count
    ensures count <= n && SizedFor(g, Without(m, gone), n - count, limit, load)
  {
    hide WithinLoad, ProperShape, Pow2;
    LoadShrinks(n, n - count, g.slots, load);
  }

  class Table<K(==), V> {
    const hash: K -> nat
    const limit: nat
    const maxLoad: real

    var entries: array<Entry<K, V>>
    var numSlotsMinusOne: nat
    var shift: nat
    var maxLookups: nat
    var numElements: nat

    ghost var contents: map<K, V>

    ghost function TheShape(): Shape
      reads this
    {
      Shape(numSlotsMinusOne + 1, maxLookups, shift)
    }

    /** The counters are consistent with each other and with the allocator. */
    ghost predicate Sized()
      reads this
    {
      SizedFor(TheShape(), contents, numElements, limit, maxLoad)
    }

    /** The array holds the contents, but displacements need not be right. */
    ghost predicate Loose()
      reads this, entries
    {
      Sized() && Framed(entries[..], TheShape()) && Unique(entries[..]) && Holds(entries[..], contents)
    }

    ghost predicate Valid()
      reads this, entries
    {
      Loose() && Placed(entries[..], hash, TheShape()) && Sloped(entries[..])
    }

    ghost function Room(slots: nat): nat {
      if slots > limit then 0 else limit + 1 - slots
    }

    lemma OpenValid()
      requires Valid()
      ensures Sized() && Orderly(entries[..], hash, TheShape()) && Holds(entries[..], contents)
    {
    }

    lemma CloseValid()
      requires Sized() && Orderly(entries[..], hash, TheShape()) && Holds(entries[..], contents)
      ensures Valid()
    {
    }

    lemma RoomShrinks(a: nat, b: nat)
      requires a <= b
      ensures Room(b) <= Room(a)
      ensures a < b && a <= limit ==> Room(b) < Room(a)
    {
    }

    constructor (hash: K -> nat, limit: nat, maxLoad: real)
      requires maxLoad > 0.0 && 1 <= limit <= Pow2(62)
      ensures Valid() && fresh(entries) && contents == map[] && numSlotsMinusOne == 0
      ensures this.hash == hash && this.limit == limit && this.maxLoad == maxLoad
    {
      this.hash, this.limit, this.maxLoad := hash, limit, maxLoad;
      entries := new Entry<K, V>[4](i => if i == 3 then EndMark else Vacant);
      numSlotsMinusOne, shift, maxLookups, numElements := 0, 63, 3, 0;
      contents := map[];
      new;
      hide Home, WithinLoad, Holds, Orderly, Valid;
      EmptyWithinLoad(1, maxLoad);
      BlankIsEmpty(entries[..], hash, EMPTY_SHAPE);
      CloseValid();
    }

    function BucketCount(): nat
      reads this
    {
      if numSlotsMinusOne == 0 then 0 else numSlotsMinusOne + 1
    }

    /** The bucket count that growing asks the allocator for. */
    ghost function NextSize(): nat
      reads this`numSlotsMinusOne, this`shift
    {
      Pow2(NextOf(numSlotsMinusOne, shift))
    }

    function End(): nat
      reads this
    {
      numSlotsMinusOne + maxLookups
    }

    /** Where a key is, or where the search for it stops. */
    method Probe(k: K) returns (found: bool, p: nat, d: nat)
      requires Valid()
      ensures p < entries.Length && p == Home(hash(k), shift) + d && d <= maxLookups
      ensures found ==> entries[p].Full? && entries[p].key == k && k in contents
      ensures !found ==> k !in contents && entries[p].Dist() < d && Probed(entries[..], Home(hash(k), shift), d)
    {
      hide Home, Pow2, Placed, Sloped, Unique, ProperShape, SizedFor, Framed, Probed;
      ProperHere();
      ShapeBounds(TheShape(), hash, k);
      found, p, d := ProbeSlots(entries, hash, TheShape(), k, Home(hash(k), shift));
      assert entries[p] == entries[..][p];
    }

    lemma ProperHere()
      requires Valid()
      ensures ProperShape(TheShape())
    {
    }

    /** The slot of the key, or the end when and only when the key is not in the map. */
    method Find(k: K) returns (p: nat)
      requires Valid()
      ensures p < entries.Length && (p == End() <==> k !in contents)
      ensures k in contents ==> entries[p].Full? && entries[p].key == k && entries[p].val == contents[k]
    {
      hide Home, Pow2, Unique, ProperShape;
      var found, q, d := Probe(k);
      p := if found then q else End();
    }

    /** Writes one slot of a valid table and extends the contents accordingly. */
    method Write(p: nat, d: nat, k: K, v: V)
      requires Valid() && k !in contents && TheShape() != EMPTY_SHAPE
      requires p < entries.Length && entries[p].Vacant? && p == Home(hash(k), shift) + d && d < maxLookups
      requires Probed(entries[..], Home(hash(k), shift), d)
      requires WithinLoad(numElements + 1, numSlotsMinusOne + 1, maxLoad)
      modifies this`contents, this`numElements, entries
      ensures Valid() && contents == old(contents)[k := v]
      ensures entries[p] == Full(d, k, v)
    {
      hide Home, Pow2, WithinLoad, ProperShape, Unique, Sloped;
      ghost var es, g := entries[..], TheShape();
      ShapeBounds(g, hash, k);
      forall i | 0 <= i < |es| && es[i].Full?
        ensures es[i].key != k
      {
      }
      PutOrderly(es, hash, g, p, d, k, v);
      PutHolds(es, contents, p, d, k, v);
      entries[p] := Full(d, k, v);
      numElements := numElements + 1;
      contents := contents[k := v];
      assert entries[..] == es[p := Full(d, k, v)];
    }

    /**
      The displacement loop. Either it ends in a vacant slot, or it runs into the probe bound
      and backs out, leaving every old pair in the array but one slot with a wrong displacement.
    */
    method Displace(d0: nat, p0: nat, k: K, v: V) returns (done: bool, slot: nat)
      requires Valid() && k !in contents && TheShape() != EMPTY_SHAPE
      requires p0 < entries.Length && p0 == Home(hash(k), shift) + d0 && d0 < maxLookups
      requires entries[p0].Full? && entries[p0].Dist() < d0 && Probed(entries[..], Home(hash(k), shift), d0)
      requires WithinLoad(numElements + 1, numSlotsMinusOne + 1, maxLoad)
      modifies this`contents, this`numElements, entries
      ensures done ==> Valid() && contents == old(contents)[k := v]
      ensures done ==> slot < entries.Length && entries[slot].Full? && entries[slot].key == k && entries[slot].val == v
      ensures !done ==> Loose() && contents == old(contents) && numElements == old(numElements)
      ensures !done ==> 1 <= 64 - shift <= 63 && !Spread(contents.Keys + {k}, hash, 64 - shift)
    {
      hide Home, Pow2, WithinLoad, ProperShape, Unique, Sloped, Placed, Holds, Spread, ChainAt;
      ghost var g, m, e := TheShape(), contents, 64 - shift;
      GeometryOf(g);
      ShapeBounds(g, hash, k);
      ChainStart(entries[..], hash, g, m, p0, d0, k, v);
      var first := entries[p0];
      ghost var es := entries[..];
      entries[p0] := Full(d0, k, v);
      assert entries[..] == es[p0 := Full(d0, k, v)];
      slot := p0;
      done := RunChain(entries, hash, maxLookups, e, m, slot, k, v, p0 + 1, first.distance + 1, first.key, first.val);
      if done {
        numElements, contents := numElements + 1, contents[k := v];
      }
    }

    /** The bucket count that rehashing to this request commits to. */
    ghost function TargetSize(numBuckets: nat): nat
      reads this
      requires maxLoad > 0.0
    {
      var need := BucketsFor(numElements, maxLoad);
      SizeOver(if numBuckets < need then need else numBuckets)
    }

    /** Back to the state that owns no buckets. */
    method ResetToEmptyState()
      requires Loose() && contents == map[]
      modifies this
      ensures Valid() && contents == map[] && fresh(entries) && numSlotsMinusOne == 0
    {
      hide Pow2, WithinLoad, Home, Unique, Sloped, Placed, Holds, Framed;
      entries := new Entry<K, V>[4](i => if i == 3 then EndMark else Vacant);
      numSlotsMinusOne, shift, maxLookups := 0, 63, 3;
      EmptyWithinLoad(1, maxLoad);
      BlankIsEmpty(entries[..], hash, EMPTY_SHAPE);
    }

    /** Takes an empty array of 2^e buckets; the contents are to be inserted again. */
    method Commit(ghost e: nat, size: nat, bits: nat)
      requires maxLoad > 0.0 && 1 <= limit <= Pow2(62) && size <= limit
      requires 1 <= e <= 63 && size == Pow2(e) && bits == e
      modifies this
      ensures Valid() && contents == map[] && fresh(entries)
      ensures numSlotsMinusOne > 0 && numSlotsMinusOne + 1 == size && ExponentOf(numSlotsMinusOne, shift) == e
    {
      hide Pow2, WithinLoad, Home, Unique, Sloped, Placed, Holds, Framed;
      PowerOverOne(e);
      maxLookups := if bits < 4 then 4 else bits;
      var last := size + maxLookups - 1;
      entries := new Entry<K, V>[size + maxLookups](i => if i == last then EndMark else Vacant);
      numSlotsMinusOne, shift, numElements := size - 1, 64 - bits, 0;
      contents := map[];
      EmptyWithinLoad(size, maxLoad);
      BlankIsEmpty(entries[..], hash, ShapeOf(e));
    }

    /** Inserts one of the pairs of a table being rebuilt, whose keys are `all`. */
    method ReinsertOne(k: K, v: V, ghost all: set<K>, ghost from: nat) returns (ok: bool)
      requires Valid() && numSlotsMinusOne > 0 && k !in contents && contents.Keys + {k} <= all
      requires Reaches(all, hash, limit, maxLoad, from, numSlotsMinusOne + 1)
      modifies this, entries
      ensures fresh(entries) || entries == old(entries)
      ensures ok ==> Valid() && contents == old(contents)[k := v] && numSlotsMinusOne >= old(numSlotsMinusOne)
      ensures Reaches(all, hash, limit, maxLoad, from, Attained(ok, numSlotsMinusOne + 1, limit))
      decreases Room(numSlotsMinusOne + 1), 2, 1
    {
      hide Home, Pow2, WithinLoad, Unique, Sloped, Placed, Holds, Reaches, Spread, Framed, ProperShape;
      ghost var keys, reached := contents.Keys + {k}, ExponentOf(numSlotsMinusOne, shift);
      SizesApart();
      var slot, inserted;
      ok, slot, inserted := Emplace(k, v);
      ReachesOn(keys, all, hash, limit, maxLoad, from, reached, Attained(ok, numSlotsMinusOne + 1, limit));
    }

    /** Inserts every pair of an abandoned array, destroying it as it goes. */
    method Reinsert(was: array<Entry<K, V>>, ghost m: map<K, V>) returns (ok: bool)
      requires Valid() && contents == map[] && numSlotsMinusOne > 0 && was != entries
      requires Holds(was[..], m) && Unique(was[..])
      requires was.Length > 0 && was[was.Length - 1].EndMark?
      modifies this, entries, was
      ensures fresh(entries) || entries == old(entries)
      ensures ok ==> Valid() && contents == m && numSlotsMinusOne >= old(numSlotsMinusOne)
      ensures Reaches(m.Keys, hash, limit, maxLoad, old(ExponentOf(numSlotsMinusOne, shift)), Attained(ok, numSlotsMinusOne + 1, limit))
      decreases Room(numSlotsMinusOne + 1), 3
    {
      hide *;
      ghost var es, from, start := was[..], ExponentOf(numSlotsMinusOne, shift), numSlotsMinusOne;
      StaysReached(m.Keys);
      HoldsNothing(es);
      assert es[..0] == [];
      var i := 0;
      while i != was.Length - 1
        invariant 0 <= i <= was.Length - 1
        invariant forall j :: i <= j < was.Length ==> was[j] == es[j]
        invariant Valid() && numSlotsMinusOne >= start > 0
        invariant was != entries && (fresh(entries) || entries == old(entries))
        invariant Holds(es[..i], contents) && contents.Keys <= m.Keys
        invariant Reaches(m.Keys, hash, limit, maxLoad, from, numSlotsMinusOne + 1)
      {
        HoldsGrow(es, contents, i);
        if was[i].Full? {
          HoldsKey(es, m, i);
          RoomShrinks(start + 1, numSlotsMinusOne + 1);
          ok := ReinsertOne(was[i].key, was[i].val, m.Keys, from);
          AttainedIs(ok, numSlotsMinusOne + 1, limit);
          if !ok {
            return;
          }
          was[i] := Vacant;
        }
        i := i + 1;
      }
      ok := true;
      AttainedIs(ok, numSlotsMinusOne + 1, limit);
      HoldsGrow(es, contents, i);
      assert es[..i + 1] == es;
      HoldsFunctional(es, contents, m);
    }

    /** What a rehash request commits to. */
    lemma RehashPlan(numBuckets: nat, want: nat) returns (target: nat)
      requires Loose() && numBuckets < WORD
      requires want == if numBuckets < BucketsFor(numElements, maxLoad) then BucketsFor(numElements, maxLoad) else numBuckets
      ensures SizeOver(want) == TargetSize(numBuckets)
      ensures want == 0 ==> contents == map[] && numBuckets == 0
      ensures want > 0 ==> 1 <= target <= 63 && SizeOver(want) == Pow2(target) && Log2(SizeOver(want)) == target
      ensures Targets(contents.Keys, hash, limit, maxLoad, numBuckets, target)
      ensures want > 0 && numBuckets <= Pow2(63) ==> numBuckets <= SizeOver(want)
    {
      hide Home, WithinLoad, Unique, Sloped, Placed, Holds, Spread, Framed, SizeOver, BucketsFor, Log2;
      BucketsForIsCeiling(numElements, maxLoad, numSlotsMinusOne + 1);
      PowersOfWord();
      Monotone(62, 63);
      Monotone(63, 64);
      target := 0;
      if want > 0 {
        target := SizeOverIsPower(want);
        forall e: nat | numBuckets <= Pow2(e) && Admits(contents.Keys, hash, limit, maxLoad, e)
          ensures target <= e
        {
          BucketsForIsCeiling(numElements, maxLoad, Pow2(e));
        }
      }
    }

    /** Rebuilds the table for at least the requested and the needed number of buckets. */
    method Rehash(numBuckets: nat) returns (ok: bool)
      requires Loose() && numBuckets < WORD
      requires Valid() || numSlotsMinusOne + 1 < numBuckets <= Pow2(63)
      modifies this, entries
      ensures fresh(entries) || entries == old(entries)
      ensures ok ==> Valid() && contents == old(contents)
      ensures ok && numBuckets <= Pow2(63) ==> numSlotsMinusOne + 1 >= numBuckets
      ensures ReachesSize(old(contents).Keys, hash, limit, maxLoad, numBuckets, Attained(ok, numSlotsMinusOne + 1, limit))
      ensures old(TargetSize(numBuckets)) > limit && numBuckets > 0 ==> !ok && unchanged(this) && unchanged(old(entries))
      decreases Room(TargetSize(numBuckets)), 4
    {
      hide *;
      LooseBounds();
      var need := BucketsFor(numElements, maxLoad);
      var want := if numBuckets < need then need else numBuckets;
      ghost var target := RehashPlan(numBuckets, want);
      ghost var m := contents;
      TargetReached(m.Keys, hash, limit, maxLoad, numBuckets, target);
      if want == 0 {
        ResetToEmptyState();
        ok := true;
      } else {
        var size := SizeOver(want);
        BucketCountIs();
        if size == BucketCount() {
          ok := true;
        } else if size > limit {
          ok := false;
        } else {
          var was := entries;
          Commit(target, size, Log2(size));
          ok := Reinsert(was, m);
          TargetPassed(m.Keys, hash, limit, maxLoad, numBuckets, target, Attained(ok, numSlotsMinusOne + 1, limit));
        }
      }
      AttainedIs(ok, numSlotsMinusOne + 1, limit);
    }

    /** Doubles the bucket count, or allocates the first four. Displacements may be wrong on entry. */
    method Grow() returns (ok: bool)
      requires Loose()
      modifies this, entries
      ensures fresh(entries) || entries == old(entries)
      ensures ok ==> Valid() && contents == old(contents) && numSlotsMinusOne > old(numSlotsMinusOne)
      ensures ok ==> old(NextOf(numSlotsMinusOne, shift)) <= ExponentOf(numSlotsMinusOne, shift)
      ensures Reaches(old(contents).Keys, hash, limit, maxLoad, old(NextOf(numSlotsMinusOne, shift)), Attained(ok, numSlotsMinusOne + 1, limit))
      ensures old(NextSize()) > limit ==> !ok && unchanged(this) && unchanged(old(entries))
      decreases Room(numSlotsMinusOne + 1), 0
    {
      hide *;
      GrowPlan();
      ghost var m, next := contents, NextOf(numSlotsMinusOne, shift);
      var twice := 2 * BucketCount();
      ok := Rehash(if twice < 4 then 4 else twice);
      SizeReaches(m.Keys, hash, limit, maxLoad, next, Attained(ok, numSlotsMinusOne + 1, limit));
      if ok {
        ExponentAtLeast(next);
      }
    }

    lemma ExponentAtLeast(e: nat)
      requires Valid() && numSlotsMinusOne > 0 && numSlotsMinusOne + 1 >= Pow2(e)
      ensures e <= ExponentOf(numSlotsMinusOne, shift)
    {
      hide Home, WithinLoad, Unique, Sloped, Placed, Holds, Framed;
      SizesApart();
      if ExponentOf(numSlotsMinusOne, shift) < e {
        Monotone(ExponentOf(numSlotsMinusOne, shift), e);
      }
    }

    /** Growing asks for exactly the next power of two, which is a different size from the current one. */
    lemma GrowPlan()
      requires Loose()
      ensures var request := if 2 * BucketCount() < 4 then 4 else 2 * BucketCount();
        && request == Pow2(NextOf(numSlotsMinusOne, shift))
        && numSlotsMinusOne + 1 < request <= Pow2(63) < WORD
        && Room(TargetSize(request)) < Room(numSlotsMinusOne + 1)
        && TargetSize(request) >= request == NextSize()
    {
      hide Home, WithinLoad, Unique, Sloped, Placed, Holds, Spread, Framed, SizeOver, BucketsFor, Log2, Targets;
      var e := ExponentOf(numSlotsMinusOne, shift);
      var request := if 2 * BucketCount() < 4 then 4 else 2 * BucketCount();
      PowersOfWord();
      SizesApart();
      assert Pow2(2) == 4;
      if numSlotsMinusOne > 0 {
        PowerOverOne(e);
        if e > 62 {
          Monotone(62, e);
        }
        Monotone(e + 1, 63);
      } else {
        Monotone(2, 63);
      }
      Monotone(63, 64);
      var need := BucketsFor(numElements, maxLoad);
      var want := if request < need then need else request;
      var target := RehashPlan(request, want);
      RoomShrinks(numSlotsMinusOne + 1, TargetSize(request));
    }

    method EmplaceNewKey(d: nat, p: nat, k: K, v: V) returns (ok: bool, slot: nat)
      requires Valid() && k !in contents
      requires p < entries.Length && p == Home(hash(k), shift) + d && d <= maxLookups
      requires entries[p].Dist() < d && Probed(entries[..], Home(hash(k), shift), d)
      modifies this, entries
      ensures fresh(entries) || entries == old(entries)
      ensures ok ==> Valid() && contents == old(contents)[k := v]
      ensures ok ==> slot < entries.Length && entries[slot].Full? && entries[slot].key == k && entries[slot].val == v
      ensures ok ==> numSlotsMinusOne >= old(numSlotsMinusOne)
      ensures ok ==> old(ExponentOf(numSlotsMinusOne, shift)) <= ExponentOf(numSlotsMinusOne, shift)
      ensures Reaches(old(contents).Keys + {k}, hash, limit, maxLoad, old(ExponentOf(numSlotsMinusOne, shift)), Attained(ok, numSlotsMinusOne + 1, limit))
      ensures !ok && old(NextSize()) > limit ==> Loose() && contents == old(contents)
      ensures !ok && old(NextSize()) > limit && old(numSlotsMinusOne == 0 || !WithinLoad(numElements + 1, numSlotsMinusOne + 1, maxLoad)) ==> Valid()
      decreases Room(numSlotsMinusOne + 1), 1, 1
    {
      hide *;
      ghost var keys := contents.Keys;
      if numSlotsMinusOne == 0 || d == maxLookups || !WithinLoad(numElements + 1, numSlotsMinusOne + 1, maxLoad) {
        WhyGrow(d, k);
        ValidIsLoose();
      } else {
        StaysReached(keys + {k});
        ok, slot := Place(d, p, k, v);
        if ok {
          AttainedIs(ok, numSlotsMinusOne + 1, limit);
          return;
        }
      }
      ok, slot := GrowAndEmplace(k, v);
    }

    /** Takes the vacant slot, or starts a displacement chain at an element nearer to home. */
    method Place(d: nat, p: nat, k: K, v: V) returns (done: bool, slot: nat)
      requires Valid() && k !in contents && numSlotsMinusOne > 0
      requires p < entries.Length && p == Home(hash(k), shift) + d && d < maxLookups
      requires entries[p].Dist() < d && Probed(entries[..], Home(hash(k), shift), d)
      requires WithinLoad(numElements + 1, numSlotsMinusOne + 1, maxLoad)
      modifies this`contents, this`numElements, entries
      ensures done ==> Valid() && contents == old(contents)[k := v]
      ensures done ==> slot < entries.Length && entries[slot].Full? && entries[slot].key == k && entries[slot].val == v
      ensures !done ==> Loose() && contents == old(contents)
      ensures !done ==> MustGrow(contents.Keys + {k}, hash, limit, maxLoad, ExponentOf(numSlotsMinusOne, shift), NextOf(numSlotsMinusOne, shift))
    {
      hide *;
      InsideTable(d, p, k);
      if entries[p].Vacant? {
        Write(p, d, k, v);
        return true, p;
      }
      done, slot := Displace(d, p, k, v);
      if !done {
        CrowdedHere(contents.Keys + {k});
      }
    }

    lemma CrowdedHere(keys: set<K>)
      requires numSlotsMinusOne > 0 && 1 <= 64 - shift <= 63 && !Spread(keys, hash, 64 - shift)
      ensures MustGrow(keys, hash, limit, maxLoad, ExponentOf(numSlotsMinusOne, shift), NextOf(numSlotsMinusOne, shift))
    {
      hide MustGrow, Spread;
      CrowdedMustGrow(keys, hash, limit, maxLoad, 64 - shift);
    }

    lemma InsideTable(d: nat, p: nat, k: K)
      requires Valid() && numSlotsMinusOne > 0 && d < maxLookups
      requires p < entries.Length && p == Home(hash(k), shift) + d
      ensures TheShape() != EMPTY_SHAPE && shift <= 64 && !entries[p].EndMark?
    {
      hide Home, Pow2, WithinLoad, Unique, Sloped, Placed, Holds, Framed, ProperShape;
      SizesApart();
      NotAtEnd(entries[..], hash, TheShape(), k, d);
      assert entries[p] == entries[..][p];
    }

    /** The two tail calls of an insertion that found no room. */
    method GrowAndEmplace(k: K, v: V) returns (ok: bool, slot: nat)
      requires Loose() && k !in contents
      requires MustGrow(contents.Keys + {k}, hash, limit, maxLoad, ExponentOf(numSlotsMinusOne, shift), NextOf(numSlotsMinusOne, shift))
      modifies this, entries
      ensures fresh(entries) || entries == old(entries)
      ensures ok ==> Valid() && contents == old(contents)[k := v]
      ensures ok ==> slot < entries.Length && entries[slot].Full? && entries[slot].key == k && entries[slot].val == v
      ensures ok ==> numSlotsMinusOne >= old(numSlotsMinusOne)
      ensures ok ==> old(ExponentOf(numSlotsMinusOne, shift)) <= ExponentOf(numSlotsMinusOne, shift)
      ensures Reaches(old(contents).Keys + {k}, hash, limit, maxLoad, old(ExponentOf(numSlotsMinusOne, shift)), Attained(ok, numSlotsMinusOne + 1, limit))
      ensures old(NextSize()) > limit ==> !ok && unchanged(this) && unchanged(old(entries))
      decreases Room(numSlotsMinusOne + 1), 1, 0
    {
      hide Home, Pow2, WithinLoad, Unique, Sloped, Placed, Holds, Reaches, MustGrow, Spread, Framed, ProperShape;
      ghost var keys, from, next := contents.Keys, ExponentOf(numSlotsMinusOne, shift), NextOf(numSlotsMinusOne, shift);
      slot := 0;
      ok := Grow();
      ReachesGrown(keys, keys + {k}, hash, limit, maxLoad, from, next, Attained(ok, numSlotsMinusOne + 1, limit));
      if ok {
        SizesApart();
        ghost var reached := ExponentOf(numSlotsMinusOne, shift);
        var inserted;
        ok, slot, inserted := Emplace(k, v);
        ReachesOn(keys + {k}, keys + {k}, hash, limit, maxLoad, from, reached, Attained(ok, numSlotsMinusOne + 1, limit));
      }
    }

    /** Only the table without buckets has one slot; every other has 2^ExponentOf(numSlotsMinusOne, shift) of them. */
    lemma SizesApart()
      requires Loose()
      ensures numSlotsMinusOne == 0 <==> TheShape() == EMPTY_SHAPE
      ensures numSlotsMinusOne > 0 ==> 1 <= ExponentOf(numSlotsMinusOne, shift) <= 63 && TheShape() == ShapeOf(ExponentOf(numSlotsMinusOne, shift))
    {
      if TheShape() != EMPTY_SHAPE {
        GeometryOf(TheShape());
      }
    }

    lemma LooseBounds()
      requires Loose()
      ensures maxLoad > 0.0 && 1 <= limit <= Pow2(62)
      ensures Holds(entries[..], contents) && Unique(entries[..])
      ensures BucketCount() <= limit
      ensures entries.Length > 0 && entries[entries.Length - 1].EndMark?
    {
      hide Home, WithinLoad, Unique, Holds;
      assert entries[entries.Length - 1] == entries[..][entries.Length - 1];
    }

    lemma BucketCountIs()
      ensures BucketCount() == if numSlotsMinusOne == 0 then 0 else numSlotsMinusOne + 1
    {
    }

    lemma ValidIsLoose()
      requires Valid()
      ensures Loose()
    {
    }

    /** What an occupied slot says about the contents. */
    lemma HeldIn(p: nat)
      requires Loose() && p < entries.Length && entries[p].Full?
      ensures entries[p].key in contents && contents[entries[p].key] == entries[p].val
      ensures numSlotsMinusOne > 0
    {
      assert entries[p] == entries[..][p];
      SizesApart();
    }

    lemma StaysReached(keys: set<K>)
      requires Valid()
      ensures numSlotsMinusOne > 0 ==> Reaches(keys, hash, limit, maxLoad, ExponentOf(numSlotsMinusOne, shift), numSlotsMinusOne + 1)
    {
      SizesApart();
      ReachesHere(keys, hash, limit, maxLoad, ExponentOf(numSlotsMinusOne, shift));
    }

    /** Each reason to grow rules out the current size for the keys with the new one. */
    lemma WhyGrow(d: nat, k: K)
      requires Valid() && k !in contents
      requires Probed(entries[..], Home(hash(k), shift), d)
      requires numSlotsMinusOne == 0 || d == maxLookups || !WithinLoad(numElements + 1, numSlotsMinusOne + 1, maxLoad)
      ensures MustGrow(contents.Keys + {k}, hash, limit, maxLoad, ExponentOf(numSlotsMinusOne, shift), NextOf(numSlotsMinusOne, shift))
    {
      hide Home, Pow2, WithinLoad, Unique, Sloped, Placed, Spread, Framed, ProperShape, Probed, Admits;
      SizesApart();
      if numSlotsMinusOne > 0 {
        var e := ExponentOf(numSlotsMinusOne, shift);
        if d == maxLookups {
          OverflowCrowds(entries[..], hash, e, k, contents.Keys + {k});
          CrowdedMustGrow(contents.Keys + {k}, hash, limit, maxLoad, e);
        } else {
          OverloadMustGrow(contents.Keys + {k}, hash, limit, maxLoad, e);
        }
      }
    }

    /** Inserts the pair unless the key is present, growing as often as that takes. */
    method Emplace(k: K, v: V) returns (ok: bool, slot: nat, inserted: bool)
      requires Valid()
      modifies this, entries
      ensures fresh(entries) || entries == old(entries)
      ensures ok ==> Valid() && inserted == (k !in old(contents))
      ensures ok ==> contents == if inserted then old(contents)[k := v] else old(contents)
      ensures ok ==> slot < entries.Length && entries[slot].Full? && entries[slot].key == k && entries[slot].val == contents[k]
      ensures ok ==> numSlotsMinusOne >= old(numSlotsMinusOne)
      ensures ok ==> old(ExponentOf(numSlotsMinusOne, shift)) <= ExponentOf(numSlotsMinusOne, shift)
      ensures Reaches(old(contents).Keys + {k}, hash, limit, maxLoad, old(ExponentOf(numSlotsMinusOne, shift)), Attained(ok, numSlotsMinusOne + 1, limit))
      ensures !ok && old(NextSize()) > limit ==> Loose() && contents == old(contents)
      ensures !ok && old(NextSize()) > limit && old(numSlotsMinusOne == 0 || !WithinLoad(numElements + 1, numSlotsMinusOne + 1, maxLoad)) ==> Valid()
      decreases Room(numSlotsMinusOne + 1), 2, 0
    {
      hide *;
      var found, p, d := Probe(k);
      if found {
        StaysReached(contents.Keys + {k});
        AttainedIs(true, numSlotsMinusOne + 1, limit);
        ValidIsLoose();
        HeldIn(p);
        return true, p, false;
      }
      ok, slot := EmplaceNewKey(d, p, k, v);
      inserted := true;
    }

    /** A valid table shows that its own size admits its keys. */
    lemma ValidAdmits()
      requires Valid() && numSlotsMinusOne > 0
      ensures Admits(contents.Keys, hash, limit, maxLoad, ExponentOf(numSlotsMinusOne, shift))
    {
      hide Home, WithinLoad, Spread;
      SizesApart();
      var e := ExponentOf(numSlotsMinusOne, shift);
      OrderlySpread(entries[..], hash, e, contents);
      if e > 62 {
        Monotone(62, e);
      }
    }

    /**
      Insertion, with the exact condition under which it ends: some power of two that is no
      smaller than the current bucket count, and that the allocator can serve, spreads the keys.
    */
    method Insert(k: K, v: V) returns (ok: bool, slot: nat, inserted: bool)
      requires Valid()
      modifies this, entries
      ensures fresh(entries) || entries == old(entries)
      ensures ok <==> exists e: nat :: old(ExponentOf(numSlotsMinusOne, shift)) <= e && Admits(old(contents).Keys + {k}, hash, limit, maxLoad, e)
      ensures ok ==> Reaches(old(contents).Keys + {k}, hash, limit, maxLoad, old(ExponentOf(numSlotsMinusOne, shift)), numSlotsMinusOne + 1)
      ensures ok ==> Valid() && inserted == (k !in old(contents))
      ensures ok ==> contents == if inserted then old(contents)[k := v] else old(contents)
      ensures ok ==> slot < entries.Length && entries[slot].Full? && entries[slot].key == k && entries[slot].val == contents[k]
      ensures !ok && old(NextSize()) > limit ==> Loose() && contents == old(contents)
    {
      hide *;
      ghost var keys, from := contents.Keys + {k}, ExponentOf(numSlotsMinusOne, shift);
      ok, slot, inserted := Emplace(k, v);
      AttainedIs(ok, numSlotsMinusOne + 1, limit);
      if ok {
        ValidIsLoose();
        HeldIn(slot);
        ValidAdmits();
        assert contents.Keys == keys;
      } else {
        NothingAdmits(keys, hash, limit, maxLoad, from);
      }
    }

    /**
      Single erase: vacate the slot and pull back the elements behind it that are away from home.
      The slot returned is where the following element now is, or vacant with nothing moved.
    */
    method EraseAt(p: nat) returns (r: nat)
      requires Valid() && p < entries.Length && entries[p].Full?
      modifies this`numElements, this`contents, entries
      ensures Valid() && contents == old(contents) - {old(entries[p].key)}
      ensures forall i :: 0 <= i < p ==> entries[i] == old(entries[i])
      ensures r == p && p + 1 < entries.Length
      ensures old(entries[p + 1].Dist()) <= 0 ==> entries[r].Vacant? && forall i :: p < i < entries.Length ==> entries[i] == old(entries[i])
      ensures old(entries[p + 1].Dist()) > 0 ==> old(entries[p + 1].Full?) && entries[r].Full?
      ensures old(entries[p + 1].Dist()) > 0 ==> entries[r].key == old(entries[p + 1].key) && entries[r].val == old(entries[p + 1].val)
    {
      r := p;
      hide Home, WithinLoad, ProperShape, Pow2, Unique, Holds, Placed, Sloped, ShiftAt;
      ghost var es, g, m := entries[..], TheShape(), contents;
      HeldIn(p);
      LoadShrinks(numElements, numElements - 1, numSlotsMinusOne + 1, maxLoad);
      VacateOne(entries, p, m);
      contents := Without(contents, {es[p].key});
      numElements := numElements - 1;
      ShiftStart(es, hash, g, p, p + 1, 1);
      VacatedNone(es, p);
      VacatedNext(es, p, p);
      ShiftBack(entries, hash, g, contents, p + 1, 1);
    }

    /** Erases a key if it is there. */
    method EraseKey(k: K) returns (count: nat)
      requires Valid()
      modifies this`numElements, this`contents, entries
      ensures Valid() && contents == old(contents) - {k}
      ensures count == if k in old(contents) then 1 else 0
    {
      hide *;
      var p := Find(k);
      EndIsLast();
      if p == End() {
        count := 0;
        assert contents - {k} == contents;
      } else {
        var next := EraseAt(p);
        count := 1;
      }
    }

    lemma EndIsLast()
      requires Valid()
      ensures End() == entries.Length - 1
    {
    }

    /** Range erase between two iterators; returns the slot of the first survivor after the range. */
    method EraseRange(b: nat, e: nat) returns (r: nat)
      requires Valid() && b <= e < entries.Length && !entries[e].Vacant?
      modifies this`numElements, this`contents, entries
      ensures Valid() && contents == old(contents) - KeysBetween(old(entries[..]), b, e)
      ensures r <= e && (e == entries.Length - 1 ==> r == e)
      ensures e < entries.Length - 1 ==> old(entries[e].Full?) && entries[r].Full?
      ensures e < entries.Length - 1 ==> entries[r].key == old(entries[e].key) && entries[r].val == old(entries[e].val)
      ensures forall i :: 0 <= i < b ==> entries[i] == old(entries[i])
      ensures forall i :: b <= i < r ==> entries[i].Vacant?
    {
      hide Home, WithinLoad, ProperShape, Pow2, Holds, Orderly, Valid, KeysBetween, SizedFor;
      ghost var gone := KeysBetween(entries[..], b, e);
      OpenValid();
      var count;
      count, r := EraseSpan(entries, hash, TheShape(), contents, b, e);
      SizedShrinks(TheShape(), contents, gone, numElements, count, limit, maxLoad);
      contents, numElements := Without(contents, gone), numElements - count;
      CloseValid();
    }

    /** Destroys every value and keeps the buckets. */
    method Clear()
      requires Valid()
      modifies this`numElements, this`contents, entries
      ensures Valid() && contents == map[] && numElements == 0
    {
      hide Home, WithinLoad, ProperShape, Pow2, Holds, Orderly, Valid;
      OpenValid();
      VacateAll(entries, hash, TheShape(), contents);
      numElements, contents := 0, map[];
      EmptyWithinLoad(numSlotsMinusOne + 1, maxLoad);
      CloseValid();
    }
  }
}
