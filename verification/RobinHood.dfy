/**
  The slot array of the open-addressing table, as a value.

  A table of `slots` buckets owns `slots + lookups` entries; the last one is the end mark.
  An element may sit at most `lookups - 1` places after its home bucket, and the displacement
  of neighbouring entries never rises by more than one (the Robin Hood order).
*/
module RobinHood {
  import opened Powers
  import opened Sets

  /** One slot: displacement -1 when vacant, 0 for the end mark. */
  datatype Entry<K, V> = Vacant | EndMark | Full(distance: nat, key: K, val: V) {
    function Dist(): int {
      match this
      case Vacant => -1
      case EndMark => 0
      case Full(d, _, _) => d
    }
  }

  /** The size parameters of a table: bucket count, probe bound and hash shift. */
  datatype Shape = Shape(slots: nat, lookups: nat, shift: nat)

  const FIBONACCI: nat := 11400714819323198485

  /** The bucket of a 64-bit hash: the top 64 - shift bits of the wrapped product. */
  function Home(h: nat, shift: nat): nat {
    Positive(64);
    Positive(shift);
    FIBONACCI * h % Pow2(64) / Pow2(shift)
  }

  /** The bucket is always below the committed bucket count 2^(64 - shift). */
  lemma HomeInRange(h: nat, shift: nat)
    requires shift <= 64
    ensures Home(h, shift) < Pow2(64 - shift)
  {
    Positive(64);
    ShiftBound(FIBONACCI * h % Pow2(64), 64 - shift, shift);
  }

  /** Probe bound of a table of 2^e buckets. */
  function Lookups(e: nat): nat {
    if e < 4 then 4 else e
  }

  /** The shape committed for 2^e buckets. */
  function ShapeOf(e: nat): Shape
    requires e <= 64
  {
    Shape(Pow2(e), Lookups(e), 64 - e)
  }

  /** The shape of a table that has never allocated buckets. */
  const EMPTY_SHAPE: Shape := Shape(1, 3, 63)

  ghost predicate ProperShape(g: Shape) {
    g == EMPTY_SHAPE || (1 <= g.shift <= 63 && g == ShapeOf(64 - g.shift))
  }

  lemma ShapeBounds<K>(g: Shape, hash: K -> nat, k: K)
    requires ProperShape(g)
    ensures g.slots >= 1 && g.lookups >= 3
    ensures Home(hash(k), g.shift) <= g.slots
    ensures g != EMPTY_SHAPE ==> Home(hash(k), g.shift) < g.slots && g.slots >= 2
  {
    HomeInRange(hash(k), g.shift);
    Monotone(1, 64 - g.shift);
    assert Pow2(1) == 2;
  }

  // ----- What a slot array holds, whatever its displacements -----

  ghost predicate Framed<K, V>(es: seq<Entry<K, V>>, g: Shape) {
    && |es| == g.slots + g.lookups
    && |es| > 0
    && es[|es| - 1].EndMark?
    && (forall i :: 0 <= i < |es| - 1 ==> !es[i].EndMark?)
  }

  ghost predicate Has<K, V>(es: seq<Entry<K, V>>, k: K) {
    exists i :: 0 <= i < |es| && es[i].Full? && es[i].key == k
  }

  ghost predicate Unique<K, V>(es: seq<Entry<K, V>>) {
    forall i, j :: 0 <= i < j < |es| && es[i].Full? && es[j].Full? ==> es[i].key != es[j].key
  }

  ghost predicate Holds<K, V>(es: seq<Entry<K, V>>, m: map<K, V>) {
    && (forall i :: 0 <= i < |es| && es[i].Full? ==> es[i].key in m && m[es[i].key] == es[i].val)
    && (forall k :: k in m ==> Has(es, k))
  }

  // ----- Where the elements sit -----

  ghost predicate Placed<K, V>(es: seq<Entry<K, V>>, hash: K -> nat, g: Shape) {
    forall i :: 0 <= i < |es| && es[i].Full? ==>
      && es[i].distance < g.lookups
      && Home(hash(es[i].key), g.shift) < g.slots
      && Home(hash(es[i].key), g.shift) + es[i].distance == i
  }

  ghost predicate Sloped<K, V>(es: seq<Entry<K, V>>) {
    forall i, j :: 0 <= i <= j < |es| ==> es[j].Dist() <= es[i].Dist() + (j - i)
  }

  ghost predicate Orderly<K, V>(es: seq<Entry<K, V>>, hash: K -> nat, g: Shape) {
    Framed(es, g) && Unique(es) && Placed(es, hash, g) && Sloped(es)
  }

  /** Everything in the first d places of the probe sequence is at least that far from home. */
  ghost predicate Probed<K, V>(es: seq<Entry<K, V>>, h: nat, d: nat) {
    h + d < |es| && forall j :: h <= j < h + d ==> es[j].Dist() >= j - h
  }

  /** A probe that has not stopped is still inside the array: the end mark always stops it. */
  lemma ProbeAdvances<K, V>(es: seq<Entry<K, V>>, g: Shape, h: nat, d: nat)
    requires Framed(es, g) && g.lookups >= 3 && h <= g.slots
    requires Probed(es, h, d) && es[h + d].Dist() >= d
    ensures Probed(es, h, d + 1)
    ensures es[h + d].Full?
  {
  }

  /** A probe that stops at distance d has seen the key if it is anywhere. */
  lemma ProbeComplete<K, V>(es: seq<Entry<K, V>>, hash: K -> nat, g: Shape, k: K, d: nat)
    requires Orderly(es, hash, g)
    requires var h := Home(hash(k), g.shift);
      h + d < |es| && es[h + d].Dist() < d &&
      forall j :: h <= j < h + d && es[j].Full? ==> es[j].key != k
    ensures !Has(es, k)
  {
    var h := Home(hash(k), g.shift);
    if i :| 0 <= i < |es| && es[i].Full? && es[i].key == k {
      assert h + es[i].distance == i;
      if i >= h + d {
        assert es[i].Dist() <= es[h + d].Dist() + (i - (h + d));
      }
    }
  }

  /** No probe goes further than the probe bound. */
  lemma ProbeBounded<K, V>(es: seq<Entry<K, V>>, hash: K -> nat, g: Shape, h: nat, d: nat)
    requires Orderly(es, hash, g) && g.lookups >= 3
    requires Probed(es, h, d) && h <= g.slots
    ensures d <= g.lookups
  {
    if d > 0 {
      assert es[h + d - 1].Dist() >= d - 1;
    }
  }

  ghost predicate Blank<K, V>(es: seq<Entry<K, V>>, g: Shape) {
    && |es| == g.slots + g.lookups && |es| > 0
    && forall i :: 0 <= i < |es| ==> es[i] == if i == |es| - 1 then EndMark else Vacant
  }

  /** A freshly allocated array is an orderly table of nothing. */
  lemma BlankIsEmpty<K, V>(es: seq<Entry<K, V>>, hash: K -> nat, g: Shape)
    requires Blank(es, g)
    ensures Orderly(es, hash, g) && Holds(es, map[])
  {
    hide Home;
  }

  // ----- Writing one slot -----

  /**
    Overwriting slot p, vacant or held by an element no further from home, keeps the order
    provided the slot before p is within one of the new displacement.
  */
  lemma PutOrderly<K, V>(es: seq<Entry<K, V>>, hash: K -> nat, g: Shape, p: nat, c: nat, k: K, v: V)
    requires Orderly(es, hash, g)
    requires p < |es| && !es[p].EndMark? && es[p].Dist() <= c
    requires Home(hash(k), g.shift) + c == p && c < g.lookups && Home(hash(k), g.shift) < g.slots
    requires c == 0 || (p > 0 && es[p - 1].Dist() >= c - 1)
    requires forall i :: 0 <= i < |es| && i != p && es[i].Full? ==> es[i].key != k
    ensures Orderly(es[p := Full(c, k, v)], hash, g)
  {
    var fs := es[p := Full(c, k, v)];
    forall i, j | 0 <= i <= j < |fs|
      ensures fs[j].Dist() <= fs[i].Dist() + (j - i)
    {
      assert es[j].Dist() <= es[i].Dist() + (j - i);
      if i < p == j && c > 0 {
        assert es[p - 1].Dist() <= es[i].Dist() + (p - 1 - i);
      }
    }
  }

  /** Filling a vacant slot with a new key adds exactly that pair. */
  lemma PutHolds<K, V>(es: seq<Entry<K, V>>, m: map<K, V>, p: nat, c: nat, k: K, v: V)
    requires Holds(es, m) && p < |es| && es[p].Vacant? && k !in m
    ensures Holds(es[p := Full(c, k, v)], m[k := v])
  {
    var fs := es[p := Full(c, k, v)];
    forall q | q in m[k := v]
      ensures Has(fs, q)
    {
      if q == k {
        assert fs[p].key == k;
      } else {
        var i :| 0 <= i < |es| && es[i].Full? && es[i].key == q;
        assert fs[i] == es[i];
      }
    }
  }

  // ----- The displacement chain -----

  /**
    Mid-chain, the new key sits in slot r and an older pair (ck, cv) is carried. Putting the
    carried pair back into r would give an array that holds the contents from before the call.
  */
  ghost predicate Carrying<K, V>(es: seq<Entry<K, V>>, m: map<K, V>, r: nat, k: K, ck: K, cv: V) {
    && r < |es| && es[r].Full? && es[r].key == k && k !in m
    && Holds(es[r := Full(0, ck, cv)], m)
    && Unique(es[r := Full(0, ck, cv)])
  }

  /** The first displacement starts a chain. */
  lemma CarryStart<K, V>(es: seq<Entry<K, V>>, m: map<K, V>, r: nat, d: nat, k: K, v: V)
    requires Holds(es, m) && Unique(es) && r < |es| && es[r].Full? && k !in m
    ensures Carrying(es[r := Full(d, k, v)], m, r, k, es[r].key, es[r].val)
  {
    var fs := es[r := Full(d, k, v)];
    var back := fs[r := Full(0, es[r].key, es[r].val)];
    SameItemsHold(es, back, m);
  }

  /** The carried pair is not in the array; nothing but slot r holds the new key. */
  lemma CarryAbsent<K, V>(es: seq<Entry<K, V>>, m: map<K, V>, r: nat, k: K, ck: K, cv: V)
    requires Carrying(es, m, r, k, ck, cv)
    ensures ck != k && ck in m && m[ck] == cv
    ensures forall i :: 0 <= i < |es| && es[i].Full? ==> es[i].key != ck
  {
    var back := es[r := Full(0, ck, cv)];
    assert back[r].key == ck;
    forall i | 0 <= i < |es| && es[i].Full?
      ensures es[i].key != ck
    {
      if i != r {
        assert back[i] == es[i];
      }
    }
  }

  /** Swapping the carried pair with the element of a later slot continues the chain. */
  lemma CarrySwap<K, V>(es: seq<Entry<K, V>>, m: map<K, V>, r: nat, k: K, ck: K, cv: V, p: nat, c: nat)
    requires Carrying(es, m, r, k, ck, cv)
    requires p < |es| && p != r && es[p].Full?
    ensures Carrying(es[p := Full(c, ck, cv)], m, r, k, es[p].key, es[p].val)
  {
    var back := es[r := Full(0, ck, cv)];
    var fs := es[p := Full(c, ck, cv)];
    CarryAbsent(es, m, r, k, ck, cv);
    var back' := fs[r := Full(0, es[p].key, es[p].val)];
    forall i | 0 <= i < |es|
      ensures var i' := if i == r then p else if i == p then r else i;
        back'[i].Full? == back[i'].Full? && (back[i'].Full? ==> back'[i].key == back[i'].key && back'[i].val == back[i'].val)
    {
    }
    forall q | q in m
      ensures Has(back', q)
    {
      var i :| 0 <= i < |back| && back[i].Full? && back[i].key == q;
      var i' := if i == r then p else if i == p then r else i;
      assert back'[i'].Full? && back'[i'].key == q;
    }
  }

  /** Dropping the carried pair into a vacant slot ends the chain with the new pair added. */
  lemma CarryDrop<K, V>(es: seq<Entry<K, V>>, m: map<K, V>, r: nat, k: K, ck: K, cv: V, p: nat, c: nat)
    requires Carrying(es, m, r, k, ck, cv)
    requires p < |es| && es[p].Vacant?
    ensures Holds(es[p := Full(c, ck, cv)], m[k := es[r].val])
  {
    var back := es[r := Full(0, ck, cv)];
    var fs := es[p := Full(c, ck, cv)];
    assert back[r].key == ck;
    assert fs[r] == es[r];
    forall q | q in m && q != k
      ensures Has(fs, q)
    {
      var i :| 0 <= i < |back| && back[i].Full? && back[i].key == q;
      var i' := if i == r then p else i;
      assert fs[i'].Full? && fs[i'].key == q;
    }
    forall i | 0 <= i < |fs| && fs[i].Full? && i != p && i != r
      ensures fs[i].key in m && fs[i].key != k && m[fs[i].key] == fs[i].val
    {
      assert back[i] == fs[i];
    }
  }

  /** Backing out: the carried pair takes slot r, with a displacement that need not be right. */
  lemma CarryBackOut<K, V>(es: seq<Entry<K, V>>, m: map<K, V>, r: nat, k: K, ck: K, cv: V, d: nat)
    requires Carrying(es, m, r, k, ck, cv)
    ensures Holds(es[r := Full(d, ck, cv)], m)
    ensures Unique(es[r := Full(d, ck, cv)])
  {
    SameItemsHold(es[r := Full(0, ck, cv)], es[r := Full(d, ck, cv)], m);
  }

  ghost predicate SameItems<K, V>(es: seq<Entry<K, V>>, fs: seq<Entry<K, V>>) {
    && |es| == |fs|
    && forall i :: 0 <= i < |es| ==>
         && es[i].Full? == fs[i].Full?
         && (es[i].Full? ==> es[i].key == fs[i].key && es[i].val == fs[i].val)
  }

  lemma SameItemsHold<K, V>(es: seq<Entry<K, V>>, fs: seq<Entry<K, V>>, m: map<K, V>)
    requires SameItems(es, fs) && Holds(es, m) && Unique(es)
    ensures Holds(fs, m) && Unique(fs)
  {
    forall q | q in m
      ensures Has(fs, q)
    {
      var i :| 0 <= i < |es| && es[i].Full? && es[i].key == q;
      assert fs[i].key == q;
    }
  }

  // ----- Reading an old array back in order -----

  lemma HoldsGrow<K, V>(es: seq<Entry<K, V>>, m: map<K, V>, i: nat)
    requires i < |es| && Unique(es) && Holds(es[..i], m)
    ensures es[i].Full? ==> es[i].key !in m && Holds(es[..i + 1], m[es[i].key := es[i].val])
    ensures !es[i].Full? ==> Holds(es[..i + 1], m)
  {
    var fs := es[..i + 1];
    forall q | q in m
      ensures Has(fs, q)
      ensures es[i].Full? ==> q != es[i].key
    {
      var j :| 0 <= j < |es[..i]| && es[..i][j].Full? && es[..i][j].key == q;
      assert fs[j] == es[j] == es[..i][j];
    }
    if es[i].Full? {
      assert fs[i] == es[i];
      assert Has(fs, es[i].key);
    }
    forall j | 0 <= j < i && fs[j].Full?
      ensures fs[j].key in m && m[fs[j].key] == fs[j].val
    {
      assert fs[j] == es[..i][j];
    }
  }

  lemma HoldsNothing<K, V>(es: seq<Entry<K, V>>)
    ensures Holds(es[..0], map[])
  {
  }

  lemma HoldsKey<K, V>(es: seq<Entry<K, V>>, m: map<K, V>, i: nat)
    requires Holds(es, m) && i < |es| && es[i].Full?
    ensures es[i].key in m
  {
  }

  /** An array holds at most one map. */
  lemma HoldsFunctional<K, V>(es: seq<Entry<K, V>>, m: map<K, V>, m': map<K, V>)
    requires Holds(es, m) && Holds(es, m')
    ensures m == m'
  {
    forall q | q in m.Keys + m'.Keys
      ensures q in m && q in m' && m[q] == m'[q]
    {
      assert Has(es, q);
    }
    assert m.Keys == m'.Keys;
  }

  // ----- When a set of keys fits a table of 2^e buckets -----

  ghost function Cluster<K>(keys: set<K>, hash: K -> nat, shift: nat, a: nat, b: nat): set<K> {
    set k | k in keys && a <= Home(hash(k), shift) <= b
  }

  ghost predicate Roomy<K>(keys: set<K>, hash: K -> nat, e: nat, a: nat, b: nat)
    requires e <= 64
  {
    |Cluster(keys, hash, 64 - e, a, b)| <= b - a + Lookups(e)
  }

  /** No run of buckets is the home of more keys than it and the probe bound can take. */
  ghost predicate Spread<K>(keys: set<K>, hash: K -> nat, e: nat)
    requires e <= 64
  {
    forall a: nat, b: nat :: a <= b < Pow2(e) ==> Roomy(keys, hash, e, a, b)
  }

  ghost function KeysBetween<K, V>(es: seq<Entry<K, V>>, lo: nat, hi: nat): set<K>
    requires lo <= hi <= |es|
  {
    set i | lo <= i < hi && es[i].Full? :: es[i].key
  }

  lemma {:induction false} KeysBetweenSize<K, V>(es: seq<Entry<K, V>>, lo: nat, hi: nat)
    requires lo <= hi <= |es| && Unique(es)
    ensures |KeysBetween(es, lo, hi)| <= hi - lo
    ensures (forall i :: lo <= i < hi ==> es[i].Full?) ==> |KeysBetween(es, lo, hi)| == hi - lo
  {
    if lo == hi {
      assert KeysBetween(es, lo, hi) == {};
    } else {
      KeysBetweenSize(es, lo, hi - 1);
      var rest := KeysBetween(es, lo, hi - 1);
      if es[hi - 1].Full? {
        assert es[hi - 1].key !in rest;
        assert KeysBetween(es, lo, hi) == rest + {es[hi - 1].key};
      } else {
        assert KeysBetween(es, lo, hi) == rest;
      }
    }
  }

  /** An orderly array of 2^e buckets witnesses that its keys are spread at that size. */
  lemma OrderlySpread<K, V>(es: seq<Entry<K, V>>, hash: K -> nat, e: nat, m: map<K, V>)
    requires e <= 64 && Orderly(es, hash, ShapeOf(e)) && Holds(es, m)
    ensures Spread(m.Keys, hash, e)
  {
    forall a: nat, b: nat | a <= b < Pow2(e)
      ensures Roomy(m.Keys, hash, e, a, b)
    {
      var hi := b + Lookups(e);
      var c := Cluster(m.Keys, hash, 64 - e, a, b);
      forall k | k in c
        ensures k in KeysBetween(es, a, hi)
      {
        assert Has(es, k);
      }
      SubsetSize(c, KeysBetween(es, a, hi));
      KeysBetweenSize(es, a, hi);
    }
  }

  lemma SpreadShrinks<K>(small: set<K>, big: set<K>, hash: K -> nat, e: nat)
    requires small <= big && e <= 64 && Spread(big, hash, e)
    ensures Spread(small, hash, e)
  {
    forall a: nat, b: nat | a <= b < Pow2(e)
      ensures Roomy(small, hash, e, a, b)
    {
      assert Roomy(big, hash, e, a, b);
      SubsetSize(Cluster(small, hash, 64 - e, a, b), Cluster(big, hash, 64 - e, a, b));
    }
  }

  /** The first slot of the unbroken run of elements that reaches slot h. */
  ghost function RunStart<K, V>(es: seq<Entry<K, V>>, h: nat): (a: nat)
    requires h < |es| && es[h].Full?
    requires Sloped(es) && (forall i :: 0 <= i < |es| && es[i].Full? ==> es[i].distance <= i)
    requires forall i :: 0 <= i < |es| - 1 ==> !es[i].EndMark?
    ensures a <= h && es[a].Dist() == 0
    ensures forall i :: a <= i <= h ==> es[i].Full?
  {
    if es[h].distance == 0 then h
    else
      assert es[h].Dist() <= es[h - 1].Dist() + (h - (h - 1));
      RunStart(es, h - 1)
  }

  /** Every element of a run that starts at home slot a and probes past h has its home in [a, h]. */
  lemma RunHome<K, V>(es: seq<Entry<K, V>>, hash: K -> nat, g: Shape, a: nat, h: nat, d: nat, i: nat)
    requires Orderly(es, hash, g) && Probed(es, h, d) && a <= h
    requires es[a].Dist() == 0 && (forall j :: a <= j <= h ==> es[j].Full?)
    requires a <= i < h + d
    ensures es[i].Full? && a <= Home(hash(es[i].key), g.shift) <= h
  {
    if i > h {
      assert es[i].Dist() >= i - h;
    }
    assert es[i].Dist() <= es[a].Dist() + (i - a);
  }

  /** Distinct elements in unbroken slots, all with home in [a, h], fill the cluster of [a, h]. */
  lemma RunCrowds<K, V>(es: seq<Entry<K, V>>, hash: K -> nat, shift: nat, a: nat, h: nat, hi: nat, k: K, keys: set<K>)
    requires Unique(es) && a <= h && a <= hi <= |es|
    requires forall i :: a <= i < hi ==>
      es[i].Full? && es[i].key in keys && es[i].key != k && a <= Home(hash(es[i].key), shift) <= h
    requires k in keys && a <= Home(hash(k), shift) <= h
    ensures |Cluster(keys, hash, shift, a, h)| >= hi - a + 1
  {
    var run := KeysBetween(es, a, hi);
    KeysBetweenSize(es, a, hi);
    var c := Cluster(keys, hash, shift, a, h);
    assert k !in run;
    assert run + {k} <= c;
    SubsetSize(run + {k}, c);
  }

  /** A probe that runs into the bound proves that the keys, with the new one, are crowded. */
  lemma OverflowCrowds<K, V>(es: seq<Entry<K, V>>, hash: K -> nat, e: nat, k: K, keys: set<K>)
    requires 1 <= e <= 63 && Orderly(es, hash, ShapeOf(e))
    requires Probed(es, Home(hash(k), 64 - e), Lookups(e))
    requires !Has(es, k) && k in keys
    requires forall i :: 0 <= i < |es| && es[i].Full? ==> es[i].key in keys
    ensures !Spread(keys, hash, e)
  {
    hide Home;
    var h, d := Home(hash(k), 64 - e), Lookups(e);
    HomeInRange(hash(k), 64 - e);
    assert es[h].Dist() >= 0;
    var a := RunStart(es, h);
    forall i | a <= i < h + d
      ensures es[i].Full? && a <= Home(hash(es[i].key), 64 - e) <= h
    {
      RunHome(es, hash, ShapeOf(e), a, h, d, i);
    }
    RunCrowds(es, hash, 64 - e, a, h, h + d, k, keys);
    assert !Roomy(keys, hash, e, a, h);
  }

  // ----- The chain, step by step -----

  /**
    The displacement loop at slot p: the array is an orderly table of everything but the pair
    (ck, cv), which is c places from home at p and belongs here or later.
  */
  ghost predicate ChainAt<K, V>(es: seq<Entry<K, V>>, hash: K -> nat, g: Shape, m: map<K, V>,
                                r: nat, k: K, v: V, p: nat, c: nat, ck: K, cv: V)
  {
    && Orderly(es, hash, g) && Carrying(es, m, r, k, ck, cv)
    && r < |es| && es[r].Full? && es[r].key == k && es[r].val == v
    && r < p < |es| - 1 && 1 <= c < g.lookups
    && Home(hash(ck), g.shift) + c == p && Home(hash(ck), g.shift) < g.slots
    && es[p].Dist() <= c && es[p - 1].Dist() >= c - 1
  }

  lemma ChainStart<K, V>(es: seq<Entry<K, V>>, hash: K -> nat, g: Shape, m: map<K, V>, r: nat, d: nat, k: K, v: V)
    requires Orderly(es, hash, g) && Holds(es, m) && k !in m
    requires r < |es| && es[r].Full? && es[r].Dist() < d < g.lookups
    requires Home(hash(k), g.shift) + d == r && Home(hash(k), g.shift) < g.slots
    requires Probed(es, r - d, d)
    ensures ChainAt(es[r := Full(d, k, v)], hash, g, m, r, k, v, r + 1, es[r].distance + 1, es[r].key, es[r].val)
  {
    hide Home;
    forall i | 0 <= i < |es| && i != r && es[i].Full?
      ensures es[i].key != k
    {
    }
    assert es[r - 1].Dist() >= d - 1;
    PutOrderly(es, hash, g, r, d, k, v);
    CarryStart(es, m, r, d, k, v);
    assert es[r + 1].Dist() <= es[r].Dist() + (r + 1 - r);
  }

  lemma ChainSwap<K, V>(es: seq<Entry<K, V>>, hash: K -> nat, g: Shape, m: map<K, V>,
                        r: nat, k: K, v: V, p: nat, c: nat, ck: K, cv: V)
    requires ChainAt(es, hash, g, m, r, k, v, p, c, ck, cv)
    requires es[p].Full? && es[p].Dist() < c
    ensures ChainAt(es[p := Full(c, ck, cv)], hash, g, m, r, k, v, p + 1, es[p].distance + 1, es[p].key, es[p].val)
  {
    hide Home, Holds, Unique;
    CarryAbsent(es, m, r, k, ck, cv);
    PutOrderly(es, hash, g, p, c, ck, cv);
    CarrySwap(es, m, r, k, ck, cv, p, c);
    assert es[p + 1].Dist() <= es[p].Dist() + (p + 1 - p);
  }

  lemma ChainSkip<K, V>(es: seq<Entry<K, V>>, hash: K -> nat, g: Shape, m: map<K, V>,
                        r: nat, k: K, v: V, p: nat, c: nat, ck: K, cv: V)
    requires ChainAt(es, hash, g, m, r, k, v, p, c, ck, cv)
    requires es[p].Dist() >= c && c + 1 < g.lookups
    ensures ChainAt(es, hash, g, m, r, k, v, p + 1, c + 1, ck, cv)
  {
    hide Home, Carrying, Unique;
    assert es[p + 1].Dist() <= es[p].Dist() + (p + 1 - p);
  }

  lemma ChainDrop<K, V>(es: seq<Entry<K, V>>, hash: K -> nat, g: Shape, m: map<K, V>,
                        r: nat, k: K, v: V, p: nat, c: nat, ck: K, cv: V)
    requires ChainAt(es, hash, g, m, r, k, v, p, c, ck, cv)
    requires es[p].Vacant?
    ensures Orderly(es[p := Full(c, ck, cv)], hash, g)
    ensures Holds(es[p := Full(c, ck, cv)], m[k := v])
  {
    hide Home, Holds, Unique;
    CarryAbsent(es, m, r, k, ck, cv);
    PutOrderly(es, hash, g, p, c, ck, cv);
    CarryDrop(es, m, r, k, ck, cv, p, c);
  }

  /** The abandoned chain: every old pair is back in the array, slot r keeps its displacement. */
  lemma ChainBackOut<K, V>(es: seq<Entry<K, V>>, hash: K -> nat, g: Shape, m: map<K, V>,
                           r: nat, k: K, v: V, p: nat, c: nat, ck: K, cv: V)
    requires ChainAt(es, hash, g, m, r, k, v, p, c, ck, cv)
    ensures var fs := es[r := Full(es[r].distance, ck, cv)];
      Framed(fs, g) && Holds(fs, m) && Unique(fs)
  {
    hide Home, Holds, Unique, Placed, Sloped;
    CarryBackOut(es, m, r, k, ck, cv, es[r].distance);
  }

  /** A chain that reaches the probe bound proves the keys crowded, whoever is carried by then. */
  lemma ChainOverflow<K, V>(es: seq<Entry<K, V>>, hash: K -> nat, e: nat, m: map<K, V>,
                            r: nat, k: K, v: V, p: nat, c: nat, ck: K, cv: V)
    requires 1 <= e <= 63 && ChainAt(es, hash, ShapeOf(e), m, r, k, v, p, c, ck, cv)
    requires es[p].Dist() >= c && c + 1 == Lookups(e)
    ensures !Spread(m.Keys + {k}, hash, e)
  {
    hide Home, Unique, Placed;
    CarryAbsent(es, m, r, k, ck, cv);
    var h := p - c;
    forall j | h <= j < h + Lookups(e)
      ensures es[j].Dist() >= j - h
    {
      assert es[p].Dist() <= es[j].Dist() + (p - j);
    }
    forall i | 0 <= i < |es| && es[i].Full?
      ensures es[i].key in m.Keys + {k}
    {
      if i != r {
        assert es[r := Full(0, ck, cv)][i] == es[i];
      }
    }
    OverflowCrowds(es, hash, e, ck, m.Keys + {k});
  }

  // ----- Erasing -----

  /** Vacating an occupied slot removes exactly its key. */
  lemma VacateHolds<K, V>(es: seq<Entry<K, V>>, m: map<K, V>, i: nat)
    requires Holds(es, m) && Unique(es) && i < |es| && es[i].Full?
    ensures Holds(es[i := Vacant], m - {es[i].key}) && Unique(es[i := Vacant])
  {
    var fs := es[i := Vacant];
    forall q | q in m - {es[i].key}
      ensures Has(fs, q)
    {
      var j :| 0 <= j < |es| && es[j].Full? && es[j].key == q;
      assert fs[j] == es[j];
    }
  }

  /** The array with the slots of [b, e) vacated. */
  ghost function Vacated<K, V>(es: seq<Entry<K, V>>, b: nat, e: nat): (fs: seq<Entry<K, V>>)
    requires b <= e <= |es|
    ensures |fs| == |es|
  {
    seq(|es|, i requires 0 <= i < |es| => if b <= i < e then Vacant else es[i])
  }

  lemma VacatedNext<K, V>(es: seq<Entry<K, V>>, b: nat, e: nat)
    requires b <= e < |es|
    ensures Vacated(es, b, e)[e] == es[e]
    ensures Vacated(es, b, e + 1) == Vacated(es, b, e)[e := Vacant]
    ensures es[e].Vacant? ==> Vacated(es, b, e + 1) == Vacated(es, b, e)
  {
  }

  lemma VacatedNone<K, V>(es: seq<Entry<K, V>>, b: nat)
    requires b <= |es|
    ensures Vacated(es, b, b) == es
  {
  }

  /** Moving an element to a vacant slot, at any displacement, keeps what the array holds. */
  lemma MoveHolds<K, V>(es: seq<Entry<K, V>>, m: map<K, V>, t: nat, i: nat, d: nat)
    requires Holds(es, m) && Unique(es) && t < i < |es| && es[i].Full? && es[t].Vacant?
    ensures var fs := es[t := Full(d, es[i].key, es[i].val)][i := Vacant];
      Holds(fs, m) && Unique(fs)
  {
    var fs := es[t := Full(d, es[i].key, es[i].val)][i := Vacant];
    forall q | q in m
      ensures Has(fs, q)
    {
      var j :| 0 <= j < |es| && es[j].Full? && es[j].key == q;
      var j' := if j == i then t else j;
      assert fs[j'].Full? && fs[j'].key == q;
    }
  }

  ghost predicate SlopedIn<K, V>(es: seq<Entry<K, V>>, lo: nat, hi: nat)
    requires hi <= |es|
  {
    forall i, j :: lo <= i <= j < hi ==> es[j].Dist() <= es[i].Dist() + (j - i)
  }

  /**
    The backward shift at slot `it`: both sides are orderly, and if the element at `it` is away
    from home it can move back mv places, into a vacant slot that continues the order.
  */
  ghost predicate ShiftAt<K, V>(es: seq<Entry<K, V>>, hash: K -> nat, g: Shape, it: nat, mv: nat) {
    && Framed(es, g) && Unique(es) && Placed(es, hash, g)
    && 0 < it < |es| && SlopedIn(es, 0, it) && SlopedIn(es, it, |es|)
    && (es[it].Dist() > 0 ==>
          && 1 <= mv <= it && mv <= es[it].Dist()
          && (forall j :: it - mv <= j < it ==> es[j].Vacant?)
          && (mv == es[it].Dist() || (mv < it && es[it - mv - 1].Dist() >= es[it].Dist() - mv - 1)))
  }

  /** When the element at `it` is at home, or there is none, the whole array is orderly. */
  lemma ShiftDone<K, V>(es: seq<Entry<K, V>>, hash: K -> nat, g: Shape, it: nat, mv: nat)
    requires ShiftAt(es, hash, g, it, mv) && es[it].Dist() <= 0
    ensures Orderly(es, hash, g)
  {
    hide Home, Placed, Unique, Framed;
    forall i, j | 0 <= i <= j < |es|
      ensures es[j].Dist() <= es[i].Dist() + (j - i)
    {
      if i < it <= j {
        assert es[j].Dist() <= es[it].Dist() + (j - it);
      }
    }
  }

  /** The vacated array, with the prefix up to slot t + mv already in order, after one move. */
  lemma ShiftSlope<K, V>(es: seq<Entry<K, V>>, it: nat, mv: nat, d: nat, k: K, v: V)
    requires it < |es| && 1 <= mv <= it && SlopedIn(es, 0, it)
    requires forall j :: it - mv <= j < it ==> es[j].Vacant?
    requires d == 0 || (mv < it && es[it - mv - 1].Dist() >= d - 1)
    ensures SlopedIn(es[it - mv := Full(d, k, v)][it := Vacant], 0, it + 1)
  {
    var t := it - mv;
    var fs := es[t := Full(d, k, v)][it := Vacant];
    forall i, j | 0 <= i <= j < it + 1
      ensures fs[j].Dist() <= fs[i].Dist() + (j - i)
    {
      if i < t == j && d > 0 {
        assert es[t - 1].Dist() <= es[i].Dist() + (t - 1 - i);
      }
    }
  }

  function Min(a: int, b: int): int {
    if a < b then a else b
  }

  /** Moving an element back by at most its displacement leaves it at the right displacement. */
  lemma MovePlaced<K, V>(es: seq<Entry<K, V>>, hash: K -> nat, g: Shape, mv: nat, i: nat)
    requires Framed(es, g) && Unique(es) && Placed(es, hash, g)
    requires i < |es| && es[i].Full? && 1 <= mv <= es[i].distance && es[i - mv].Vacant?
    ensures var fs := es[i - mv := Full(es[i].distance - mv, es[i].key, es[i].val)][i := Vacant];
      Framed(fs, g) && Unique(fs) && Placed(fs, hash, g)
  {
    hide Home;
  }

  /** One move of the backward shift, with the shift amount for the next slot. */
  lemma ShiftStep<K, V>(es: seq<Entry<K, V>>, hash: K -> nat, g: Shape, it: nat, mv: nat, mv': nat)
    requires ShiftAt(es, hash, g, it, mv) && es[it].Dist() > 0
    requires it + 1 < |es| && es[it + 1].Dist() > 0 ==> mv' == Min(es[it + 1].Dist(), mv)
    ensures es[it].Full? && it + 1 < |es| && es[it - mv].Vacant?
    ensures ShiftAt(es[it - mv := Full(es[it].distance - mv, es[it].key, es[it].val)][it := Vacant], hash, g, it + 1, mv')
  {
    hide Home, Unique, Placed;
    var fs := es[it - mv := Full(es[it].distance - mv, es[it].key, es[it].val)][it := Vacant];
    MovePlaced(es, hash, g, mv, it);
    ShiftSlope(es, it, mv, es[it].distance - mv, es[it].key, es[it].val);
    assert es[it + 1].Dist() <= es[it].Dist() + (it + 1 - it);
    ShiftRest(es, fs, it);
  }

  lemma ShiftRest<K, V>(es: seq<Entry<K, V>>, fs: seq<Entry<K, V>>, it: nat)
    requires it < |es| == |fs| && SlopedIn(es, it, |es|)
    requires forall i :: it < i < |es| ==> fs[i] == es[i]
    ensures SlopedIn(fs, it + 1, |fs|)
  {
    forall i, j | it + 1 <= i <= j < |fs|
      ensures fs[j].Dist() <= fs[i].Dist() + (j - i)
    {
      assert es[j].Dist() <= es[i].Dist() + (j - i);
    }
  }

  /** Vacating [b, e) of an orderly array sets up the backward shift at e. */
  lemma ShiftStart<K, V>(es: seq<Entry<K, V>>, hash: K -> nat, g: Shape, b: nat, e: nat, mv: nat)
    requires Orderly(es, hash, g) && b < e < |es|
    requires es[e].Dist() > 0 ==> mv == Min(es[e].Dist(), e - b)
    ensures ShiftAt(Vacated(es, b, e), hash, g, e, mv)
  {
    hide Home;
    if es[e].Dist() > 0 && mv < es[e].Dist() {
      assert es[e].distance <= e;
      assert es[e].Dist() <= es[b - 1].Dist() + (e - (b - 1));
    }
  }
}
