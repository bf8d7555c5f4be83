/**
  The smallest case in which a discovered key does not become an input: A needs B and C, and
  both of these need D. By the time C is resolved, D has been resolved for B.
*/
module DiamondDiscovery {
  import opened Options
  import opened DependencyGraphs
  import opened GraphBuilder
  import opened ResolutionTraces
  import opened ResolutionFailures
  import opened KeyedGraphBuilder

  datatype Key = A | B | C | D

  function Needs(key: Key, pass: nat, seen: set<Key>): seq<Key> {
    match key
    case A => [B, C]
    case B => [D]
    case C => [D]
    case D => []
  }

  function Rank(key: Key): nat {
    match key
    case A => 2
    case B => 1
    case C => 1
    case D => 0
  }

  /** A record in which every key was resolved by discovery of the diamond. */
  ghost predicate OnlyDiamond<W>(s: State<Key, W>) {
    Sound(s) && forall k :: k in s.origin ==> s.origin[k].ByDiscovery? && s.origin[k].discover == Needs
  }

  /** The key is in the record, and its first pass ran at this time. */
  ghost predicate Began<W>(s: State<Key, W>, key: Key, n: nat) {
    key in s.resolved && key in s.origin && n <= |s.keyOf| && StartOf(s.origin[key]) == n
  }

  lemma FirstPass<W>(s: State<Key, W>, key: Key, n: nat)
    requires OnlyDiamond(s) && Began(s, key, n)
    ensures s.origin[key].ByDiscovery?
    ensures var passes := s.origin[key].passes;
      && Completed(Needs, key, passes, s.keyOf) && passes[0].count == n
      && passes[0].found == Unresolved(Needs(key, 0, At(s.keyOf, n)), At(s.keyOf, n)) && Named(s.keyOf, passes[0].ids, passes[0].found)
      && AllBeganThen(s.keyOf, s.origin, n, passes[0].ids)
      && EndOf(s.origin[key]) == s.resolved[key] < |s.keyOf| && s.keyOf[s.resolved[key]] == key
  {
    hide At, Unresolved, Named, AllBeganThen, AllIn, IdsOf, DirectKeys, Dependencies;
    assert Traced(s, key);
    assert RunsPass(Needs, key, s.origin[key].passes, s.keyOf, 0);
  }

  lemma PassAt<W>(s: State<Key, W>, key: Key, i: nat)
    requires key in s.origin && s.origin[key].ByDiscovery? && Passes(Needs, key, s.origin[key].passes, s.keyOf) && i < |s.origin[key].passes|
    ensures RunsPass(Needs, key, s.origin[key].passes, s.keyOf, i) && FollowsPass(s.origin[key].passes, i)
  {
  }

  /** A key that finds nothing in its first pass gets the next id and no inputs. */
  lemma OnePass<W>(s: State<Key, W>, key: Key, n: nat)
    requires OnlyDiamond(s) && Began(s, key, n) && Unresolved(Needs(key, 0, At(s.keyOf, n)), At(s.keyOf, n)) == []
    ensures s.resolved[key] == n < |s.keyOf| && s.keyOf[n] == key && DirectKeys(key, s.origin[key]) == []
  {
    hide At, Unresolved, OnlyDiamond, Needs, Passes;
    FirstPass(s, key, n);
    var passes := s.origin[key].passes;
    if |passes| > 1 {
      PassAt(s, key, 1);
      assert false;
    }
    assert passes == [passes[0]] && FoundKeys(passes[..0]) == [];
  }

  /** A key whose first pass finds something, and whose second pass finds nothing more. */
  lemma TwoPasses<W>(s: State<Key, W>, key: Key, n: nat, found: seq<Key>, ids: seq<nat>)
    requires OnlyDiamond(s) && Began(s, key, n) && found != []
    requires s.origin[key].ByDiscovery? && s.origin[key].passes != [] && s.origin[key].passes[0].found == found && s.origin[key].passes[0].ids == ids
    requires var m := Clock(n, ids); m <= |s.keyOf| && Unresolved(Needs(key, 1, At(s.keyOf, m)), At(s.keyOf, m)) == []
    ensures var m := Clock(n, ids);
      s.resolved[key] == m < |s.keyOf| && s.keyOf[m] == key && DirectKeys(key, s.origin[key]) == found
  {
    hide At, Unresolved, OnlyDiamond, Needs, Clock, Passes;
    FirstPass(s, key, n);
    var passes := s.origin[key].passes;
    assert |passes| > 1;
    PassAt(s, key, 1);
    if |passes| > 2 {
      PassAt(s, key, 2);
      assert false;
    }
    assert passes == [passes[0], passes[1]];
    assert passes[..1] == [passes[0]] && passes[..1][..0] == [];
    assert FoundKeys(passes[..1]) == found;
  }

  lemma KeyBegan<W>(s: State<Key, W>, id: nat, key: Key, n: nat)
    requires OnlyDiamond(s) && id < |s.keyOf| && s.keyOf[id] == key && n <= |s.keyOf| && Starts(s.keyOf, s.origin, id, n)
    ensures Began(s, key, n) && s.resolved[key] == id
  {
    hide StartOf;
  }

  lemma AtIs(h: seq<Key>, n: nat)
    requires n <= |h|
    ensures n == 0 ==> At(h, n) == {}
    ensures n > 0 ==> At(h, n) == At(h, n - 1) + {h[n - 1]}
  {
    if n > 0 {
      assert h[..n] == h[..n - 1] + [h[n - 1]];
    }
  }

  lemma UnresolvedOne(x: Key, seen: set<Key>)
    ensures Unresolved([x], seen) == if x in seen then [] else [x]
  {
    assert [x][..0] == [];
  }

  lemma UnresolvedTwo(x: Key, y: Key, seen: set<Key>)
    ensures Unresolved([x, y], seen) == (if x in seen then [] else [x]) + (if y in seen then [] else [y])
  {
    UnresolvedOne(x, seen);
    assert [x, y][..1] == [x];
  }

  lemma ClockOne(n: nat, id: nat)
    ensures Clock(n, []) == n && Clock(n, [id]) == Max(n, id + 1)
  {
    assert [id][..0] == [];
  }

  lemma ClockTwo(n: nat, a: nat, b: nat)
    ensures Clock(n, [a, b]) == Max(Clock(n, [a]), b + 1)
  {
    assert [a, b][..1] == [a];
  }

  /** B, resolved first, gets D as its input; they are the first two nodes. */
  lemma LeftBranch<W>(s: State<Key, W>)
    requires OnlyDiamond(s) && Began(s, B, 0)
    ensures |s.keyOf| >= 2 && s.keyOf[0] == D && s.keyOf[1] == B && D in s.resolved && s.resolved[D] == 0 && s.resolved[B] == 1
    ensures D in s.origin
    ensures DirectKeys(B, s.origin[B]) == [D] && DirectKeys(D, s.origin[D]) == []
  {
    hide OnlyDiamond, At, Unresolved, Clock, Starts, DirectKeys, StartOf, EndOf, Passes;
    AtIs(s.keyOf, 0);
    UnresolvedOne(D, {});
    FirstPass(s, B, 0);
    var ids := s.origin[B].passes[0].ids;
    assert ids == [ids[0]] && s.keyOf[ids[0]] == D;
    ClockOne(0, ids[0]);
    assert ids[..0] == [] && BeganThen(s.keyOf, s.origin, 0, ids, 0);
    KeyBegan(s, ids[0], D, 0);
    UnresolvedNone({});
    OnePass(s, D, 0);
    AtIs(s.keyOf, 1);
    UnresolvedOne(D, At(s.keyOf, 1));
    TwoPasses(s, B, 0, [D], ids);
  }

  lemma UnresolvedNone(seen: set<Key>)
    ensures Unresolved([], seen) == []
  {
  }

  /** C, resolved next, finds D resolved, and has no input. */
  lemma RightBranch<W>(s: State<Key, W>)
    requires OnlyDiamond(s) && Began(s, C, 2) && |s.keyOf| >= 2 && s.keyOf[0] == D && s.keyOf[1] == B
    ensures |s.keyOf| >= 3 && s.keyOf[2] == C && s.resolved[C] == 2 && DirectKeys(C, s.origin[C]) == []
  {
    hide OnlyDiamond, At, Unresolved, Clock, Starts, DirectKeys, StartOf, EndOf, Passes;
    AtIs(s.keyOf, 0);
    AtIs(s.keyOf, 1);
    AtIs(s.keyOf, 2);
    UnresolvedOne(D, At(s.keyOf, 2));
    OnePass(s, C, 2);
  }

  /** The whole diamond: C needs D, and D is no input of C. */
  lemma DiamondInputs<W>(s: State<Key, W>)
    requires OnlyDiamond(s) && Began(s, A, 0)
    ensures {A, B, C, D} <= s.origin.Keys
    ensures D in Needs(C, 0, {}) && DirectKeys(C, s.origin[C]) == []
    ensures DirectKeys(A, s.origin[A]) == [B, C] && DirectKeys(B, s.origin[B]) == [D] && DirectKeys(D, s.origin[D]) == []
    ensures A in s.resolved && s.resolved[A] == 3 && |s.keyOf| >= 4 && s.keyOf[..4] == [D, B, C, A]
  {
    hide OnlyDiamond, At, Unresolved, Clock, Starts, DirectKeys, StartOf, EndOf, Passes;
    AtIs(s.keyOf, 0);
    UnresolvedTwo(B, C, {});
    FirstPass(s, A, 0);
    var ids := s.origin[A].passes[0].ids;
    assert ids == [ids[0], ids[1]] && s.keyOf[ids[0]] == B && s.keyOf[ids[1]] == C;
    ClockOne(0, ids[0]);
    assert ids[..0] == [] && BeganThen(s.keyOf, s.origin, 0, ids, 0);
    KeyBegan(s, ids[0], B, 0);
    LeftBranch(s);
    assert ids[..1] == [ids[0]] && BeganThen(s.keyOf, s.origin, 0, ids, 1);
    KeyBegan(s, ids[1], C, 2);
    RightBranch(s);
    ClockTwo(0, 1, 2);
    AtIs(s.keyOf, 1);
    AtIs(s.keyOf, 2);
    AtIs(s.keyOf, 3);
    UnresolvedTwo(B, C, At(s.keyOf, 3));
    TwoPasses(s, A, 0, [B, C], ids);
  }

  lemma EdgesOf<W>(s: State<Key, W>, key: Key)
    requires OnlyDiamond(s) && key in s.resolved
    ensures key in s.origin && AllIn(DirectKeys(key, s.origin[key]), s.resolved)
    ensures Dependencies(s.edges, s.resolved[key]) == IdsOf(DirectKeys(key, s.origin[key]), s.resolved)
  {
    hide DirectKeys, Dependencies, NestedBegan, Produced, EndOf;
    assert Traced(s, key);
  }

  lemma IdIs<W>(s: State<Key, W>, key: Key, id: nat)
    requires OnlyDiamond(s) && id < |s.keyOf| && s.keyOf[id] == key
    ensures key in s.resolved && s.resolved[key] == id
  {
  }

  lemma DiamondEdges<W>(s: State<Key, W>)
    requires OnlyDiamond(s) && Began(s, A, 0)
    ensures s.resolved[A] == 3
    ensures Dependencies(s.edges, 3) == [1, 2] && Dependencies(s.edges, 1) == [0]
    ensures Dependencies(s.edges, 2) == [] && Dependencies(s.edges, 0) == []
  {
    hide OnlyDiamond, DirectKeys, Dependencies, StartOf;
    DiamondInputs(s);
    var order := s.keyOf[..4];
    assert order[0] == D && order[1] == B && order[2] == C && order[3] == A;
    IdIs(s, D, 0);
    IdIs(s, B, 1);
    IdIs(s, C, 2);
    EdgesOf(s, A);
    EdgesOf(s, B);
    EdgesOf(s, C);
    EdgesOf(s, D);
  }

  lemma DiamondIsConfined()
    ensures Confined(Needs, {A, B, C, D}) && Ranked(Needs, Rank)
  {
  }

  /** The diamond has no cycle and its build callback does not fail. */
  lemma DiamondSucceeds<W>(build: BuildFn<Key, W>, status: Status, h: seq<Key>, from: nat, to: nat)
    requires forall key :: build(key).status.Success?
    requires !status.Success?
    ensures !DiscoveryRefusal(Needs, build, {A, B, C, D}, A, {}, status, h, from, to)
  {
    hide DiscoveryRefusal, Discovers;
    DiamondIsConfined();
    if DiscoveryRefusal(Needs, build, {A, B, C, D}, A, {}, status, h, from, to) {
      var p := RankedFailsInBuild(Needs, build, {A, B, C, D}, Rank, A, status, h, from, to);
      assert false;
    }
  }

  lemma NothingYet<W>(s: State<Key, W>, t: State<Key, W>, build: BuildFn<Key, W>)
    requires Sound(s) && s.resolved == map[] && Sound(t) && DiscoveredSince(s, t, Needs, build)
    ensures OnlyDiamond(t)
  {
    hide Traced;
  }

  /** Resolving A in a new builder: the edge from C to D is missing, the three others are there. */
  method ResolveDiamond<W>(work: W) returns (id: nat, edges: seq<Edge>)
    ensures id == 3 && Dependencies(edges, 3) == [1, 2] && Dependencies(edges, 1) == [0]
    ensures Dependencies(edges, 2) == [] && Dependencies(edges, 0) == []
  {
    var builder := new KeyedBuilder<Key, W>();
    var build := (key: Key) => Product(Success, "", work);
    hide Sound, Grows, DiscoveredSince, DiscoveryRefusal, StartOf, DirectKeys, OnlyDiamond, Dependencies, Confined;
    DiamondIsConfined();
    ghost var s := builder.Record();
    var status, a := builder.ResolveWithDiscovery(A, Needs, build, {A, B, C, D});
    ghost var t := builder.Record();
    NothingYet(s, t, build);
    if !status.Success? {
      DiamondSucceeds(build, status, builder.keyOf, 0, builder.Now());
    }
    DiamondEdges(t);
    id, edges := a, builder.builder.edges;
  }
}
