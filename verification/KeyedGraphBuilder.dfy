/**
  The keyed builder: resolving keys on demand records nodes and edges as a side effect, with
  memoization, resolution-cycle detection and discovery to a fixed point.

  The keys that can ever be asked for form a finite universe, and a callback returns on every
  possible sequence of answers; both are what the termination of the library rests on.
*/
module KeyedGraphBuilder {
  import opened Options
  import opened Sets
  import opened DependencyGraphs
  import opened GraphBuilder
  import opened ResolutionTraces
  import opened ResolutionFailures

  ghost predicate Confined<K(!new)>(discover: Discover<K>, universe: set<K>) {
    forall key, pass, seen, i ::
      key in universe && 0 <= i < |discover(key, pass, seen)| ==> discover(key, pass, seen)[i] in universe
  }

  /** The frames after recording an id in the innermost one, if there is one. */
  function Recorded(frames: seq<seq<nat>>, id: nat): seq<seq<nat>> {
    if frames == [] then [] else frames[|frames| - 1 := frames[|frames| - 1] + [id]]
  }

  class KeyedBuilder<K(==, !new), W> {
    const builder: Builder<W>
    var resolved: map<K, nat>
    var inProgress: set<K>
    var frameStack: seq<seq<nat>>
    ghost var keyOf: seq<K>
    ghost var origin: map<K, Origin<K, W>>

    ghost function Record(): State<K, W>
      reads this`resolved, this`keyOf, this`origin, builder
    {
      State(builder.nodes, builder.edges, resolved, keyOf, origin)
    }

    /** The time: the number of nodes so far. */
    ghost function Now(): nat
      reads builder
    {
      |builder.nodes|
    }

    ghost predicate Valid()
      reads this, builder
    {
      Sound(Record()) && inProgress !! resolved.Keys && |frameStack| == |inProgress|
    }

    constructor ()
      ensures Valid() && fresh(builder) && inProgress == {} && frameStack == [] && resolved == map[] && Now() == 0
    {
      builder := new Builder<W>();
      resolved, inProgress, frameStack, keyOf, origin := map[], {}, [], [], map[];
    }

    predicate IsResolved(key: K)
      reads this
    {
      key in resolved
    }

    method RecordInCallerFrame(id: nat)
      modifies this`frameStack
      ensures frameStack == Recorded(old(frameStack), id) && Record() == old(Record())
    {
      if frameStack != [] {
        frameStack := frameStack[|frameStack| - 1 := frameStack[|frameStack| - 1] + [id]];
      }
    }

    lemma InProgressIsOpen(key: K)
      requires Valid()
      ensures key in inProgress ==> key !in resolved
    {
    }

    /** A memoized key is recorded in the caller's frame and nothing else changes. */
    method MemoHit(id: nat)
      requires Valid()
      modifies this`frameStack
      ensures Valid() && frameStack == Recorded(old(frameStack), id) && Record() == old(Record())
    {
      hide Sound;
      RecordInCallerFrame(id);
    }

    /** The part of `resolve` before the callback runs. */
    method Open(key: K)
      requires Valid() && key !in resolved && key !in inProgress
      modifies this`inProgress, this`frameStack
      ensures Valid() && inProgress == old(inProgress) + {key} && frameStack == old(frameStack) + [[]]
      ensures Record() == old(Record())
    {
      inProgress := inProgress + {key};
      frameStack := frameStack + [[]];
    }

    /** The part of `resolve` after the callback returned, on failure. */
    method Abandon(key: K)
      requires Valid() && key in inProgress && frameStack != []
      modifies this`inProgress, this`frameStack
      ensures Valid() && inProgress == old(inProgress) - {key} && key !in resolved
      ensures frameStack == old(frameStack[..|frameStack| - 1]) && Record() == old(Record())
    {
      frameStack := frameStack[..|frameStack| - 1];
      inProgress := inProgress - {key};
    }

    /** The part of `resolve` after the callback returned, on success. */
    method Commit(key: K, name: string, work: W, ghost o: Origin<K, W>) returns (id: nat)
      requires Valid() && key in inProgress && frameStack != []
      requires Produced(key, o, PendingNode(name, work), keyOf) && EndOf(o) == Now() && NestedBegan(keyOf, origin, o)
      requires Named(keyOf, frameStack[|frameStack| - 1], DirectKeys(key, o))
      modifies this, builder
      ensures Valid() && inProgress == old(inProgress) - {key}
      ensures frameStack == Recorded(old(frameStack[..|frameStack| - 1]), id)
      ensures Grows(old(Record()), Record()) && key in resolved && resolved[key] == id
      ensures origin == old(origin)[key := o]
      ensures id == old(Now()) && Now() == id + 1 && resolved == old(resolved)[key := id]
    {
      hide Sound, Produced, Grows, DirectKeys, EndOf, NestedBegan, Named;
      ghost var s := Record();
      var dependencies := frameStack[|frameStack| - 1];
      CommitSound(s, key, o, PendingNode(name, work), dependencies);
      frameStack := frameStack[..|frameStack| - 1];
      inProgress := inProgress - {key};
      id := builder.AddNode(name, work);
      var i := 0;
      while i < |dependencies|
        invariant 0 <= i <= |dependencies| && builder.edges == s.edges + EdgesTo(id, dependencies[..i])
        invariant builder.nodes == s.nodes + [PendingNode(name, work)]
        invariant resolved == s.resolved && keyOf == s.keyOf && origin == s.origin
        invariant inProgress == old(inProgress) - {key} && frameStack == old(frameStack[..|frameStack| - 1])
      {
        builder.DependsOn(id, dependencies[i]);
        assert EdgesTo(id, dependencies[..i + 1]) == EdgesTo(id, dependencies[..i]) + [Edge(id, dependencies[i])];
        i := i + 1;
      }
      assert dependencies[..i] == dependencies;
      resolved, keyOf, origin := resolved[key := id], keyOf + [key], origin[key := o];
      RecordInCallerFrame(id);
    }

    /** No more nodes can be added than `cap`, by resolving keys of the universe. */
    ghost predicate Room(universe: set<K>, cap: nat)
      reads this`resolved, builder
    {
      Now() + |universe - resolved.Keys| <= cap
    }

    /**
      Resolves a key with a callback: memoized, cycle-detecting, and leaving the frames and the
      set of keys in progress as they were, on success and on failure.
    */
    method Resolve(key: K, resolver: Resolver<K, W>, ghost universe: set<K>, ghost cap: nat, ghost bound: nat)
      returns (status: Status, id: nat)
      requires Valid() && key in universe && Terminating(resolver, universe, cap, bound) && Room(universe, cap)
      modifies this, builder
      ensures Valid() && inProgress == old(inProgress) && Grows(old(Record()), Record())
      ensures status.Success? ==> key in resolved && resolved[key] == id && frameStack == Recorded(old(frameStack), id)
      ensures !status.Success? ==> key !in resolved && frameStack == old(frameStack)
      ensures key in old(resolved) ==> status.Success? && Record() == old(Record())
      ensures key in old(inProgress) ==> status.CycleDetected? && Record() == old(Record())
      ensures status.Success? && key !in old(resolved) ==> key in origin && StartOf(origin[key]) == old(Now()) && Now() == id + 1
      ensures Room(universe, cap)
      ensures AnsweredSince(old(Record()), Record(), resolver)
      ensures !status.Success? ==> Refusal(resolver, universe, key, old(inProgress), status, keyOf, old(Now()), Now())
      decreases |universe - inProgress|, 1
    {
      hide Room, Sound, Grows, AnsweredSince, Conversation, Ids, Explained, Refusal, AnswersBeganThen, At, Starts, Terminating, Max, StartOf, EndOf, Recorded, Named, Produced, NestedBegan, DirectKeys;
      GrowsReflexive(Record());
      AnsweredNothing(Record(), resolver);
      InProgressIsOpen(key);
      if key in resolved {
        MemoHit(resolved[key]);
        return Success, resolved[key];
      }
      NotInMemo(key);
      if key in inProgress {
        CycleRefused(resolver, universe, key, inProgress, keyOf, Now());
        return CycleDetected, 0;
      }
      status, id := ResolveNew(key, resolver, universe, cap, bound);
    }

    /** Resolves a key that is neither memoized nor in progress. */
    method ResolveNew(key: K, resolver: Resolver<K, W>, ghost universe: set<K>, ghost cap: nat, ghost bound: nat)
      returns (status: Status, id: nat)
      requires Valid() && key in universe && Terminating(resolver, universe, cap, bound) && Room(universe, cap)
      requires key !in resolved && key !in inProgress
      modifies this, builder
      ensures Valid() && inProgress == old(inProgress) && Grows(old(Record()), Record())
      ensures status.Success? ==> key in resolved && resolved[key] == id && frameStack == Recorded(old(frameStack), id)
      ensures !status.Success? ==> key !in resolved && frameStack == old(frameStack)
      ensures status.Success? ==> key in origin && StartOf(origin[key]) == old(Now()) && Now() == id + 1
      ensures Room(universe, cap)
      ensures AnsweredSince(old(Record()), Record(), resolver)
      ensures !status.Success? ==> Refusal(resolver, universe, key, old(inProgress), status, keyOf, old(Now()), Now())
      decreases |universe - inProgress|, 0
    {
      hide Room, Sound, Grows, AnsweredSince, Conversation, Ids, Explained, Refusal, AnswersBeganThen, At, Starts, Terminating, Max, StartOf, EndOf, Recorded, Named, Produced, NestedBegan, DirectKeys;
      ghost var s, start := Record(), Now();
      ghost var frames, stack := frameStack, inProgress;
      Narrower(universe, stack, key);
      Open(key);
      var name, work;
      ghost var answers, times;
      status, name, work, answers, times := RunResolver(key, resolver, universe, cap, bound);
      assert frameStack[..|frameStack| - 1] == frames;
      ghost var t := Record();
      InProgressIsOpen(key);
      GrowsHistory(s, t);
      if !status.Success? {
        NotInMemo(key);
        RefusalOf(resolver, universe, key, answers, times, stack, status, keyOf, start, Now(), name, work);
        Abandon(key);
        id := 0;
        return;
      }
      ghost var o := ByAnswers(resolver, answers, times);
      OriginOfAnswers(resolver, key, answers, times, name, work, keyOf, origin);
      OpenRoom(universe, cap);
      id := Commit(key, name, work, o);
      CloseRoom(universe, cap, t, key);
      GrowsTransitive(s, t, Record());
      AnsweredOne(t, Record(), key, o);
      AnsweredOn(s, t, Record(), resolver);
    }

    /** The callback's side of a resolution: each question is answered by a nested one. */
    method RunResolver(key: K, resolver: Resolver<K, W>, ghost universe: set<K>, ghost cap: nat, ghost bound: nat)
      returns (status: Status, name: string, work: W, ghost answers: seq<Answer>, ghost times: seq<nat>)
      requires Valid() && key in universe && key in inProgress
      requires Terminating(resolver, universe, cap, bound) && Room(universe, cap)
      requires frameStack != [] && frameStack[|frameStack| - 1] == []
      modifies this, builder
      ensures Valid() && inProgress == old(inProgress) && Grows(old(Record()), Record()) && Room(universe, cap)
      ensures AnsweredSince(old(Record()), Record(), resolver)
      ensures frameStack == old(frameStack[..|frameStack| - 1]) + [Ids(answers)]
      ensures Conversation(resolver, key, answers, times, keyOf) && AnswersBeganThen(keyOf, origin, answers, times)
      ensures times[0] == old(Now()) && times[|answers|] == Now()
      ensures resolver(key, answers) == Finish(status, name, work)
      ensures Explained(resolver, universe, key, answers, times, old(inProgress), keyOf)
      decreases |universe - inProgress|, 2
    {
      hide Sound, Grows, AnsweredSince, Conversation, Ids, Explained, Refusal, AnswersBeganThen, At, Starts, Terminating, Room, Max, StartOf, EndOf, Named, Produced, NestedBegan, DirectKeys;
      ghost var s, start := Record(), Now();
      ghost var frames := frameStack[..|frameStack| - 1];
      var heard: seq<Answer> := [];
      times := [Now()];
      GrowsReflexive(s);
      AnsweredNothing(s, resolver);
      HistoryIsNow();
      NothingHeard(resolver, universe, key, inProgress, keyOf, origin, Now());
      assert frameStack == frames + [[]];
      var move := resolver(key, heard);
      while !move.Finish?
        invariant Valid() && inProgress == old(inProgress) && Grows(s, Record()) && Room(universe, cap)
        invariant AnsweredSince(s, Record(), resolver)
        invariant frameStack == frames + [Ids(heard)]
        invariant Conversation(resolver, key, heard, times, keyOf) && AnswersBeganThen(keyOf, origin, heard, times)
        invariant |times| == |heard| + 1 && times[0] == start && times[|heard|] == Now() <= |keyOf|
        invariant Explained(resolver, universe, key, heard, times, inProgress, keyOf)
        invariant move == resolver(key, heard)
        decreases bound - |heard|
      {
        ghost var t, before := Record(), Now();
        StillPossible(resolver, universe, key, heard, times, cap, bound);
        var answer;
        if move.Ask? {
          var status', id := Resolve(move.key, resolver, universe, cap, bound);
          answer := if status'.Success? then Resolved(id) else Refused(status');
          AfterNested(t, move.key, status', id);
        } else {
          answer := Known(IsResolved(move.key));
          GrowsReflexive(t);
          AnsweredNothing(t, resolver);
          QueryIsExact(move.key);
        }
        GrowsTransitive(s, t, Record());
        AnsweredOn(s, t, Record(), resolver);
        GrowsHistory(t, Record());
        HistoryIsNow();
        ConversationNext(resolver, key, heard, times, t.keyOf, answer, Now(), keyOf);
        AnswersBeganNext(t.keyOf, keyOf, t.origin, origin, heard, times, answer, Now());
        ExplainedNext(resolver, universe, key, heard, times, inProgress, t.keyOf, answer, Now(), keyOf);
        assert answer.Resolved? ==> frameStack == frames + [Ids(heard) + [answer.id]];
        heard, times := heard + [answer], times + [Now()];
        move := resolver(key, heard);
      }
      answers := heard;
      status, name, work := move.status, move.name, move.work;
    }

    /**
      Resolves a key by discovering to a fixed point what it needs, resolving that the same
      way, and then building it. What was resolved before is none of its inputs.
    */
    method ResolveWithDiscovery(key: K, discover: Discover<K>, build: BuildFn<K, W>, ghost universe: set<K>) returns (status: Status, id: nat)
      requires Valid() && key in universe && Confined(discover, universe)
      modifies this, builder
      ensures Valid() && inProgress == old(inProgress) && Grows(old(Record()), Record())
      ensures status.Success? ==> key in resolved && resolved[key] == id && frameStack == Recorded(old(frameStack), id)
      ensures !status.Success? ==> key !in resolved && frameStack == old(frameStack)
      ensures key in old(resolved) ==> status.Success? && Record() == old(Record())
      ensures key in old(inProgress) ==> status.CycleDetected? && Record() == old(Record())
      ensures status.Success? && key !in old(resolved) ==> key in origin && StartOf(origin[key]) == old(Now()) && Now() == id + 1
      ensures status.Success? && key !in old(resolved) ==>
        forall d :: d in old(resolved) ==> d !in DirectKeys(key, origin[key])
      ensures DiscoveredSince(old(Record()), Record(), discover, build)
      ensures !status.Success? ==> DiscoveryRefusal(discover, build, universe, key, old(inProgress), status, keyOf, old(Now()), Now())
      decreases |universe - inProgress|, 1
    {
      hide Sound, Grows, DiscoveredSince, Passes, PassesBeganThen, AllBeganThen, Ongoing, FindsNext, ReachedBuild, Midway, Pending, DiscoveryRefusal, Clock, TimeAfter, FoundIds, At, Starts, Max, StartOf, EndOf, Named, Produced, NestedBegan, DirectKeys, Confined, Unresolved, Recorded;
      GrowsReflexive(Record());
      DiscoveredNothing(Record(), discover, build);
      InProgressIsOpen(key);
      if key in resolved {
        MemoHit(resolved[key]);
        return Success, resolved[key];
      }
      NotInMemo(key);
      if key in inProgress {
        CycleRefusedInDiscovery(discover, build, universe, key, inProgress, keyOf, Now());
        return CycleDetected, 0;
      }
      status, id := DiscoverNew(key, discover, build, universe);
    }

    /** Resolves by discovery a key that is neither memoized nor in progress. */
    method DiscoverNew(key: K, discover: Discover<K>, build: BuildFn<K, W>, ghost universe: set<K>) returns (status: Status, id: nat)
      requires Valid() && key in universe && Confined(discover, universe)
      requires key !in resolved && key !in inProgress
      modifies this, builder
      ensures Valid() && inProgress == old(inProgress) && Grows(old(Record()), Record())
      ensures status.Success? ==> key in resolved && resolved[key] == id && frameStack == Recorded(old(frameStack), id)
      ensures !status.Success? ==> key !in resolved && frameStack == old(frameStack)
      ensures status.Success? ==> key in origin && StartOf(origin[key]) == old(Now()) && Now() == id + 1
      ensures status.Success? ==> forall d :: d in old(resolved) ==> d !in DirectKeys(key, origin[key])
      ensures DiscoveredSince(old(Record()), Record(), discover, build)
      ensures !status.Success? ==> DiscoveryRefusal(discover, build, universe, key, old(inProgress), status, keyOf, old(Now()), Now())
      decreases |universe - inProgress|, 0
    {
      hide Sound, Grows, DiscoveredSince, Passes, PassesBeganThen, AllBeganThen, Ongoing, FindsNext, ReachedBuild, Midway, Pending, DiscoveryRefusal, Clock, TimeAfter, FoundIds, At, Starts, Max, StartOf, EndOf, Named, Produced, NestedBegan, DirectKeys, Confined, Unresolved, Recorded;
      ghost var s, start := Record(), Now();
      ghost var frames, stack := frameStack, inProgress;
      Narrower(universe, stack, key);
      Open(key);
      var made;
      ghost var passes, ids;
      status, made, passes, ids := RunDiscovery(key, discover, build, universe);
      assert frameStack[..|frameStack| - 1] == frames;
      ghost var t := Record();
      InProgressIsOpen(key);
      GrowsHistory(s, t);
      if !status.Success? {
        NotInMemo(key);
        DiscoveryRefusalOf(discover, build, universe, key, stack, status, keyOf, start, Now(), made.Some?, passes, ids);
        Abandon(key);
        id := 0;
        return;
      }
      ghost var o := ByDiscovery(discover, build, passes);
      OriginOfPasses(discover, build, key, passes, made.value.name, made.value.work, keyOf, origin, start, Now());
      id := Commit(key, made.value.name, made.value.work, o);
      GrowsTransitive(s, t, Record());
      DiscoveredOne(t, Record(), key, o);
      DiscoveredOn(s, t, Record(), discover, build);
      OldIsNoInput(s, key);
    }

    /**
      Discovery passes until one finds nothing new, then the build callback. The callback has run
      exactly when `made` is given, and then the passes have reached the fixed point.
    */
    method RunDiscovery(key: K, discover: Discover<K>, build: BuildFn<K, W>, ghost universe: set<K>)
      returns (status: Status, made: Option<Product<W>>, ghost passes: seq<Pass<K>>, ghost ids: seq<nat>)
      requires Valid() && key in universe && key in inProgress && Confined(discover, universe)
      requires frameStack != [] && frameStack[|frameStack| - 1] == []
      modifies this, builder
      ensures Valid() && inProgress == old(inProgress) && Grows(old(Record()), Record())
      ensures DiscoveredSince(old(Record()), Record(), discover, build)
      ensures frameStack != [] && frameStack[..|frameStack| - 1] == old(frameStack[..|frameStack| - 1])
      ensures Passes(discover, key, passes, keyOf) && PassesBeganThen(keyOf, origin, passes)
      ensures made.Some? ==> ReachedBuild(discover, key, passes, keyOf, old(Now()), Now())
      ensures made.Some? ==> made.value == build(key) && status == made.value.status
      ensures made.Some? ==> frameStack[|frameStack| - 1] == FoundIds(passes)
      ensures made.None? ==> !status.Success? && Midway(discover, key, passes, keyOf, old(Now()), ids)
      ensures made.None? ==>
        DiscoveryRefusal(discover, build, universe, Pending(discover, key, passes, keyOf, old(Now()), ids), old(inProgress),
                         status, keyOf, Clock(TimeAfter(passes, old(Now())), ids), Now())
      decreases |universe - inProgress|, 3
    {
      hide Sound, Grows, DiscoveredSince, Passes, PassesBeganThen, AllBeganThen, Ongoing, FindsNext, ReachedBuild, Midway, Pending, DiscoveryRefusal, Clock, TimeAfter, FoundIds, At, Starts, Max, StartOf, EndOf, Named, Produced, NestedBegan, DirectKeys, Confined, Unresolved;
      ghost var s, start := Record(), Now();
      ghost var frames := frameStack[..|frameStack| - 1];
      made, passes, ids := None, [], [];
      var pass := 0;
      GrowsReflexive(s);
      DiscoveredNothing(s, discover, build);
      HistoryIsNow();
      NothingPassed(discover, key, keyOf, origin, Now());
      assert frameStack == frames + [[]];
      while true
        invariant DiscoveredSince(s, Record(), discover, build)
        invariant Valid() && inProgress == old(inProgress) && Grows(s, Record()) && pass == |passes| && Now() <= |keyOf|
        invariant Ongoing(discover, key, passes, keyOf, start) && PassesBeganThen(keyOf, origin, passes)
        invariant TimeAfter(passes, start) == Now()
        invariant frameStack == frames + [FoundIds(passes)]
        decreases |universe - resolved.Keys|
      {
        ghost var t := Record();
        var needed := Needed(discover(key, pass, resolved.Keys));
        NeededIsNext(discover, key, passes, start);
        ConfinedNeeds(discover, universe, key, pass, resolved.Keys);
        status, ids := ResolveAll(needed, discover, build, universe, frames, FoundIds(passes));
        GrowsTransitive(s, t, Record());
        DiscoveredOn(s, t, Record(), discover, build);
        GrowsHistory(t, Record());
        HistoryIsNow();
        if !status.Success? {
          StuckMidway(discover, key, passes, t.keyOf, start, ids, keyOf);
          PassesBeganGrow(t.keyOf, keyOf, t.origin, origin, passes);
          return;
        }
        assert needed[..|ids|] == needed;
        PassesNext(discover, key, passes, t.keyOf, start, ids, keyOf);
        ghost var next := Pass(TimeAfter(passes, start), needed, ids);
        PassesBeganNext(t.keyOf, keyOf, t.origin, origin, passes, next);
        if needed == [] {
          FixedPoint(discover, key, passes, next, keyOf, start);
          passes := passes + [next];
          made := Some(build(key));
          status := made.value.status;
          return;
        }
        NewlyResolved(universe, t, discover(key, pass, t.resolved.Keys), ids);
        OngoingNext(discover, key, passes, next, keyOf, start);
        passes := passes + [next];
        pass := pass + 1;
      }
    }

    /** The filter at the start of a pass. */
    method Needed(candidates: seq<K>) returns (needed: seq<K>)
      ensures needed == Unresolved(candidates, resolved.Keys)
    {
      needed := [];
      var i := 0;
      while i < |candidates|
        invariant 0 <= i <= |candidates| && needed == Unresolved(candidates[..i], resolved.Keys)
      {
        assert candidates[..i + 1][..i] == candidates[..i];
        if !IsResolved(candidates[i]) {
          needed := needed + [candidates[i]];
        }
        i := i + 1;
      }
      assert candidates[..i] == candidates;
    }

    /** Resolves the keys of one pass in order, stopping at the first failure. */
    method ResolveAll(needed: seq<K>, discover: Discover<K>, build: BuildFn<K, W>, ghost universe: set<K>,
                      ghost frames: seq<seq<nat>>, ghost base: seq<nat>) returns (status: Status, ghost ids: seq<nat>)
      requires Valid() && Confined(discover, universe) && forall i :: 0 <= i < |needed| ==> needed[i] in universe
      requires frameStack == frames + [base]
      modifies this, builder
      ensures Valid() && inProgress == old(inProgress) && Grows(old(Record()), Record())
      ensures DiscoveredSince(old(Record()), Record(), discover, build)
      ensures |frameStack| == |frames| + 1 && frameStack[..|frames|] == frames
      ensures |ids| <= |needed| && Named(keyOf, ids, needed[..|ids|]) && AllBeganThen(keyOf, origin, old(Now()), ids)
      ensures status.Success? ==> |ids| == |needed| && frameStack == frames + [base + ids] && Now() == Clock(old(Now()), ids)
      ensures !status.Success? ==> |ids| < |needed|
      ensures !status.Success? ==>
        DiscoveryRefusal(discover, build, universe, needed[|ids|], old(inProgress), status, keyOf, Clock(old(Now()), ids), Now())
      decreases |universe - inProgress|, 2
    {
      hide Sound, Grows, DiscoveredSince, Passes, PassesBeganThen, AllBeganThen, Ongoing, FindsNext, ReachedBuild, Midway, Pending, DiscoveryRefusal, Clock, TimeAfter, FoundIds, At, Starts, Max, StartOf, EndOf, Named, Produced, NestedBegan, DirectKeys, Confined, Unresolved;
      ghost var s, start := Record(), Now();
      GrowsReflexive(s);
      DiscoveredNothing(s, discover, build);
      ids := [];
      NothingResolved(keyOf, origin, start, needed);
      assert base + ids == base;
      var i := 0;
      while i < |needed|
        invariant 0 <= i == |ids| <= |needed|
        invariant DiscoveredSince(s, Record(), discover, build)
        invariant Valid() && inProgress == old(inProgress) && Grows(s, Record())
        invariant Named(keyOf, ids, needed[..i]) && AllBeganThen(keyOf, origin, start, ids)
        invariant frameStack == frames + [base + ids] && Now() == Clock(start, ids)
      {
        ghost var t := Record();
        var id;
        status, id := ResolveWithDiscovery(needed[i], discover, build, universe);
        AfterNested(t, needed[i], status, id);
        GrowsTransitive(s, t, Record());
        DiscoveredOn(s, t, Record(), discover, build);
        GrowsHistory(t, Record());
        NamedGrows(t.keyOf, keyOf, ids, needed[..i]);
        AllBeganGrows(t.keyOf, keyOf, t.origin, origin, start, ids);
        if !status.Success? {
          return;
        }
        assert needed[..i + 1] == needed[..i] + [needed[i]];
        BeganNext(keyOf, origin, start, ids, needed[..i], id, needed[i]);
        assert base + ids + [id] == base + (ids + [id]);
        ids := ids + [id];
        i := i + 1;
      }
      assert needed[..i] == needed;
      status := Success;
    }

    lemma HistoryIsNow()
      requires Valid()
      ensures |keyOf| == Now()
    {
    }

    lemma NotInMemo(key: K)
      requires Valid() && key !in resolved
      ensures Now() <= |keyOf| && key !in At(keyOf, Now())
    {
      hide At, Traced;
      MemoIsAt(Record(), Now());
    }

    lemma QueryIsExact(key: K)
      requires Valid()
      ensures Now() <= |keyOf| && (IsResolved(key) <==> key in At(keyOf, Now()))
    {
      hide At, Traced;
      MemoIsAt(Record(), Now());
    }

    lemma OpenRoom(universe: set<K>, cap: nat)
      requires Room(universe, cap)
      ensures Now() + |universe - resolved.Keys| <= cap
    {
    }

    /** A new node takes the place of a key that was still unresolved. */
    lemma CloseRoom(universe: set<K>, cap: nat, t: State<K, W>, key: K)
      requires |t.nodes| + |universe - t.resolved.Keys| <= cap && key in universe && key !in t.resolved
      requires Now() == |t.nodes| + 1 && key in resolved && resolved == t.resolved[key := resolved[key]]
      ensures Room(universe, cap)
    {
      assert universe - resolved.Keys == (universe - t.resolved.Keys) - {key};
    }

    /** What has been heard is possible, so the callback's next move is to be expected. */
    lemma StillPossible(resolver: Resolver<K, W>, universe: set<K>, key: K, heard: seq<Answer>, times: seq<nat>, cap: nat, bound: nat)
      requires Valid() && key in universe && Terminating(resolver, universe, cap, bound) && Room(universe, cap)
      requires Conversation(resolver, key, heard, times, keyOf)
      ensures resolver(key, heard).Ask? ==> resolver(key, heard).key in universe
      ensures !resolver(key, heard).Finish? ==> |heard| < bound
    {
      hide Traced, Possible, Conversation;
      HeardIsPossible(resolver, key, heard, times, keyOf, cap);
    }

    /** Where a nested resolution of a key leaves the history and the clock. */
    lemma AfterNested(t: State<K, W>, key: K, status: Status, id: nat)
      requires Valid() && Sound(t) && Grows(t, Record())
      requires status.Success? ==> key in resolved && resolved[key] == id
      requires !status.Success? ==> key !in resolved
      requires key in t.resolved ==> status.Success? && Record() == t
      requires status.Success? && key !in t.resolved ==> key in origin && StartOf(origin[key]) == |t.nodes| && Now() == id + 1
      ensures |t.nodes| <= Now() <= |keyOf|
      ensures status.Success? ==> id < |keyOf| && keyOf[id] == key && Now() == Max(|t.nodes|, id + 1)
      ensures status.Success? && id >= |t.nodes| ==> Starts(keyOf, origin, id, |t.nodes|)
      ensures !status.Success? ==> key !in At(keyOf, Now())
    {
      hide At, Traced, StartOf;
      if !status.Success? {
        NotInMemo(key);
      }
    }

    lemma NeededIsNext(discover: Discover<K>, key: K, passes: seq<Pass<K>>, from: nat)
      requires Valid() && TimeAfter(passes, from) == Now()
      ensures Now() <= |keyOf|
      ensures FindsNext(discover, key, passes, keyOf, from) == Unresolved(discover(key, |passes|, resolved.Keys), resolved.Keys)
    {
      hide At, Traced, Unresolved, TimeAfter;
      MemoIsAt(Record(), Now());
    }

    lemma NewlyResolved(universe: set<K>, t: State<K, W>, candidates: seq<K>, ids: seq<nat>)
      requires Valid() && Grows(t, Record())
      requires var needed := Unresolved(candidates, t.resolved.Keys);
        needed != [] && needed[0] in universe && Named(keyOf, ids, needed)
      ensures |universe - resolved.Keys| < |universe - t.resolved.Keys|
    {
      hide Unresolved, Traced;
      var needed := Unresolved(candidates, t.resolved.Keys);
      UnresolvedExactly(candidates, t.resolved.Keys, needed[0]);
      NamedIds(Record(), ids, needed);
      FewerUnresolved(universe, t.resolved, resolved, needed[0]);
    }

    /** Nothing that was resolved before is an input of what was resolved by discovery now. */
    lemma OldIsNoInput(s: State<K, W>, key: K)
      requires Valid() && Sound(s) && Grows(s, Record())
      requires key in resolved && key in origin && origin[key].ByDiscovery? && StartOf(origin[key]) == |s.nodes|
      ensures forall d :: d in s.resolved ==> d !in DirectKeys(key, origin[key])
    {
      hide DirectKeys, StartOf, Traced;
      forall d | d in s.resolved
        ensures d !in DirectKeys(key, origin[key])
      {
        EarlierIsNoInput(Record(), key, d);
      }
    }

    /** Building what has been resolved always succeeds. */
    method Build() returns (status: Status, out: Option<DependencyGraph<W>>)
      requires Valid()
      ensures status.Success? && out.Some? && Frozen(builder.nodes, builder.edges, out.value)
    {
      DescendingIsAcyclic(builder.edges, |builder.nodes|);
      status, out := builder.Build();
    }
  }

  lemma ConfinedNeeds<K(!new)>(discover: Discover<K>, universe: set<K>, key: K, pass: nat, seen: set<K>)
    requires Confined(discover, universe) && key in universe
    ensures var needed := Unresolved(discover(key, pass, seen), seen);
      forall i :: 0 <= i < |needed| ==> needed[i] in universe
  {
    hide Unresolved;
    var found := discover(key, pass, seen);
    var needed := Unresolved(found, seen);
    forall i | 0 <= i < |needed|
      ensures needed[i] in universe
    {
      UnresolvedExactly(found, seen, needed[i]);
    }
  }

  lemma FewerUnresolved<K>(universe: set<K>, before: map<K, nat>, after: map<K, nat>, key: K)
    requires key in universe && key !in before && key in after && before.Keys <= after.Keys
    ensures |universe - after.Keys| < |universe - before.Keys|
  {
    var rest := universe - before.Keys;
    assert rest == (rest - {key}) + {key};
    assert universe - after.Keys <= rest - {key};
    SubsetSize(universe - after.Keys, rest - {key});
  }

  lemma GrowsReflexive<K, W>(s: State<K, W>)
    ensures Grows(s, s)
  {
  }

  lemma AnsweredNothing<K, W>(s: State<K, W>, resolver: Resolver<K, W>)
    ensures AnsweredSince(s, s, resolver)
  {
  }

  lemma AnsweredOne<K, W>(s: State<K, W>, t: State<K, W>, key: K, o: Origin<K, W>)
    requires o.ByAnswers? && t.origin == s.origin[key := o]
    ensures AnsweredSince(s, t, o.resolver)
  {
  }

  lemma DiscoveredNothing<K, W>(s: State<K, W>, discover: Discover<K>, build: BuildFn<K, W>)
    ensures DiscoveredSince(s, s, discover, build)
  {
  }

  lemma DiscoveredOne<K, W>(s: State<K, W>, t: State<K, W>, key: K, o: Origin<K, W>)
    requires o.ByDiscovery? && t.origin == s.origin[key := o]
    ensures DiscoveredSince(s, t, o.discover, o.build)
  {
  }

  lemma GrowsHistory<K, W>(s: State<K, W>, t: State<K, W>)
    requires Grows(s, t)
    ensures s.keyOf <= t.keyOf && |s.nodes| <= |t.nodes| && OriginsKept(s.origin, t.origin)
  {
  }

  // ----- Transcripts -----

  lemma NothingHeard<K, W>(resolver: Resolver<K, W>, universe: set<K>, key: K, stack: set<K>, h: seq<K>, origin: map<K, Origin<K, W>>, n: nat)
    requires n <= |h|
    ensures Conversation(resolver, key, [], [n], h) && AnswersBeganThen(h, origin, [], [n]) && Ids([]) == []
    ensures Explained(resolver, universe, key, [], [n], stack, h)
  {
  }

  lemma AnswersBeganNext<K, W>(h: seq<K>, h': seq<K>, origin: map<K, Origin<K, W>>, origin': map<K, Origin<K, W>>,
                               answers: seq<Answer>, times: seq<nat>, answer: Answer, n: nat)
    requires AnswersBeganThen(h, origin, answers, times) && h <= h' && OriginsKept(origin, origin')
    requires answer.Resolved? && answer.id >= times[|answers|] ==> Starts(h', origin', answer.id, times[|answers|])
    ensures AnswersBeganThen(h', origin', answers + [answer], times + [n])
  {
    hide Starts, OriginsKept;
    AnswersBeganGrow(h, h', origin, origin', answers, times);
  }

  lemma OriginOfAnswers<K, W>(resolver: Resolver<K, W>, key: K, answers: seq<Answer>, times: seq<nat>, name: string, work: W,
                              h: seq<K>, origin: map<K, Origin<K, W>>)
    requires Conversation(resolver, key, answers, times, h) && resolver(key, answers) == Finish(Success, name, work)
    requires AnswersBeganThen(h, origin, answers, times)
    ensures var o := ByAnswers(resolver, answers, times);
      && Produced(key, o, PendingNode(name, work), h) && NestedBegan(h, origin, o)
      && StartOf(o) == times[0] && EndOf(o) == times[|answers|] && Named(h, Ids(answers), DirectKeys(key, o))
  {
    hide Named, Ids, AskedKeys;
    ConversationIds(resolver, key, answers, times, h);
  }

  lemma RefusalOf<K, W>(resolver: Resolver<K, W>, universe: set<K>, key: K, answers: seq<Answer>, times: seq<nat>, stack: set<K>,
                        status: Status, h: seq<K>, from: nat, to: nat, name: string, work: W)
    requires !status.Success? && key in universe && key !in stack && from <= to <= |h| && key !in At(h, to)
    requires Conversation(resolver, key, answers, times, h) && times[0] == from && times[|answers|] == to
    requires resolver(key, answers) == Finish(status, name, work)
    requires Explained(resolver, universe, key, answers, times, stack + {key}, h)
    ensures Refusal(resolver, universe, key, stack, status, h, from, to)
  {
    hide Explained, At, Conversation;
    Narrower(universe, stack, key);
    assert Heard(resolver, key, answers, times, status, h, from, to);
  }

  lemma CycleRefused<K, W>(resolver: Resolver<K, W>, universe: set<K>, key: K, stack: set<K>, h: seq<K>, n: nat)
    requires key in stack && n <= |h| && key !in At(h, n)
    ensures Refusal(resolver, universe, key, stack, CycleDetected, h, n, n)
  {
  }

  // ----- Passes -----

  lemma NothingPassed<K, W>(discover: Discover<K>, key: K, h: seq<K>, origin: map<K, Origin<K, W>>, n: nat)
    requires n <= |h|
    ensures var none: seq<Pass<K>> := [];
      Ongoing(discover, key, none, h, n) && PassesBeganThen(h, origin, none) && TimeAfter(none, n) == n && FoundIds(none) == []
  {
  }

  lemma NothingResolved<K, W>(h: seq<K>, origin: map<K, Origin<K, W>>, n: nat, needed: seq<K>)
    ensures Named(h, [], needed[..0]) && AllBeganThen(h, origin, n, []) && Clock(n, []) == n
  {
  }

  lemma BeganNext<K, W>(h: seq<K>, origin: map<K, Origin<K, W>>, n: nat, ids: seq<nat>, keys: seq<K>, id: nat, key: K)
    requires Named(h, ids, keys) && AllBeganThen(h, origin, n, ids) && id < |h| && h[id] == key
    requires id >= Clock(n, ids) ==> Starts(h, origin, id, Clock(n, ids))
    ensures Named(h, ids + [id], keys + [key]) && AllBeganThen(h, origin, n, ids + [id])
    ensures Clock(n, ids + [id]) == Max(Clock(n, ids), id + 1)
  {
    hide Clock, Starts;
    ClockNext(n, ids, id);
    var longer := ids + [id];
    forall j | 0 <= j < |longer|
      ensures BeganThen(h, origin, n, longer, j)
    {
      assert longer[..j] == ids[..j];
      assert j < |ids| ==> BeganThen(h, origin, n, ids, j);
      assert ids[..|ids|] == ids;
    }
  }

  lemma PassesBeganNext<K, W>(h: seq<K>, h': seq<K>, origin: map<K, Origin<K, W>>, origin': map<K, Origin<K, W>>, passes: seq<Pass<K>>, next: Pass<K>)
    requires PassesBeganThen(h, origin, passes) && h <= h' && OriginsKept(origin, origin')
    requires AllBeganThen(h', origin', next.count, next.ids)
    ensures PassesBeganThen(h', origin', passes + [next])
  {
    hide AllBeganThen, OriginsKept;
    PassesBeganGrow(h, h', origin, origin', passes);
  }

  /** A failure in the middle of a pass, seen from the history at that moment. */
  lemma StuckMidway<K>(discover: Discover<K>, key: K, passes: seq<Pass<K>>, h: seq<K>, from: nat, ids: seq<nat>, h': seq<K>)
    requires Ongoing(discover, key, passes, h, from) && h <= h'
    requires |ids| < |FindsNext(discover, key, passes, h, from)| && Named(h', ids, FindsNext(discover, key, passes, h, from)[..|ids|])
    ensures Passes(discover, key, passes, h') && Midway(discover, key, passes, h', from, ids)
    ensures Pending(discover, key, passes, h', from, ids) == FindsNext(discover, key, passes, h, from)[|ids|]
  {
    hide At, Unresolved, Passes, Named, TimeAfter;
    PassesGrow(discover, key, passes, h, h');
    AtGrows(h, h', TimeAfter(passes, from));
  }

  lemma FixedPoint<K>(discover: Discover<K>, key: K, passes: seq<Pass<K>>, next: Pass<K>, h: seq<K>, from: nat)
    requires Passes(discover, key, passes + [next], h) && (passes + [next])[0].count == from && next.found == [] && next.ids == []
    ensures ReachedBuild(discover, key, passes + [next], h, from, Clock(next.count, next.ids))
  {
    hide Passes;
  }

  lemma OngoingNext<K>(discover: Discover<K>, key: K, passes: seq<Pass<K>>, next: Pass<K>, h: seq<K>, from: nat)
    requires Passes(discover, key, passes + [next], h) && (passes + [next])[0].count == from && next.found != []
    requires Clock(next.count, next.ids) <= |h|
    ensures Ongoing(discover, key, passes + [next], h, from)
    ensures TimeAfter(passes + [next], from) == Clock(next.count, next.ids)
  {
    hide Passes, Clock;
  }

  lemma OriginOfPasses<K, W>(discover: Discover<K>, build: BuildFn<K, W>, key: K, passes: seq<Pass<K>>, name: string, work: W,
                             h: seq<K>, origin: map<K, Origin<K, W>>, from: nat, to: nat)
    requires ReachedBuild(discover, key, passes, h, from, to) && build(key) == Product(Success, name, work)
    requires PassesBeganThen(h, origin, passes)
    ensures var o := ByDiscovery(discover, build, passes);
      && Produced(key, o, PendingNode(name, work), h) && NestedBegan(h, origin, o)
      && StartOf(o) == from && EndOf(o) == to && Named(h, FoundIds(passes), DirectKeys(key, o))
  {
    hide Named, FoundIds, FoundKeys, Passes, PassesBeganThen;
    PassesIds(discover, key, passes, h);
  }

  /** The failure of the build callback, or of something discovered, is the failure of the key. */
  lemma DiscoveryRefusalOf<K(!new), W>(discover: Discover<K>, build: BuildFn<K, W>, universe: set<K>, key: K, stack: set<K>,
                                       status: Status, h: seq<K>, from: nat, to: nat, ran: bool, passes: seq<Pass<K>>, ids: seq<nat>)
    requires !status.Success? && key in universe && key !in stack && from <= to <= |h| && key !in At(h, to)
    requires ran ==> ReachedBuild(discover, key, passes, h, from, to) && build(key).status == status
    requires !ran ==>
      && Midway(discover, key, passes, h, from, ids)
      && DiscoveryRefusal(discover, build, universe, Pending(discover, key, passes, h, from, ids), stack + {key},
                          status, h, Clock(TimeAfter(passes, from), ids), to)
    ensures DiscoveryRefusal(discover, build, universe, key, stack, status, h, from, to)
  {
    hide ReachedBuild, Midway, At, Clock, TimeAfter;
    Narrower(universe, stack, key);
  }

  lemma CycleRefusedInDiscovery<K(!new), W>(discover: Discover<K>, build: BuildFn<K, W>, universe: set<K>, key: K, stack: set<K>, h: seq<K>, n: nat)
    requires key in stack && n <= |h| && key !in At(h, n)
    ensures DiscoveryRefusal(discover, build, universe, key, stack, CycleDetected, h, n, n)
  {
  }
}
