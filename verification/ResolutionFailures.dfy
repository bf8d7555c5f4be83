/**
  Why resolutions fail, and when they cannot. A failure is explained by what really happened:
  by transcripts and passes that fit the history between the two times at which the failed
  resolution began and ended.
*/
module ResolutionFailures {
  import opened DependencyGraphs
  import opened GraphBuilder
  import opened ResolutionTraces

  // ----- Callbacks that end -----

  /** An answer the builder can give to a move while it has fewer than `cap` nodes. */
  ghost predicate Suits<K, W>(move: Move<K, W>, answer: Answer, cap: nat) {
    match move
    case Ask(_) => (answer.Resolved? && answer.id < cap) || (answer.Refused? && !answer.status.Success?)
    case Query(_) => answer.Known?
    case Finish(_, _, _) => false
  }

  /** Answers that suit the callback's moves. */
  ghost predicate Possible<K, W>(resolver: Resolver<K, W>, key: K, answers: seq<Answer>, cap: nat) {
    forall i :: 0 <= i < |answers| ==> Suits(resolver(key, answers[..i]), answers[i], cap)
  }

  /**
    The callbacks of the universe ask only for keys of the universe, and return after at most
    `bound` answers. Only finitely many answers suit a move, so a callback that returns on every
    possible sequence of answers has such a bound.
  */
  ghost predicate Terminating<K, W>(resolver: Resolver<K, W>, universe: set<K>, cap: nat, bound: nat) {
    forall key, answers ::
      key in universe && Possible(resolver, key, answers, cap) ==>
        var move := resolver(key, answers);
        && (move.Ask? ==> move.key in universe)
        && (|answers| >= bound ==> move.Finish?)
  }

  /** What was heard was possible. */
  lemma HeardIsPossible<K, W>(resolver: Resolver<K, W>, key: K, answers: seq<Answer>, times: seq<nat>, h: seq<K>, cap: nat)
    requires Conversation(resolver, key, answers, times, h) && |h| <= cap
    ensures Possible(resolver, key, answers, cap)
  {
    hide At, Max;
    forall i | 0 <= i < |answers|
      ensures Suits(resolver(key, answers[..i]), answers[i], cap)
    {
      assert Fits(resolver, key, answers, times, h, i);
    }
  }

  // ----- Failed resolutions -----

  lemma Narrower<K>(universe: set<K>, stack: set<K>, key: K)
    requires key in universe && key !in stack
    ensures |universe - (stack + {key})| < |universe - stack|
  {
    assert universe - (stack + {key}) == (universe - stack) - {key};
  }

  /** The callback heard these answers between the two times and then returned this status. */
  ghost predicate Heard<K, W>(resolver: Resolver<K, W>, key: K, answers: seq<Answer>, times: seq<nat>, status: Status,
                              h: seq<K>, from: nat, to: nat) {
    && Conversation(resolver, key, answers, times, h)
    && times[0] == from && times[|answers|] == to
    && resolver(key, answers).Finish? && resolver(key, answers).status == status
  }

  /**
    Why resolving a key failed while the keys of `stack` were in progress: it was one of them,
    or its callback returned this status after hearing answers whose refusals are explained the
    same way.
  */
  ghost predicate Refusal<K, W>(resolver: Resolver<K, W>, universe: set<K>, key: K, stack: set<K>, status: Status,
                                h: seq<K>, from: nat, to: nat)
    decreases |universe - stack|, 0
  {
    && !status.Success? && from <= to <= |h| && key !in At(h, to)
    && if key in stack then status.CycleDetected? && from == to
       else
         && key in universe
         && (Narrower(universe, stack, key);
             exists answers, times ::
               Heard(resolver, key, answers, times, status, h, from, to) && Explained(resolver, universe, key, answers, times, stack + {key}, h))
  }

  ghost predicate Explained<K, W>(resolver: Resolver<K, W>, universe: set<K>, key: K, answers: seq<Answer>, times: seq<nat>,
                                  stack: set<K>, h: seq<K>)
    decreases |universe - stack|, 1
  {
    && |times| == |answers| + 1
    && forall i :: 0 <= i < |answers| && answers[i].Refused? ==>
         && resolver(key, answers[..i]).Ask?
         && Refusal(resolver, universe, resolver(key, answers[..i]).key, stack, answers[i].status, h, times[i], times[i + 1])
  }

  lemma {:induction false} RefusalGrows<K, W>(resolver: Resolver<K, W>, universe: set<K>, key: K, stack: set<K>, status: Status,
                                              h: seq<K>, from: nat, to: nat, h': seq<K>)
    requires Refusal(resolver, universe, key, stack, status, h, from, to) && h <= h'
    ensures Refusal(resolver, universe, key, stack, status, h', from, to)
    decreases |universe - stack|, 0
  {
    hide At, Explained, Conversation;
    AtGrows(h, h', to);
    if key !in stack {
      Narrower(universe, stack, key);
      var answers: seq<Answer>, times: seq<nat> :|
        Heard(resolver, key, answers, times, status, h, from, to) && Explained(resolver, universe, key, answers, times, stack + {key}, h);
      ConversationGrows(resolver, key, answers, times, h, h');
      assert Heard(resolver, key, answers, times, status, h', from, to);
      ExplainedGrows(resolver, universe, key, answers, times, stack + {key}, h, h');
    }
  }

  lemma {:induction false} ExplainedGrows<K, W>(resolver: Resolver<K, W>, universe: set<K>, key: K, answers: seq<Answer>, times: seq<nat>,
                                                stack: set<K>, h: seq<K>, h': seq<K>)
    requires Explained(resolver, universe, key, answers, times, stack, h) && h <= h'
    ensures Explained(resolver, universe, key, answers, times, stack, h')
    decreases |universe - stack|, 1
  {
    hide Refusal;
    forall i | 0 <= i < |answers| && answers[i].Refused?
      ensures resolver(key, answers[..i]).Ask?
      ensures Refusal(resolver, universe, resolver(key, answers[..i]).key, stack, answers[i].status, h', times[i], times[i + 1])
    {
      RefusalGrows(resolver, universe, resolver(key, answers[..i]).key, stack, answers[i].status, h, times[i], times[i + 1], h');
    }
  }

  lemma ExplainedNext<K, W>(resolver: Resolver<K, W>, universe: set<K>, key: K, answers: seq<Answer>, times: seq<nat>,
                            stack: set<K>, h: seq<K>, answer: Answer, n: nat, h': seq<K>)
    requires Explained(resolver, universe, key, answers, times, stack, h) && h <= h'
    requires answer.Refused? ==>
      && resolver(key, answers).Ask?
      && Refusal(resolver, universe, resolver(key, answers).key, stack, answer.status, h', times[|answers|], n)
    ensures Explained(resolver, universe, key, answers + [answer], times + [n], stack, h')
  {
    hide Refusal;
    ExplainedGrows(resolver, universe, key, answers, times, stack, h, h');
    var longer, later := answers + [answer], times + [n];
    forall i | 0 <= i < |longer| && longer[i].Refused?
      ensures resolver(key, longer[..i]).Ask?
      ensures Refusal(resolver, universe, resolver(key, longer[..i]).key, stack, longer[i].status, h', later[i], later[i + 1])
    {
      assert longer[..i] == answers[..i];
      assert answers[..|answers|] == answers;
    }
  }

  // ----- A failure that no callback started comes from a cycle -----

  /** Having heard answers that fit the history, the callback of one key asks for the other. */
  ghost predicate Requests<K, W>(resolver: Resolver<K, W>, h: seq<K>, key: K, other: K) {
    exists answers, times :: Conversation(resolver, key, answers, times, h) && resolver(key, answers) == Ask(other)
  }

  /** The callbacks fail only when one of their requests has failed. */
  ghost predicate Blameless<K(!new), W>(resolver: Resolver<K, W>) {
    forall key: K, answers: seq<Answer>, cap: nat ::
      Possible(resolver, key, answers, cap) && resolver(key, answers).Finish? && !resolver(key, answers).status.Success? ==>
        exists i :: 0 <= i < |answers| && answers[i].Refused?
  }

  ghost predicate RequestAt<K, W>(resolver: Resolver<K, W>, h: seq<K>, p: seq<K>, i: nat)
    requires i + 1 < |p|
  {
    Requests(resolver, h, p[i], p[i + 1])
  }

  ghost predicate RequestPath<K, W>(resolver: Resolver<K, W>, h: seq<K>, p: seq<K>) {
    |p| >= 1 && forall i :: 0 <= i < |p| - 1 ==> RequestAt(resolver, h, p, i)
  }

  lemma RequestCons<K, W>(resolver: Resolver<K, W>, h: seq<K>, key: K, q: seq<K>)
    requires RequestPath(resolver, h, q) && Requests(resolver, h, key, q[0])
    ensures RequestPath(resolver, h, [key] + q)
  {
    hide Requests;
    var p := [key] + q;
    forall j | 0 <= j < |p| - 1
      ensures RequestAt(resolver, h, p, j)
    {
      if j > 0 {
        assert RequestAt(resolver, h, q, j - 1);
      }
    }
  }

  /** The last key of the path is in progress by then: it is on the stack or earlier on the path. */
  ghost predicate Closes<K>(p: seq<K>, stack: set<K>) {
    |p| >= 1 && (p[|p| - 1] in stack || p[|p| - 1] in p[..|p| - 1])
  }

  lemma ClosesCons<K>(key: K, q: seq<K>, stack: set<K>)
    requires Closes(q, stack + {key})
    ensures Closes([key] + q, stack)
  {
    var p := [key] + q;
    assert p[|p| - 1] == q[|q| - 1] && p[..|p| - 1] == [key] + q[..|q| - 1];
  }

  /** The request that was refused first, of a callback that failed for no reason of its own. */
  lemma RefusedRequest<K(!new), W>(resolver: Resolver<K, W>, universe: set<K>, key: K, answers: seq<Answer>, times: seq<nat>,
                                   status: Status, stack: set<K>, h: seq<K>, from: nat, to: nat) returns (i: nat)
    requires Blameless(resolver) && !status.Success?
    requires Heard(resolver, key, answers, times, status, h, from, to) && Explained(resolver, universe, key, answers, times, stack, h)
    ensures i < |answers| && answers[i].Refused? && resolver(key, answers[..i]).Ask? && |times| == |answers| + 1
    ensures Refusal(resolver, universe, resolver(key, answers[..i]).key, stack, answers[i].status, h, times[i], times[i + 1])
    ensures Requests(resolver, h, key, resolver(key, answers[..i]).key)
  {
    hide Refusal, Conversation, Possible;
    HeardIsPossible(resolver, key, answers, times, h, |h|);
    i :| 0 <= i < |answers| && answers[i].Refused?;
    ConversationFront(resolver, key, answers, times, h, i);
  }

  /** Where callbacks only fail because requests fail, every failure reveals a real cycle of requests. */
  lemma {:induction false} RefusalHasCycle<K(!new), W>(resolver: Resolver<K, W>, universe: set<K>, key: K, stack: set<K>, status: Status,
                                                       h: seq<K>, from: nat, to: nat) returns (p: seq<K>)
    requires Blameless(resolver) && Refusal(resolver, universe, key, stack, status, h, from, to)
    ensures RequestPath(resolver, h, p) && p[0] == key && Closes(p, stack)
    decreases |universe - stack|
  {
    hide At, Explained, Heard, Requests, Blameless;
    p := [key];
    if key !in stack {
      Narrower(universe, stack, key);
      var answers: seq<Answer>, times: seq<nat> :|
        Heard(resolver, key, answers, times, status, h, from, to) && Explained(resolver, universe, key, answers, times, stack + {key}, h);
      var i := RefusedRequest(resolver, universe, key, answers, times, status, stack + {key}, h, from, to);
      var other := resolver(key, answers[..i]).key;
      var q := RefusalHasCycle(resolver, universe, other, stack + {key}, answers[i].status, h, times[i], times[i + 1]);
      RequestCons(resolver, h, key, q);
      ClosesCons(key, q, stack);
      p := [key] + q;
    }
  }

  // ----- Failed resolutions with discovery -----

  /** The passes so far, and the ids that the first keys of the next pass got; there are more. */
  ghost predicate Midway<K>(discover: Discover<K>, key: K, passes: seq<Pass<K>>, h: seq<K>, from: nat, ids: seq<nat>) {
    && Ongoing(discover, key, passes, h, from)
    && |ids| < |FindsNext(discover, key, passes, h, from)|
    && Named(h, ids, FindsNext(discover, key, passes, h, from)[..|ids|])
  }

  /** The next key to resolve. */
  ghost function Pending<K>(discover: Discover<K>, key: K, passes: seq<Pass<K>>, h: seq<K>, from: nat, ids: seq<nat>): K
    requires Midway(discover, key, passes, h, from, ids)
  {
    FindsNext(discover, key, passes, h, from)[|ids|]
  }

  /** Between the two times the passes reached the fixed point, so that the build callback ran. */
  ghost predicate ReachedBuild<K>(discover: Discover<K>, key: K, passes: seq<Pass<K>>, h: seq<K>, from: nat, to: nat) {
    Completed(discover, key, passes, h) && passes[0].count == from && passes[|passes| - 1].count == to
  }

  /**
    Why resolving a key with discovery failed while the keys of `stack` were in progress: it was
    one of them, or its passes reached the fixed point and its build callback returned this
    status, or a key of one of its passes failed this way.
  */
  ghost predicate DiscoveryRefusal<K(!new), W>(discover: Discover<K>, build: BuildFn<K, W>, universe: set<K>, key: K, stack: set<K>,
                                               status: Status, h: seq<K>, from: nat, to: nat)
    decreases |universe - stack|
  {
    && !status.Success? && from <= to <= |h| && key !in At(h, to)
    && if key in stack then status.CycleDetected? && from == to
       else
         && key in universe
         && (Narrower(universe, stack, key);
             || (build(key).status == status && exists passes :: ReachedBuild(discover, key, passes, h, from, to))
             || (exists passes, ids ::
                   && Midway(discover, key, passes, h, from, ids)
                   && DiscoveryRefusal(discover, build, universe, Pending(discover, key, passes, h, from, ids), stack + {key},
                                       status, h, Clock(TimeAfter(passes, from), ids), to)))
  }

  /** In one of its passes, which fit the history, the other key is found unresolved. */
  ghost predicate Discovers<K(!new)>(discover: Discover<K>, h: seq<K>, key: K, other: K) {
    exists passes, from, ids ::
      Midway(discover, key, passes, h, from, ids) && Pending(discover, key, passes, h, from, ids) == other
  }

  ghost predicate DiscoveryAt<K(!new)>(discover: Discover<K>, h: seq<K>, p: seq<K>, i: nat)
    requires i + 1 < |p|
  {
    Discovers(discover, h, p[i], p[i + 1])
  }

  ghost predicate DiscoveryPath<K(!new)>(discover: Discover<K>, h: seq<K>, p: seq<K>) {
    |p| >= 1 && forall i :: 0 <= i < |p| - 1 ==> DiscoveryAt(discover, h, p, i)
  }

  lemma DiscoveryCons<K(!new)>(discover: Discover<K>, h: seq<K>, key: K, q: seq<K>)
    requires DiscoveryPath(discover, h, q) && Discovers(discover, h, key, q[0])
    ensures DiscoveryPath(discover, h, [key] + q)
  {
    hide Discovers;
    var p := [key] + q;
    forall j | 0 <= j < |p| - 1
      ensures DiscoveryAt(discover, h, p, j)
    {
      if j > 0 {
        assert DiscoveryAt(discover, h, q, j - 1);
      }
    }
  }

  /** The build callback of a key ran, after a fixed point of passes that fit the history, and returned this. */
  ghost predicate BuildReturned<K(!new), W>(discover: Discover<K>, build: BuildFn<K, W>, h: seq<K>, key: K, status: Status) {
    build(key).status == status && exists passes, from, to :: ReachedBuild(discover, key, passes, h, from, to)
  }

  /**
    A failed resolution with discovery reports the status of a build callback that was reached
    through discovered keys and ran, or a real cycle of discovered keys.
  */
  lemma {:induction false} DiscoveryRefusalHasCause<K(!new), W>(discover: Discover<K>, build: BuildFn<K, W>, universe: set<K>, key: K, stack: set<K>,
                                                                status: Status, h: seq<K>, from: nat, to: nat) returns (p: seq<K>)
    requires DiscoveryRefusal(discover, build, universe, key, stack, status, h, from, to)
    ensures DiscoveryPath(discover, h, p) && p[0] == key
    ensures BuildReturned(discover, build, h, p[|p| - 1], status) || (status.CycleDetected? && Closes(p, stack))
    decreases |universe - stack|
  {
    hide At, ReachedBuild, Midway, Clock;
    p := [key];
    if key !in stack && !(build(key).status == status && exists passes :: ReachedBuild(discover, key, passes, h, from, to)) {
      Narrower(universe, stack, key);
      var passes: seq<Pass<K>>, ids: seq<nat> :|
        && Midway(discover, key, passes, h, from, ids)
        && DiscoveryRefusal(discover, build, universe, Pending(discover, key, passes, h, from, ids), stack + {key},
                            status, h, Clock(TimeAfter(passes, from), ids), to);
      var other := Pending(discover, key, passes, h, from, ids);
      var q := DiscoveryRefusalHasCause(discover, build, universe, other, stack + {key}, status, h, Clock(TimeAfter(passes, from), ids), to);
      assert Discovers(discover, h, key, other);
      DiscoveryCons(discover, h, key, q);
      if Closes(q, stack + {key}) {
        ClosesCons(key, q, stack);
      }
      p := [key] + q;
    }
  }

  // ----- Discovery that goes down a rank always succeeds -----

  /** Every discovered key ranks below the key it is discovered for. */
  ghost predicate Ranked<K(!new)>(discover: Discover<K>, rank: K -> nat) {
    forall key: K, pass: nat, seen: set<K>, d: K :: d in discover(key, pass, seen) ==> rank(d) < rank(key)
  }

  lemma DiscoversDown<K(!new)>(discover: Discover<K>, rank: K -> nat, h: seq<K>, key: K, other: K)
    requires Ranked(discover, rank) && Discovers(discover, h, key, other)
    ensures rank(other) < rank(key)
  {
    hide At, Passes, Clock;
    var passes, from, ids :| Midway(discover, key, passes, h, from, ids) && Pending(discover, key, passes, h, from, ids) == other;
    var seen := At(h, TimeAfter(passes, from));
    UnresolvedExactly(discover(key, |passes|, seen), seen, other);
  }

  lemma {:induction false} PathDown<K(!new)>(discover: Discover<K>, rank: K -> nat, h: seq<K>, p: seq<K>, i: nat, j: nat)
    requires Ranked(discover, rank) && DiscoveryPath(discover, h, p) && i < j < |p|
    ensures rank(p[j]) < rank(p[i])
  {
    hide Discovers, Ranked;
    assert DiscoveryAt(discover, h, p, j - 1);
    DiscoversDown(discover, rank, h, p[j - 1], p[j]);
    if i < j - 1 {
      PathDown(discover, rank, h, p, i, j - 1);
    }
  }

  /** Without cycles among discoverable keys, nothing but a build callback can fail a resolution. */
  lemma RankedFailsInBuild<K(!new), W>(discover: Discover<K>, build: BuildFn<K, W>, universe: set<K>, rank: K -> nat, key: K,
                                       status: Status, h: seq<K>, from: nat, to: nat) returns (p: seq<K>)
    requires Ranked(discover, rank) && DiscoveryRefusal(discover, build, universe, key, {}, status, h, from, to)
    ensures DiscoveryPath(discover, h, p) && p[0] == key && BuildReturned(discover, build, h, p[|p| - 1], status)
  {
    hide Ranked, DiscoveryRefusal, BuildReturned, Discovers;
    p := DiscoveryRefusalHasCause(discover, build, universe, key, {}, status, h, from, to);
    if Closes(p, {}) {
      var i :| 0 <= i < |p| - 1 && p[i] == p[|p| - 1];
      PathDown(discover, rank, h, p, i, |p| - 1);
      assert false;
    }
  }
}
