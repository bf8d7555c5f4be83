/**
  The lazily created value with optimistic concurrency: any number of threads in `ensure`,
  one atomic pointer, and every load, exchange, allocation and deletion a separate step.
*/
module OptimisticLazy {
  import opened Options

  /** Where a thread is inside `ensure`; pointers are numbers. */
  datatype Thread =
    | Calling                        // before the first load
    | Missed                         // loaded null; the factory has to run
    | Made(mine: nat)                // allocated its own value
    | Lost(mine: nat, other: nat)    // the exchange failed; its own value has to go
    | Returned(result: nat)

  datatype State<T> = State(
    value: Option<nat>,
    heap: map<nat, T>,
    deleted: multiset<nat>,
    threads: map<nat, Thread>)

  datatype Step<T> = Enter(t: nat) | Load(t: nat) | Allocate(t: nat, p: nat, made: T) | Exchange(t: nat) | Delete(t: nat)

  function Init<T>(): State<T> {
    State(None, map[], multiset{}, map[])
  }

  predicate Enabled<T>(s: State<T>, step: Step<T>) {
    match step
    case Enter(t) => t !in s.threads
    case Load(t) => t in s.threads && s.threads[t].Calling?
    case Allocate(t, p, _) => t in s.threads && s.threads[t].Missed? && p !in s.heap
    case Exchange(t) => t in s.threads && s.threads[t].Made?
    case Delete(t) => t in s.threads && s.threads[t].Lost?
  }

  function Next<T>(s: State<T>, step: Step<T>): State<T>
    requires Enabled(s, step)
  {
    match step
    case Enter(t) => s.(threads := s.threads[t := Calling])
    case Load(t) => s.(threads := s.threads[t := if s.value.Some? then Returned(s.value.value) else Missed])
    case Allocate(t, p, made) => s.(heap := s.heap[p := made], threads := s.threads[t := Made(p)])
    case Exchange(t) =>
      var mine := s.threads[t].mine;
      if s.value.None? then s.(value := Some(mine), threads := s.threads[t := Returned(mine)])
      else s.(threads := s.threads[t := Lost(mine, s.value.value)])
    case Delete(t) =>
      s.(deleted := s.deleted + multiset{s.threads[t].mine}, threads := s.threads[t := Returned(s.threads[t].other)])
  }

  /** The thread is responsible for this allocation. */
  predicate Owns(th: Thread, p: nat) {
    (th.Made? || th.Lost?) && th.mine == p
  }

  /** Everyone who has a result has the published one; whoever lost knows it. */
  ghost predicate Agreed<T>(s: State<T>) {
    forall t :: t in s.threads ==>
      && (s.threads[t].Returned? ==> s.value == Some(s.threads[t].result))
      && (s.threads[t].Lost? ==> s.value == Some(s.threads[t].other))
  }

  ghost predicate Published<T>(s: State<T>) {
    s.value.Some? ==> s.value.value in s.heap && s.deleted[s.value.value] == 0
  }

  /** A value still owned by its maker is neither published nor deleted. */
  ghost predicate Private<T>(s: State<T>) {
    forall t :: t in s.threads && (s.threads[t].Made? || s.threads[t].Lost?) ==>
      s.threads[t].mine in s.heap && s.deleted[s.threads[t].mine] == 0 && s.value != Some(s.threads[t].mine)
  }

  ghost predicate Exclusive<T>(s: State<T>) {
    forall t, u :: t in s.threads && u in s.threads && t != u && (s.threads[t].Made? || s.threads[t].Lost?) ==>
      !Owns(s.threads[u], s.threads[t].mine)
  }

  ghost predicate DeletedOnce<T>(s: State<T>) {
    forall p :: s.deleted[p] <= 1 && (p in s.deleted ==> p in s.heap)
  }

  ghost predicate OwnedBySomeone<T>(s: State<T>, p: nat) {
    exists t :: t in s.threads && Owns(s.threads[t], p)
  }

  ghost predicate NoLeak<T>(s: State<T>) {
    forall p :: p in s.heap && p !in s.deleted && s.value != Some(p) ==> OwnedBySomeone(s, p)
  }

  /** An allocation is published, owned by exactly one thread, or deleted exactly once, and only one of these. */
  ghost predicate Accounted<T>(s: State<T>) {
    Published(s) && Private(s) && Exclusive(s) && DeletedOnce(s) && NoLeak(s)
  }

  ghost predicate Inv<T>(s: State<T>) {
    Agreed(s) && Accounted(s)
  }

  lemma StepAgreed<T>(s: State<T>, step: Step<T>)
    requires Inv(s) && Enabled(s, step)
    ensures Agreed(Next(s, step))
  {
  }

  lemma StepPublished<T>(s: State<T>, step: Step<T>)
    requires Published(s) && Private(s) && Enabled(s, step)
    ensures Published(Next(s, step))
  {
  }

  lemma StepPrivate<T>(s: State<T>, step: Step<T>)
    requires Published(s) && Private(s) && Exclusive(s) && DeletedOnce(s) && Enabled(s, step)
    ensures Private(Next(s, step))
  {
  }

  lemma StepExclusive<T>(s: State<T>, step: Step<T>)
    requires Private(s) && Exclusive(s) && Enabled(s, step)
    ensures Exclusive(Next(s, step))
  {
  }

  lemma StepNoLeak<T>(s: State<T>, step: Step<T>)
    requires NoLeak(s) && Enabled(s, step)
    ensures NoLeak(Next(s, step))
  {
    var n := Next(s, step);
    forall p | p in n.heap && p !in n.deleted && n.value != Some(p)
      ensures OwnedBySomeone(n, p)
    {
      if step.Allocate? && p == step.p {
        assert Owns(n.threads[step.t], p);
      } else {
        assert OwnedBySomeone(s, p);
        var t :| t in s.threads && Owns(s.threads[t], p);
        assert Owns(n.threads[t], p);
      }
    }
  }

  lemma StepDeletedOnce<T>(s: State<T>, step: Step<T>)
    requires Private(s) && DeletedOnce(s) && Enabled(s, step)
    ensures DeletedOnce(Next(s, step))
  {
  }

  ghost predicate Legal<T>(s: State<T>, steps: seq<Step<T>>)
    decreases |steps|
  {
    steps == [] || (Enabled(s, steps[0]) && Legal(Next(s, steps[0]), steps[1..]))
  }

  ghost function After<T>(s: State<T>, steps: seq<Step<T>>): State<T>
    requires Legal(s, steps)
    decreases |steps|
  {
    if steps == [] then s else After(Next(s, steps[0]), steps[1..])
  }

  lemma {:induction false} RunInv<T>(s: State<T>, steps: seq<Step<T>>)
    requires Inv(s) && Legal(s, steps)
    ensures Inv(After(s, steps))
    ensures s.value.Some? ==> After(s, steps).value == s.value
    ensures forall p :: p in s.heap ==> p in After(s, steps).heap && After(s, steps).heap[p] == s.heap[p]
    decreases |steps|
  {
    hide Inv;
    if steps != [] {
      StepInv(s, steps[0]);
      RunInv(Next(s, steps[0]), steps[1..]);
    }
  }

  lemma StepInv<T>(s: State<T>, step: Step<T>)
    requires Inv(s) && Enabled(s, step)
    ensures Inv(Next(s, step))
  {
    StepAgreed(s, step);
    StepPublished(s, step);
    StepPrivate(s, step);
    StepExclusive(s, step);
    StepDeletedOnce(s, step);
    StepNoLeak(s, step);
  }

  ghost predicate FactoryMade<T>(steps: seq<Step<T>>, p: nat, v: T) {
    exists i :: 0 <= i < |steps| && steps[i].Allocate? && steps[i].p == p && steps[i].made == v
  }

  /** Everything on the heap is what some thread's factory returned. */
  lemma {:induction false} HeapFromFactories<T>(s: State<T>, steps: seq<Step<T>>, p: nat)
    requires Legal(s, steps) && p in After(s, steps).heap
    ensures (p in s.heap && s.heap[p] == After(s, steps).heap[p]) || FactoryMade(steps, p, After(s, steps).heap[p])
    decreases |steps|
  {
    if steps != [] {
      var n, rest := Next(s, steps[0]), steps[1..];
      HeapFromFactories(n, rest, p);
      var v := After(s, steps).heap[p];
      if FactoryMade(rest, p, v) {
        var i :| 0 <= i < |rest| && rest[i].Allocate? && rest[i].p == p && rest[i].made == v;
        assert steps[i + 1] == rest[i];
      }
    }
  }

  /**
    In every interleaving, all callers return the same pointer; it is never deleted and holds
    a value some caller's factory made. A value that was made is deleted at most once, and when
    all callers have returned every other allocation has been deleted exactly once.
  */
  lemma AllCallersAgree<T>(steps: seq<Step<T>>)
    requires Legal(Init<T>(), steps)
    ensures var s := After(Init<T>(), steps);
      && (forall t, u :: t in s.threads && u in s.threads && s.threads[t].Returned? && s.threads[u].Returned? ==>
            s.threads[t].result == s.threads[u].result)
      && (forall t :: t in s.threads && s.threads[t].Returned? ==>
            && s.threads[t].result in s.heap && s.deleted[s.threads[t].result] == 0
            && FactoryMade(steps, s.threads[t].result, s.heap[s.threads[t].result]))
      && (forall p :: s.deleted[p] <= 1)
      && ((forall t :: t in s.threads ==> s.threads[t].Returned?) ==>
            forall p :: p in s.heap ==> s.deleted[p] == if s.value == Some(p) then 0 else 1)
  {
    hide FactoryMade;
    RunInv(Init<T>(), steps);
    var s := After(Init<T>(), steps);
    forall p | p in s.heap
      ensures FactoryMade(steps, p, s.heap[p])
    {
      HeapFromFactories(Init<T>(), steps, p);
    }
  }

  // ----- Calls end, and late calls make nothing -----

  /** The step belongs to a call that found nothing when it loaded. */
  predicate Makes<T>(step: Step<T>, t: nat) {
    step.t == t && (step.Allocate? || step.Exchange? || step.Delete?)
  }

  /** A thread that has not loaded yet, or has returned what is published. */
  ghost predicate Late<T>(s: State<T>, t: nat) {
    s.value.Some? && (t in s.threads ==> s.threads[t].Calling? || s.threads[t] == Returned(s.value.value))
  }

  /**
    Once a value is published, a call that enters or loads later runs no factory, allocates and
    deletes nothing, and can only return the published pointer.
  */
  lemma {:induction false} LateCallMakesNothing<T>(s: State<T>, steps: seq<Step<T>>, t: nat)
    requires Legal(s, steps) && Late(s, t)
    ensures forall i :: 0 <= i < |steps| ==> !Makes(steps[i], t)
    ensures Late(After(s, steps), t) && After(s, steps).value == s.value
    decreases |steps|
  {
    if steps != [] {
      var rest := steps[1..];
      LateCallMakesNothing(Next(s, steps[0]), rest, t);
      forall i | 0 <= i < |steps|
        ensures !Makes(steps[i], t)
      {
        if i > 0 {
          assert steps[i] == rest[i - 1];
        }
      }
    }
  }

  lemma LegalCons<T>(s: State<T>, step: Step<T>, rest: seq<Step<T>>)
    requires Enabled(s, step) && Legal(Next(s, step), rest)
    ensures Legal(s, [step] + rest) && After(s, [step] + rest) == After(Next(s, step), rest)
  {
    assert ([step] + rest)[1..] == rest;
  }

  function StepsLeft(th: Thread): nat {
    match th
    case Calling => 4
    case Missed => 3
    case Made(_) => 2
    case Lost(_, _) => 1
    case Returned(_) => 0
  }

  /** A call never waits for another one: alone, it returns within four steps, and what is then published. */
  lemma {:induction false} CallReturns<T>(s: State<T>, t: nat, p: nat, made: T) returns (steps: seq<Step<T>>)
    requires Inv(s) && t in s.threads && (s.threads[t].Calling? || s.threads[t].Missed? ==> p !in s.heap)
    ensures Legal(s, steps) && |steps| <= StepsLeft(s.threads[t]) <= 4
    ensures var r := After(s, steps);
      && t in r.threads && r.threads[t].Returned? && r.value == Some(r.threads[t].result)
      && (s.value.Some? ==> r.value == s.value)
    decreases StepsLeft(s.threads[t])
  {
    hide Accounted;
    steps := [];
    if !s.threads[t].Returned? {
      var step: Step<T>;
      match s.threads[t] {
        case Missed => step := Allocate(t, p, made);
        case Made(_) => step := Exchange(t);
        case Lost(_, _) => step := Delete(t);
        case _ => step := Load(t);
      }
      StepInv(s, step);
      var rest := CallReturns(Next(s, step), t, p, made);
      LegalCons(s, step, rest);
      steps := [step] + rest;
    }
  }
}
