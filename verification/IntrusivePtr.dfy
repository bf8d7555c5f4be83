/**
  Strong and weak intrusive reference counting: one 64-bit word, with the strong count in the
  low half and the weak count in the high half, and the handles of all threads to one object.

  Every atomic access to the word is one step, interleaved in any order (sequential
  consistency). A handle that is being destroyed is in one of the release states and is not
  used for anything else; any number of `lock` calls may be in flight on a weak handle.
*/
module IntrusivePtr {
  import opened Options

  const HALF: nat := 0x1_0000_0000
  const WORD: nat := 0x1_0000_0000_0000_0000

  const STRONG_ONE: nat := 1
  const WEAK_ONE: nat := 0x1_0000_0000
  const UNIQUE: nat := 0x1_0000_0001

  function Refcount(w: nat): nat {
    w % HALF
  }

  function Weakcount(w: nat): nat {
    w / HALF % HALF
  }

  /** Wrapping atomic addition and subtraction; both return the new word, as the primitives do. */
  function FetchAdd(w: nat, x: nat): nat {
    (w + x) % WORD
  }

  function FetchSub(w: nat, x: nat): nat
    requires x <= WORD
  {
    (w + WORD - x) % WORD
  }

  function Combined(weak: nat, strong: nat): nat {
    weak * HALF + strong
  }

  /** While both counts fit their halves, nothing carries or borrows between them. */
  lemma Halves(weak: nat, strong: nat)
    requires weak < HALF && strong < HALF
    ensures Combined(weak, strong) < WORD
    ensures Refcount(Combined(weak, strong)) == strong && Weakcount(Combined(weak, strong)) == weak
    ensures strong + 1 < HALF ==> FetchAdd(Combined(weak, strong), STRONG_ONE) == Combined(weak, strong + 1)
    ensures weak + 1 < HALF ==> FetchAdd(Combined(weak, strong), WEAK_ONE) == Combined(weak + 1, strong)
    ensures strong > 0 ==> FetchSub(Combined(weak, strong), STRONG_ONE) == Combined(weak, strong - 1)
    ensures weak > 0 ==> FetchSub(Combined(weak, strong), WEAK_ONE) == Combined(weak - 1, strong)
  {
    assert Combined(weak, strong) / HALF == weak;
  }

  /** One handle too many: the strong half wraps to zero into the weak half while handles exist. */
  lemma StrongOverflow(weak: nat)
    requires weak + 1 < HALF
    ensures var w := FetchAdd(Combined(weak, HALF - 1), STRONG_ONE);
      Refcount(w) == 0 && Weakcount(w) == weak + 1
  {
    Halves(weak + 1, 0);
    assert Combined(weak, HALF - 1) + 1 == Combined(weak + 1, 0);
  }

  // ----- Handles -----

  datatype Handle =
    | Strong
    | SawUnique        // released: loaded the word with both counts one
    | SawShared        // released: loaded anything else
    | LastStrong       // dropped the last strong count; resources not yet released
    | Released         // resources released; weak count of the strong side not yet dropped
    | Deleting         // must delete the object
    | Weak(attempts: multiset<nat>)  // with the words that in-flight lock calls have loaded

  /** Which count a handle stands for. */
  datatype Kind = CountsStrong | CountsWeak | HoldsLast | OwesDelete

  function KindOf(h: Handle): Kind {
    match h
    case Strong => CountsStrong
    case SawUnique => CountsStrong
    case SawShared => CountsStrong
    case LastStrong => HoldsLast
    case Released => HoldsLast
    case Deleting => OwesDelete
    case Weak(_) => CountsWeak
  }

  ghost function Members(hs: map<nat, Handle>, k: Kind): set<nat> {
    set i | i in hs && KindOf(hs[i]) == k
  }

  ghost function Number(hs: map<nat, Handle>, k: Kind): nat {
    |Members(hs, k)|
  }

  function Is(h: Handle, k: Kind): nat {
    if KindOf(h) == k then 1 else 0
  }

  lemma NumberAdd(hs: map<nat, Handle>, i: nat, h: Handle, k: Kind)
    requires i !in hs
    ensures Number(hs[i := h], k) == Number(hs, k) + Is(h, k)
  {
    var added := if KindOf(h) == k then {i} else {};
    assert Members(hs[i := h], k) == Members(hs, k) + added;
  }

  lemma NumberDrop(hs: map<nat, Handle>, i: nat, k: Kind)
    requires i in hs
    ensures Number(hs - {i}, k) == Number(hs, k) - Is(hs[i], k)
  {
    var dropped := if KindOf(hs[i]) == k then {i} else {};
    assert Members(hs - {i}, k) == Members(hs, k) - dropped;
  }

  lemma NumberSet(hs: map<nat, Handle>, i: nat, h: Handle, k: Kind)
    requires i in hs
    ensures Number(hs[i := h], k) == Number(hs, k) - Is(hs[i], k) + Is(h, k)
  {
    NumberDrop(hs, i, k);
    NumberAdd(hs - {i}, i, h, k);
    assert (hs - {i})[i := h] == hs[i := h];
  }

  lemma NumberOne(hs: map<nat, Handle>, i: nat)
    requires i in hs
    ensures Number(hs, KindOf(hs[i])) >= 1
  {
    assert i in Members(hs, KindOf(hs[i]));
  }

  /** Two different handles of one kind make at least two. */
  lemma NumberTwo(hs: map<nat, Handle>, i: nat, j: nat)
    requires i in hs && j in hs && i != j && KindOf(hs[i]) == KindOf(hs[j])
    ensures Number(hs, KindOf(hs[i])) >= 2
  {
    assert {i, j} <= Members(hs, KindOf(hs[i]));
    assert Members(hs, KindOf(hs[i])) == {i, j} + (Members(hs, KindOf(hs[i])) - {i, j});
  }

  // ----- The object and the steps -----

  datatype State = State(word: nat, handles: map<nat, Handle>, releases: nat, deletes: nat)

  datatype Step =
    | CopyStrong(h: nat, made: nat)
    | CopyWeak(h: nat, made: nat)
    | ReleaseLoad(h: nat)
    | FastStore(h: nat)
    | SlowDecrement(h: nat)
    | ReleaseResources(h: nat)
    | DropLast(h: nat)
    | Delete(h: nat)
    | WeakRelease(h: nat)
    | LockLoad(h: nat)
    | LockExpired(h: nat, seen: nat)
    | LockRetry(h: nat, seen: nat)
    | LockExchange(h: nat, seen: nat, made: nat)

  /** A new object with its first strong handle. */
  function Made(h: nat): State {
    State(UNIQUE, map[h := Strong], 0, 0)
  }

  ghost function StrongCount(s: State): nat {
    Number(s.handles, CountsStrong)
  }

  ghost function WeakCount(s: State): nat {
    Number(s.handles, CountsWeak)
  }

  predicate Idle(s: State, h: nat) {
    h in s.handles && (s.handles[h].Strong? || s.handles[h].Weak?)
  }

  predicate Attempting(s: State, h: nat, seen: nat) {
    h in s.handles && s.handles[h].Weak? && seen in s.handles[h].attempts
  }

  /** A thread may take the step; new handles keep both counts below 2^32. */
  ghost predicate Enabled(s: State, step: Step) {
    match step
    case CopyStrong(h, f) => h in s.handles && s.handles[h].Strong? && f !in s.handles && StrongCount(s) + 1 < HALF
    case CopyWeak(h, f) => Idle(s, h) && f !in s.handles && WeakCount(s) + 2 < HALF
    case ReleaseLoad(h) => h in s.handles && s.handles[h].Strong?
    case FastStore(h) => h in s.handles && s.handles[h].SawUnique?
    case SlowDecrement(h) => h in s.handles && s.handles[h].SawShared?
    case ReleaseResources(h) => h in s.handles && s.handles[h].LastStrong?
    case DropLast(h) => h in s.handles && s.handles[h].Released?
    case Delete(h) => h in s.handles && s.handles[h].Deleting?
    case WeakRelease(h) => h in s.handles && s.handles[h] == Weak(multiset{})
    case LockLoad(h) => h in s.handles && s.handles[h].Weak?
    case LockExpired(h, seen) => Attempting(s, h, seen) && Refcount(seen) == 0
    case LockRetry(h, seen) => Attempting(s, h, seen) && Refcount(seen) != 0
    case LockExchange(h, seen, f) =>
      Attempting(s, h, seen) && Refcount(seen) != 0 && s.word == seen && f !in s.handles && StrongCount(s) + 1 < HALF
  }

  /** What a release does once its decrement has returned the new word. */
  function AfterDecrement(s: State, h: nat, w: nat, next: Option<Handle>): State
    requires h in s.handles
  {
    match next
    case None => s.(word := w, handles := s.handles - {h})
    case Some(x) => s.(word := w, handles := s.handles[h := x])
  }

  function Next(s: State, step: Step): State
    requires Enabled(s, step)
  {
    match step
    case CopyStrong(_, f) => s.(word := FetchAdd(s.word, STRONG_ONE), handles := s.handles[f := Strong])
    case CopyWeak(_, f) => s.(word := FetchAdd(s.word, WEAK_ONE), handles := s.handles[f := Weak(multiset{})])
    case ReleaseLoad(h) => s.(handles := s.handles[h := if s.word == UNIQUE then SawUnique else SawShared])
    case FastStore(h) => s.(word := 0, handles := s.handles[h := Deleting])
    case SlowDecrement(h) =>
      var w := FetchSub(s.word, STRONG_ONE);
      AfterDecrement(s, h, w,
                     if Refcount(w) != 0 then None
                     else if w == WEAK_ONE then Some(Deleting)
                     else Some(LastStrong))
    case ReleaseResources(h) => s.(handles := s.handles[h := Released], releases := s.releases + 1)
    case DropLast(h) =>
      var w := FetchSub(s.word, WEAK_ONE);
      AfterDecrement(s, h, w, if Weakcount(w) == 0 then Some(Deleting) else None)
    case Delete(h) => s.(handles := s.handles - {h}, deletes := s.deletes + 1)
    case WeakRelease(h) =>
      var w := FetchSub(s.word, WEAK_ONE);
      AfterDecrement(s, h, w, if Weakcount(w) == 0 then Some(Deleting) else None)
    case LockLoad(h) => s.(handles := s.handles[h := Weak(s.handles[h].attempts + multiset{s.word})])
    case LockExpired(h, seen) => s.(handles := s.handles[h := Weak(s.handles[h].attempts - multiset{seen})])
    case LockRetry(h, seen) =>
      s.(handles := s.handles[h := Weak(s.handles[h].attempts - multiset{seen} + multiset{s.word})])
    case LockExchange(h, seen, f) =>
      s.(word := FetchAdd(seen, STRONG_ONE),
         handles := s.handles[h := Weak(s.handles[h].attempts - multiset{seen})][f := Strong])
  }

  // ----- The invariant -----

  /** Weak handles, plus one for the strong side until its last releaser drops it. */
  ghost function WeakHalf(s: State): nat {
    WeakCount(s) + if StrongCount(s) > 0 || Number(s.handles, HoldsLast) > 0 then 1 else 0
  }

  ghost predicate Counted(s: State) {
    && StrongCount(s) < HALF && WeakCount(s) + 1 < HALF
    && Number(s.handles, HoldsLast) <= 1 && (Number(s.handles, HoldsLast) == 1 ==> StrongCount(s) == 0)
    && Number(s.handles, OwesDelete) <= 1
    && (Number(s.handles, OwesDelete) == 0 && s.deletes == 0 ==> s.word == Combined(WeakHalf(s), StrongCount(s)))
    && (Number(s.handles, OwesDelete) == 1 ==>
          StrongCount(s) == 0 && WeakCount(s) == 0 && Number(s.handles, HoldsLast) == 0 && (s.word == 0 || s.word == WEAK_ONE))
  }

  ghost predicate UniqueSeen(s: State) {
    forall i :: i in s.handles && s.handles[i].SawUnique? ==>
      StrongCount(s) == 1 && WeakCount(s) == 0 && Number(s.handles, HoldsLast) == 0 && s.word == UNIQUE
  }

  ghost predicate ReleasedOnce(s: State) {
    && s.releases <= 1
    && (StrongCount(s) > 0 ==> s.releases == 0)
    && (forall i :: i in s.handles && s.handles[i].LastStrong? ==> s.releases == 0)
    && (forall i :: i in s.handles && s.handles[i].Released? ==> s.releases == 1)
  }

  /** A lock attempt has seen a zero strong count only if there is none any more. */
  ghost predicate ZeroSeen(s: State) {
    forall i, seen :: i in s.handles && s.handles[i].Weak? && seen in s.handles[i].attempts && Refcount(seen) == 0 ==>
      StrongCount(s) == 0
  }

  ghost predicate Lifetime(s: State) {
    && s.deletes <= 1
    && (s.deletes == 1 <==> s.handles == map[])
  }

  ghost predicate Inv(s: State) {
    Counted(s) && UniqueSeen(s) && ReleasedOnce(s) && ZeroSeen(s) && Lifetime(s)
  }

  lemma NumberNone(hs: map<nat, Handle>)
    ensures hs == map[] ==> forall k :: Number(hs, k) == 0
    ensures Number(hs, CountsStrong) == Number(hs, CountsWeak) == Number(hs, HoldsLast) == Number(hs, OwesDelete) == 0 ==> hs == map[]
  {
    if hs == map[] {
      forall k
        ensures Number(hs, k) == 0
      {
        assert Members(hs, k) == {};
      }
    } else {
      var i :| i in hs;
      NumberOne(hs, i);
    }
  }

  lemma MadeInv(h: nat)
    ensures Inv(Made(h))
  {
    var hs: map<nat, Handle> := map[];
    forall k
      ensures Number(Made(h).handles, k) == Is(Strong, k)
    {
      NumberNone(hs);
      NumberAdd(hs, h, Strong, k);
      assert hs[h := Strong] == Made(h).handles;
    }
    Halves(1, 1);
  }

  // ----- Tallies of all four kinds -----

  ghost predicate Tally(hs: map<nat, Handle>, strong: int, weak: int, last: int, owed: int) {
    && Number(hs, CountsStrong) == strong && Number(hs, CountsWeak) == weak
    && Number(hs, HoldsLast) == last && Number(hs, OwesDelete) == owed
  }

  lemma TallyAdd(hs: map<nat, Handle>, i: nat, h: Handle)
    requires i !in hs
    ensures Tally(hs[i := h], Number(hs, CountsStrong) + Is(h, CountsStrong), Number(hs, CountsWeak) + Is(h, CountsWeak),
                  Number(hs, HoldsLast) + Is(h, HoldsLast), Number(hs, OwesDelete) + Is(h, OwesDelete))
  {
    hide Number, Is;
    NumberAdd(hs, i, h, CountsStrong);
    NumberAdd(hs, i, h, CountsWeak);
    NumberAdd(hs, i, h, HoldsLast);
    NumberAdd(hs, i, h, OwesDelete);
  }

  lemma TallyDrop(hs: map<nat, Handle>, i: nat)
    requires i in hs
    ensures Tally(hs - {i}, Number(hs, CountsStrong) - Is(hs[i], CountsStrong), Number(hs, CountsWeak) - Is(hs[i], CountsWeak),
                  Number(hs, HoldsLast) - Is(hs[i], HoldsLast), Number(hs, OwesDelete) - Is(hs[i], OwesDelete))
  {
    hide Number, Is;
    NumberDrop(hs, i, CountsStrong);
    NumberDrop(hs, i, CountsWeak);
    NumberDrop(hs, i, HoldsLast);
    NumberDrop(hs, i, OwesDelete);
  }

  lemma TallySet(hs: map<nat, Handle>, i: nat, h: Handle)
    requires i in hs
    ensures Tally(hs[i := h],
                  Number(hs, CountsStrong) - Is(hs[i], CountsStrong) + Is(h, CountsStrong),
                  Number(hs, CountsWeak) - Is(hs[i], CountsWeak) + Is(h, CountsWeak),
                  Number(hs, HoldsLast) - Is(hs[i], HoldsLast) + Is(h, HoldsLast),
                  Number(hs, OwesDelete) - Is(hs[i], OwesDelete) + Is(h, OwesDelete))
  {
    hide Number, Is;
    NumberSet(hs, i, h, CountsStrong);
    NumberSet(hs, i, h, CountsWeak);
    NumberSet(hs, i, h, HoldsLast);
    NumberSet(hs, i, h, OwesDelete);
  }

  /** A handle whose kind counts keeps the object undeleted and the word exact. */
  lemma Alive(s: State, h: nat)
    requires Inv(s) && h in s.handles && !s.handles[h].Deleting?
    ensures s.deletes == 0 && Number(s.handles, OwesDelete) == 0
    ensures s.word == Combined(WeakHalf(s), StrongCount(s)) && WeakHalf(s) < HALF && StrongCount(s) < HALF
    ensures KindOf(s.handles[h]) == CountsStrong ==> StrongCount(s) >= 1
    ensures KindOf(s.handles[h]) == CountsWeak ==> WeakCount(s) >= 1
    ensures KindOf(s.handles[h]) == HoldsLast ==> Number(s.handles, HoldsLast) == 1
  {
    NumberOne(s.handles, h);
  }

  /** Another strong handle rules out a unique owner. */
  lemma NotUnique(s: State, h: nat)
    requires Inv(s) && h in s.handles && (s.handles[h].Strong? || s.handles[h].SawShared? || s.handles[h].Weak?)
    ensures forall i :: i in s.handles ==> !s.handles[i].SawUnique?
  {
    hide Number;
    Alive(s, h);
    forall i | i in s.handles
      ensures !s.handles[i].SawUnique?
    {
      if s.handles[i].SawUnique? && !s.handles[h].Weak? {
        NumberTwo(s.handles, i, h);
      }
    }
  }

  // ----- Every step keeps the invariant -----

  lemma CopyInv(s: State, step: Step)
    requires Inv(s) && Enabled(s, step) && (step.CopyStrong? || step.CopyWeak?)
    ensures Inv(Next(s, step))
  {
    hide Number, Combined, FetchAdd;
    Alive(s, step.h);
    if s.handles[step.h].Weak? || s.handles[step.h].Strong? {
      NotUnique(s, step.h);
    }
    Halves(WeakHalf(s), StrongCount(s));
    TallyAdd(s.handles, step.made, if step.CopyStrong? then Strong else Weak(multiset{}));
    var t := Next(s, step);
    assert step.made in t.handles;
    assert forall i :: i in t.handles ==> !t.handles[i].SawUnique?;
  }

  lemma ReleaseLoadInv(s: State, h: nat)
    requires Inv(s) && Enabled(s, ReleaseLoad(h))
    ensures Inv(Next(s, ReleaseLoad(h)))
  {
    hide Number;
    Alive(s, h);
    NotUnique(s, h);
    Halves(WeakHalf(s), StrongCount(s));
    var x := if s.word == UNIQUE then SawUnique else SawShared;
    TallySet(s.handles, h, x);
    var t := Next(s, ReleaseLoad(h));
    assert h in t.handles;
    if s.word == UNIQUE {
      assert Refcount(UNIQUE) == 1 && Weakcount(UNIQUE) == 1;
    }
  }

  lemma FastStoreInv(s: State, h: nat)
    requires Inv(s) && Enabled(s, FastStore(h))
    ensures Inv(Next(s, FastStore(h)))
  {
    hide Number, Combined;
    Alive(s, h);
    TallySet(s.handles, h, Deleting);
    var t := Next(s, FastStore(h));
    assert h in t.handles;
    NoneLeft(t);
  }

  /** With no strong count left, nobody is between the load and the store of a unique release. */
  lemma NoneLeft(s: State)
    requires StrongCount(s) == 0 && Number(s.handles, HoldsLast) == 0
    ensures forall i :: i in s.handles ==> s.handles[i].Deleting? || s.handles[i].Weak?
  {
    hide Number;
    forall i | i in s.handles
      ensures s.handles[i].Deleting? || s.handles[i].Weak?
    {
      NumberOne(s.handles, i);
    }
  }

  /** Counts that are not all zero leave somebody holding a handle. */
  lemma SomebodyLeft(hs: map<nat, Handle>)
    requires Number(hs, CountsStrong) > 0 || Number(hs, CountsWeak) > 0 || Number(hs, HoldsLast) > 0
    ensures hs != map[]
  {
    NumberNone(hs);
  }

  lemma SlowDecrementInv(s: State, h: nat)
    requires Inv(s) && Enabled(s, SlowDecrement(h))
    ensures Inv(Next(s, SlowDecrement(h)))
    ensures var t := Next(s, SlowDecrement(h));
      && (h in t.handles && t.handles[h].LastStrong? <==> StrongCount(s) == 1 && WeakCount(s) > 0)
      && (h in t.handles && t.handles[h].Deleting? <==> StrongCount(s) == 1 && WeakCount(s) == 0)
  {
    hide Number, FetchSub, Combined, Refcount;
    Alive(s, h);
    NotUnique(s, h);
    Halves(WeakHalf(s), StrongCount(s));
    Halves(WeakHalf(s), StrongCount(s) - 1);
    assert Combined(WeakHalf(s), 0) == WEAK_ONE <==> WeakHalf(s) == 1 by { OnlyWeakOne(WeakHalf(s)); }
    TallyDrop(s.handles, h);
    TallySet(s.handles, h, Deleting);
    TallySet(s.handles, h, LastStrong);
    var t := Next(s, SlowDecrement(h));
    if StrongCount(s) > 1 {
      SomebodyLeft(t.handles);
    } else {
      assert h in t.handles;
    }
  }

  lemma OnlyWeakOne(weak: nat)
    ensures Combined(weak, 0) == WEAK_ONE <==> weak == 1
  {
  }

  lemma ReleaseResourcesInv(s: State, h: nat)
    requires Inv(s) && Enabled(s, ReleaseResources(h))
    ensures Inv(Next(s, ReleaseResources(h)))
  {
    hide Number, Combined;
    Alive(s, h);
    TallySet(s.handles, h, Released);
    var t := Next(s, ReleaseResources(h));
    assert h in t.handles;
    forall i | i in t.handles
      ensures !t.handles[i].LastStrong?
    {
      if t.handles[i].LastStrong? {
        NumberTwo(s.handles, i, h);
      }
    }
  }

  /** The strong side's weak count is dropped only after the resources have been released. */
  lemma DropLastInv(s: State, h: nat)
    requires Inv(s) && Enabled(s, DropLast(h))
    ensures Inv(Next(s, DropLast(h))) && s.releases == 1
    ensures h in Next(s, DropLast(h)).handles <==> WeakCount(s) == 0
  {
    hide Number, FetchSub, Combined, Weakcount;
    Alive(s, h);
    Halves(WeakHalf(s), StrongCount(s));
    Halves(WeakHalf(s) - 1, StrongCount(s));
    TallyDrop(s.handles, h);
    TallySet(s.handles, h, Deleting);
    assert Combined(0, 0) == 0 by { CombinedZero(); }
    var t := Next(s, DropLast(h));
    NoneLeft(t);
    if WeakCount(s) > 0 {
      SomebodyLeft(t.handles);
    } else {
      assert h in t.handles;
    }
  }

  lemma CombinedZero()
    ensures Combined(0, 0) == 0
  {
  }

  lemma WeakReleaseInv(s: State, h: nat)
    requires Inv(s) && Enabled(s, WeakRelease(h))
    ensures Inv(Next(s, WeakRelease(h)))
    ensures h in Next(s, WeakRelease(h)).handles <==> WeakHalf(s) == 1
  {
    hide Number, FetchSub, Combined, Weakcount;
    Alive(s, h);
    NotUnique(s, h);
    Halves(WeakHalf(s), StrongCount(s));
    Halves(WeakHalf(s) - 1, StrongCount(s));
    TallyDrop(s.handles, h);
    TallySet(s.handles, h, Deleting);
    assert Combined(0, 0) == 0 by { CombinedZero(); }
    var t := Next(s, WeakRelease(h));
    if WeakHalf(s) > 1 {
      SomebodyLeft(t.handles);
    } else {
      assert h in t.handles;
    }
  }

  lemma DeleteInv(s: State, h: nat)
    requires Inv(s) && Enabled(s, Delete(h))
    ensures Inv(Next(s, Delete(h)))
  {
    hide Number, Combined;
    NumberOne(s.handles, h);
    TallyDrop(s.handles, h);
    NumberNone(s.handles - {h});
  }

  predicate IsLock(step: Step) {
    step.LockLoad? || step.LockExpired? || step.LockRetry? || step.LockExchange?
  }

  /** New attempts show the present count, and a strong handle is only made when there is one. */
  lemma LockZeroSeen(s: State, step: Step)
    requires Inv(s) && Enabled(s, step) && IsLock(step)
    ensures ZeroSeen(Next(s, step))
  {
    WordIsExact(s, step.h);
    LockStrongCount(s, step);
    hide Inv, StrongCount, Refcount, FetchAdd;
  }

  lemma LockStrongCount(s: State, step: Step)
    requires Inv(s) && Enabled(s, step) && IsLock(step)
    ensures StrongCount(Next(s, step)) == 0 <==> StrongCount(s) == 0
    ensures ZeroSeen(s)
  {
    if StrongCount(s) == 0 {
      ExpiredStep(s, step);
    } else {
      LockCounts(s, step);
    }
  }

  /** What a step of lock does to the handles and the word, apart from what its attempt has seen. */
  ghost predicate LockEffect(s: State, t: State, made: nat) {
    && Tally(t.handles, StrongCount(s) + made, WeakCount(s), Number(s.handles, HoldsLast), Number(s.handles, OwesDelete))
    && t.word == (if made > 0 then FetchAdd(s.word, made) else s.word)
    && t.releases == s.releases && t.deletes == s.deletes && t.handles != map[]
    && (forall i :: i in t.handles && !t.handles[i].Weak? && !t.handles[i].Strong? ==> i in s.handles && s.handles[i] == t.handles[i])
  }

  /** A successful exchange adds one strong handle; the other steps only change what an attempt has seen. */
  lemma LockCounts(s: State, step: Step)
    requires Enabled(s, step) && IsLock(step)
    ensures LockEffect(s, Next(s, step), if step.LockExchange? then STRONG_ONE else 0)
  {
    hide Number, FetchAdd, Refcount;
    var h := step.h;
    var t := Next(s, step);
    var between := s.handles[h := t.handles[h]];
    TallySet(s.handles, h, t.handles[h]);
    assert h in t.handles;
    if step.LockExchange? {
      TallyAdd(between, step.made, Strong);
      assert t.handles == between[step.made := Strong];
    } else {
      assert t.handles == between;
    }
  }

  lemma LockEffectInv(s: State, h: nat, t: State, made: nat)
    requires Inv(s) && h in s.handles && s.handles[h].Weak? && LockEffect(s, t, made)
    requires made <= STRONG_ONE && (made > 0 ==> 0 < StrongCount(s) && StrongCount(s) + 1 < HALF)
    ensures Counted(t) && UniqueSeen(t) && ReleasedOnce(t) && Lifetime(t)
  {
    hide Number, Combined, FetchAdd, Refcount;
    Alive(s, h);
    NotUnique(s, h);
    Halves(WeakHalf(s), StrongCount(s));
  }

  lemma LockInv(s: State, step: Step)
    requires Inv(s) && Enabled(s, step) && IsLock(step)
    ensures Inv(Next(s, step))
  {
    LockZeroSeen(s, step);
    LockCounts(s, step);
    if step.LockExchange? {
      WordIsExact(s, step.h);
    }
    hide Next, LockEffect, StrongCount, Counted, UniqueSeen, ReleasedOnce, ZeroSeen, Lifetime, Refcount;
    LockEffectInv(s, step.h, Next(s, step), if step.LockExchange? then STRONG_ONE else 0);
  }

  lemma StepInv(s: State, step: Step)
    requires Inv(s) && Enabled(s, step)
    ensures Inv(Next(s, step))
  {
    hide Inv, Enabled, Next;
    match step
    case CopyStrong(_, _) => CopyInv(s, step);
    case CopyWeak(_, _) => CopyInv(s, step);
    case ReleaseLoad(h) => ReleaseLoadInv(s, h);
    case FastStore(h) => FastStoreInv(s, h);
    case SlowDecrement(h) => SlowDecrementInv(s, h);
    case ReleaseResources(h) => ReleaseResourcesInv(s, h);
    case DropLast(h) => DropLastInv(s, h);
    case Delete(h) => DeleteInv(s, h);
    case WeakRelease(h) => WeakReleaseInv(s, h);
    case LockLoad(_) => LockInv(s, step);
    case LockExpired(_, _) => LockInv(s, step);
    case LockRetry(_, _) => LockInv(s, step);
    case LockExchange(_, _, _) => LockInv(s, step);
  }

  // ----- Whole runs -----

  ghost predicate Legal(s: State, steps: seq<Step>)
    decreases steps
  {
    steps == [] || (Enabled(s, steps[0]) && Legal(Next(s, steps[0]), steps[1..]))
  }

  ghost function After(s: State, steps: seq<Step>): State
    requires Legal(s, steps)
    decreases steps
  {
    if steps == [] then s else After(Next(s, steps[0]), steps[1..])
  }

  /** The invariant holds at the end of every interleaving of every set of threads. */
  lemma {:induction false} RunInv(s: State, steps: seq<Step>)
    requires Inv(s) && Legal(s, steps)
    ensures Inv(After(s, steps))
    decreases steps
  {
    hide Inv, Enabled, Next;
    if steps != [] {
      StepInv(s, steps[0]);
      RunInv(Next(s, steps[0]), steps[1..]);
    }
  }

  /** Every access to the object, and every deletion, happens while it has not been deleted. */
  lemma AccessBeforeDelete(s: State, step: Step)
    requires Inv(s) && Enabled(s, step)
    ensures s.deletes == 0
  {
    assert step.h in s.handles;
  }

  /**
    The deleting thread is alone: no strong or weak handle, and no other release, is left. The
    counts it leaves are the ones the destructor's own checks accept.
  */
  lemma DeleteIsAlone(s: State, h: nat)
    requires Inv(s) && Enabled(s, Delete(h))
    ensures s.handles.Keys == {h}
    ensures Refcount(s.word) == 0 && Weakcount(s.word) <= 1
  {
    hide Number;
    NumberOne(s.handles, h);
    forall i | i in s.handles
      ensures i == h
    {
      NumberOne(s.handles, i);
      if i != h && s.handles[i].Deleting? {
        NumberTwo(s.handles, i, h);
      }
    }
    Halves(0, 0);
    Halves(1, 0);
  }

  /** A release takes the unique-owner path exactly when its handle is the only one. */
  lemma FastPathTaken(s: State, h: nat)
    requires Inv(s) && Enabled(s, ReleaseLoad(h))
    ensures Next(s, ReleaseLoad(h)).handles[h].SawUnique? <==> s.handles.Keys == {h}
  {
    hide Number, Combined;
    ReleaseLoadInv(s, h);
    WordIsExact(s, h);
    OnlyUnique(WeakHalf(s), StrongCount(s));
    var t := Next(s, ReleaseLoad(h));
    assert t.handles.Keys == s.handles.Keys;
    if t.handles[h].SawUnique? {
      FastPathIsAlone(t, h);
    } else if s.handles.Keys == {h} {
      assert s.handles == map[h := Strong];
      TallyOne(h, Strong);
      assert false;
    }
  }

  lemma OnlyUnique(weak: nat, strong: nat)
    requires weak < HALF && strong < HALF
    ensures Combined(weak, strong) == UNIQUE <==> weak == 1 && strong == 1
  {
  }

  lemma TallyOne(h: nat, x: Handle)
    ensures Tally(map[h := x], Is(x, CountsStrong), Is(x, CountsWeak), Is(x, HoldsLast), Is(x, OwesDelete))
  {
    var none: map<nat, Handle> := map[];
    NumberNone(none);
    TallyAdd(none, h, x);
    assert none[h := x] == map[h := x];
  }

  /** The non-atomic fast path is taken only by the owner of the one and only handle. */
  lemma FastPathIsAlone(s: State, h: nat)
    requires Inv(s) && Enabled(s, FastStore(h))
    ensures s.handles.Keys == {h}
  {
    hide Number;
    Alive(s, h);
    forall i | i in s.handles
      ensures i == h
    {
      NumberOne(s.handles, i);
      if i != h && KindOf(s.handles[i]) == CountsStrong {
        NumberTwo(s.handles, i, h);
      }
    }
  }

  /** When the last handle is gone and nothing is in flight, the object has been deleted exactly once. */
  lemma NothingLeaks(h: nat, steps: seq<Step>)
    requires Legal(Made(h), steps)
    ensures var s := After(Made(h), steps);
      s.deletes <= 1 && s.releases <= 1 && (s.handles == map[] <==> s.deletes == 1)
  {
    MadeInv(h);
    RunInv(Made(h), steps);
  }

  /** The word always shows the true counts while a handle can read it. */
  lemma WordIsExact(s: State, h: nat)
    requires Inv(s) && Idle(s, h)
    ensures Refcount(s.word) == StrongCount(s)
    ensures Weakcount(s.word) == WeakHalf(s)
  {
    hide Number;
    Alive(s, h);
    Halves(WeakHalf(s), StrongCount(s));
  }

  /** The checks of both `retain_` functions hold: a copy never revives a count from zero. */
  lemma CopyNeverRevives(s: State, step: Step)
    requires Inv(s) && Enabled(s, step)
    ensures step.CopyStrong? ==> Refcount(Next(s, step).word) >= 2
    ensures step.CopyWeak? ==> Weakcount(Next(s, step).word) >= 2
  {
    hide Number, Combined, FetchAdd, Refcount, Weakcount;
    if step.CopyStrong? || step.CopyWeak? {
      Alive(s, step.h);
      Halves(WeakHalf(s), StrongCount(s));
      if step.CopyStrong? {
        Halves(WeakHalf(s), StrongCount(s) + 1);
      } else {
        Halves(WeakHalf(s) + 1, StrongCount(s));
      }
    }
  }

  /** While the counts have room, any handle can be copied, and a copy counts as one more handle. */
  lemma CopyCounts(s: State, h: nat, f: nat)
    requires Inv(s) && Idle(s, h) && f !in s.handles
    ensures s.handles[h].Strong? && StrongCount(s) + 1 < HALF ==>
      Enabled(s, CopyStrong(h, f)) &&
      var t := Next(s, CopyStrong(h, f));
      t.handles == s.handles[f := Strong] && StrongCount(t) == StrongCount(s) + 1 && WeakCount(t) == WeakCount(s)
    ensures WeakCount(s) + 2 < HALF ==>
      Enabled(s, CopyWeak(h, f)) &&
      var t := Next(s, CopyWeak(h, f));
      t.handles == s.handles[f := Weak(multiset{})] && StrongCount(t) == StrongCount(s) && WeakCount(t) == WeakCount(s) + 1
  {
    hide Number, FetchAdd;
    TallyAdd(s.handles, f, Strong);
    TallyAdd(s.handles, f, Weak(multiset{}));
  }

  lemma ExpiredStep(s: State, step: Step)
    requires Inv(s) && StrongCount(s) == 0 && Enabled(s, step)
    ensures StrongCount(Next(s, step)) == 0
  {
    hide Number, Combined, FetchAdd, FetchSub;
    var h := step.h;
    NumberOne(s.handles, h);
    var t := Next(s, step);
    if step.LockExchange? {
      WordIsExact(s, h);
    } else if step.CopyWeak? {
      TallyAdd(s.handles, step.made, Weak(multiset{}));
    } else if h in t.handles {
      TallySet(s.handles, h, t.handles[h]);
    } else {
      TallyDrop(s.handles, h);
    }
  }

  /** Once the strong count is zero it is zero forever: no lock brings the object back. */
  lemma {:induction false} ExpiredForever(s: State, steps: seq<Step>)
    requires Inv(s) && StrongCount(s) == 0 && Legal(s, steps)
    ensures StrongCount(After(s, steps)) == 0
    decreases steps
  {
    hide Inv, Enabled, Next, StrongCount;
    if steps != [] {
      StepInv(s, steps[0]);
      ExpiredStep(s, steps[0]);
      ExpiredForever(Next(s, steps[0]), steps[1..]);
    }
  }

  /** A successful lock increments the strong count of an object that still has one. */
  lemma LockTakesLiveObject(s: State, h: nat, seen: nat, f: nat)
    requires Inv(s) && Enabled(s, LockExchange(h, seen, f))
    ensures StrongCount(s) > 0 && StrongCount(Next(s, LockExchange(h, seen, f))) == StrongCount(s) + 1
  {
    hide Number, Combined;
    WordIsExact(s, h);
    var t := Next(s, LockExchange(h, seen, f));
    var between := s.handles[h := t.handles[h]];
    TallySet(s.handles, h, t.handles[h]);
    TallyAdd(between, f, Strong);
    assert t.handles == between[f := Strong];
  }

  /** A lock attempt gives up only when no strong handle is left, and one that has just loaded then must. */
  lemma LockGivesUp(s: State, h: nat, seen: nat)
    requires Inv(s) && Attempting(s, h, seen)
    ensures Enabled(s, LockExpired(h, seen)) ==> StrongCount(s) == 0
    ensures seen == s.word && StrongCount(s) == 0 ==> Enabled(s, LockExpired(h, seen)) && !Enabled(s, LockRetry(h, seen))
  {
    hide Number, Combined;
    WordIsExact(s, h);
  }

  /** A lock that runs alone while a strong handle exists takes a new one. */
  lemma LockAlone(s: State, h: nat, f: nat)
    requires Inv(s) && h in s.handles && s.handles[h].Weak? && f !in s.handles
    requires 0 < StrongCount(s) && StrongCount(s) + 1 < HALF
    ensures var steps := [LockLoad(h), LockExchange(h, s.word, f)];
      && Legal(s, steps)
      && After(s, steps).handles == s.handles[f := Strong]
      && StrongCount(After(s, steps)) == StrongCount(s) + 1
    ensures Enabled(s, LockLoad(h)) && !Enabled(Next(s, LockLoad(h)), LockExpired(h, s.word))
  {
    hide Number, Combined, FetchAdd, Legal, After;
    var attempts, t := s.handles[h].attempts, Next(s, LockLoad(h));
    LockInv(s, LockLoad(h));
    WordIsExact(s, h);
    assert t.handles[h].attempts == attempts + multiset{s.word};
    TallySet(s.handles, h, t.handles[h]);
    var u := Next(t, LockExchange(h, s.word, f));
    assert attempts + multiset{s.word} - multiset{s.word} == attempts;
    assert u.handles == s.handles[f := Strong];
    TallyAdd(s.handles, f, Strong);
    OneStep(t, LockExchange(h, s.word, f), []);
    OneStep(s, LockLoad(h), [LockExchange(h, s.word, f)]);
    assert [LockLoad(h)] + [LockExchange(h, s.word, f)] == [LockLoad(h), LockExchange(h, s.word, f)];
  }

  // ----- Every object can be let go -----

  lemma {:induction false} LegalConcat(s: State, a: seq<Step>, b: seq<Step>)
    requires Legal(s, a) && Legal(After(s, a), b)
    ensures Legal(s, a + b) && After(s, a + b) == After(After(s, a), b)
    decreases a
  {
    hide Enabled, Next;
    if a == [] {
      assert a + b == b;
    } else {
      assert (a + b)[1..] == a[1..] + b;
      LegalConcat(Next(s, a[0]), a[1..], b);
    }
  }

  /** An attempt in flight that has seen the strong count at zero. */
  ghost predicate SeesNone(attempts: multiset<nat>) {
    exists seen :: seen in attempts && Refcount(seen) == 0
  }

  /** How much a thread that is letting its handle go still has to do. */
  ghost function Pending(h: Handle): nat {
    match h
    case Strong => 5
    case SawShared => 4
    case LastStrong => 3
    case Released => 2
    case SawUnique => 2
    case Deleting => 1
    case Weak(attempts) => 2 * |attempts| + if SeesNone(attempts) then 2 else 3
  }

  /** Only this handle has changed, and if it is still there, less is left to do. */
  ghost predicate Closer(s: State, t: State, h: nat) {
    && t.handles.Keys <= s.handles.Keys <= t.handles.Keys + {h}
    && (forall i :: i in t.handles && i != h ==> i in s.handles && t.handles[i] == s.handles[i])
    && (h in s.handles && h in t.handles ==> Pending(t.handles[h]) < Pending(s.handles[h]))
  }

  lemma OwnerStep(s: State, h: nat) returns (step: Step)
    requires h in s.handles && !s.handles[h].Weak?
    ensures Enabled(s, step) && Closer(s, Next(s, step), h)
    ensures h in Next(s, step).handles ==> !Next(s, step).handles[h].Weak?
  {
    hide StrongCount, WeakCount, FetchSub, Refcount, Weakcount, SeesNone;
    match s.handles[h]
    case Strong => step := ReleaseLoad(h);
    case SawUnique => step := FastStore(h);
    case SawShared => step := SlowDecrement(h);
    case LastStrong => step := ReleaseResources(h);
    case Released => step := DropLast(h);
    case Deleting => step := Delete(h);
  }

  lemma AttemptEnds(attempts: multiset<nat>, seen: nat)
    requires seen in attempts && Refcount(seen) == 0
    ensures Pending(Weak(attempts - multiset{seen})) < Pending(Weak(attempts))
  {
    assert SeesNone(attempts);
    assert |attempts - multiset{seen}| == |attempts| - 1;
  }

  lemma AttemptSees(attempts: multiset<nat>, seen: nat, now: nat)
    requires seen in attempts && !SeesNone(attempts) && Refcount(now) == 0
    ensures Pending(Weak(attempts - multiset{seen} + multiset{now})) < Pending(Weak(attempts))
  {
    var after := attempts - multiset{seen} + multiset{now};
    assert now in after;
    assert SeesNone(after);
    assert |after| == |attempts|;
  }

  lemma OnlyThisHandle(s: State, t: State, h: nat, x: Handle)
    requires h in s.handles && Pending(x) < Pending(s.handles[h])
    requires t.handles == s.handles[h := x] || t.handles == s.handles - {h}
    ensures Closer(s, t, h)
  {
    hide Pending;
  }

  lemma WeakStep(s: State, h: nat) returns (step: Step)
    requires h in s.handles && s.handles[h].Weak? && Refcount(s.word) == 0
    ensures Enabled(s, step) && Closer(s, Next(s, step), h)
  {
    hide Closer, StrongCount, WeakCount, FetchSub, Refcount, Weakcount, SeesNone;
    var attempts := s.handles[h].attempts;
    if attempts == multiset{} {
      step := WeakRelease(h);
      OnlyThisHandle(s, Next(s, step), h, Deleting);
    } else {
      hide Pending;
      if SeesNone(attempts) {
        var seen := SeenNone(attempts);
        step := LockExpired(h, seen);
        AttemptEnds(attempts, seen);
      } else {
        var seen :| seen in attempts;
        SeesSome(attempts, seen);
        step := LockRetry(h, seen);
        AttemptSees(attempts, seen, s.word);
      }
      OnlyThisHandle(s, Next(s, step), h, Next(s, step).handles[h]);
    }
  }

  lemma SeenNone(attempts: multiset<nat>) returns (seen: nat)
    requires SeesNone(attempts)
    ensures seen in attempts && Refcount(seen) == 0
  {
    seen :| seen in attempts && Refcount(seen) == 0;
  }

  lemma SeesSome(attempts: multiset<nat>, seen: nat)
    requires seen in attempts && !SeesNone(attempts)
    ensures Refcount(seen) != 0
  {
  }

  /** Letting a handle go never has to wait: its thread always has a step that brings it closer to the end. */
  lemma LettingGo(s: State, h: nat) returns (step: Step)
    requires Inv(s) && h in s.handles && (s.handles[h].Weak? ==> StrongCount(s) == 0)
    ensures Enabled(s, step) && Inv(Next(s, step)) && Closer(s, Next(s, step), h)
    ensures h in Next(s, step).handles && Next(s, step).handles[h].Weak? ==> StrongCount(Next(s, step)) == 0
  {
    if s.handles[h].Weak? {
      WordIsExact(s, h);
      step := WeakStep(s, h);
      ExpiredStep(s, step);
    } else {
      step := OwnerStep(s, h);
    }
    hide Inv, Enabled, Next, StrongCount, Closer;
    StepInv(s, step);
  }

  /** A thread can let its handle go completely, whatever state the others are in. */
  lemma {:induction false} LetGo(s: State, h: nat) returns (steps: seq<Step>)
    requires Inv(s) && h in s.handles && (s.handles[h].Weak? ==> StrongCount(s) == 0)
    ensures Legal(s, steps) && Inv(After(s, steps))
    ensures var t := After(s, steps);
      && t.handles.Keys == s.handles.Keys - {h}
      && (forall i :: i in t.handles ==> t.handles[i] == s.handles[i])
    decreases Pending(s.handles[h])
  {
    hide Inv, Enabled, Next, Pending, StrongCount;
    var step := LettingGo(s, h);
    var t := Next(s, step);
    steps := [];
    if h in t.handles {
      steps := LetGo(t, h);
    }
    OneStep(s, step, steps);
    steps := [step] + steps;
  }

  /**
    From every state, however many handles, releases and lock attempts there are, all handles can
    be let go, and then the object has been deleted exactly once.
  */
  lemma {:induction false} AllLetGo(s: State) returns (steps: seq<Step>)
    requires Inv(s)
    ensures Legal(s, steps) && After(s, steps).handles == map[] && After(s, steps).deletes == 1
    decreases |s.handles|
  {
    hide Enabled, Next, Number, Counted, UniqueSeen, ReleasedOnce, ZeroSeen;
    steps := [];
    if s.handles != map[] {
      var h := Choice(s);
      var first := LetGo(s, h);
      var t := After(s, first);
      assert |s.handles| == |s.handles.Keys| && |t.handles| == |t.handles.Keys|;
      var rest := AllLetGo(t);
      LegalConcat(s, first, rest);
      steps := first + rest;
    }
  }

  /** Strong handles and releases first; with none of them left the strong count is zero. */
  lemma Choice(s: State) returns (h: nat)
    requires s.handles != map[]
    ensures h in s.handles && (s.handles[h].Weak? ==> StrongCount(s) == 0)
  {
    if i :| i in s.handles && !s.handles[i].Weak? {
      h := i;
    } else {
      h :| h in s.handles;
      assert Members(s.handles, CountsStrong) == {};
    }
  }

  lemma FourSteps(s: State, a: Step, b: Step, c: Step, d: Step)
    requires Enabled(s, a)
    requires Enabled(Next(s, a), b)
    requires Enabled(Next(Next(s, a), b), c)
    requires Enabled(Next(Next(Next(s, a), b), c), d)
    ensures Legal(s, [a, b, c, d])
    ensures After(s, [a, b, c, d]) == Next(Next(Next(Next(s, a), b), c), d)
  {
    hide Enabled, Next, Legal, After;
    var s1, s2, s3 := Next(s, a), Next(Next(s, a), b), Next(Next(Next(s, a), b), c);
    assert [c] + [d] == [c, d] && [b] + [c, d] == [b, c, d] && [a] + [b, c, d] == [a, b, c, d];
    OneStep(s3, d, []);
    OneStep(s2, c, [d]);
    OneStep(s1, b, [c, d]);
    OneStep(s, a, [b, c, d]);
  }

  lemma OneStep(s: State, a: Step, rest: seq<Step>)
    requires Enabled(s, a) && (rest == [] || Legal(Next(s, a), rest))
    ensures Legal(s, [a] + rest) && Legal(Next(s, a), rest)
    ensures After(s, [a] + rest) == After(Next(s, a), rest)
    ensures rest == [] ==> [a] + rest == [a] && After(Next(s, a), rest) == Next(s, a)
  {
    hide Enabled, Next;
    assert ([a] + rest)[1..] == rest;
  }

  lemma FirstWeakCopy()
    ensures Enabled(Made(0), CopyWeak(0, 1))
  {
    NumberNone(map[]);
    NumberAdd(map[], 0, Strong, CountsWeak);
    assert map[][0 := Strong] == Made(0).handles;
  }

  /**
    Resources can be released with no weak handle left: the one that kept the object from being
    deleted at once may go away in between. The comment on `release_resources` says otherwise.
  */
  lemma ReleaseWithoutWeakHandles() returns (steps: seq<Step>)
    ensures Legal(Made(0), steps)
    ensures Enabled(After(Made(0), steps), ReleaseResources(0)) && WeakCount(After(Made(0), steps)) == 0
  {
    hide Legal, After;
    FirstWeakCopy();
    var s1 := Next(Made(0), CopyWeak(0, 1));
    var s2 := Next(s1, ReleaseLoad(0));
    var s3 := Next(s2, SlowDecrement(0));
    assert s3.handles[0] == LastStrong && s3.handles[1] == Weak(multiset{});
    var s4 := Next(s3, WeakRelease(1));
    assert s4.handles == map[0 := LastStrong];
    assert Members(s4.handles, CountsWeak) == {};
    FourSteps(Made(0), CopyWeak(0, 1), ReleaseLoad(0), SlowDecrement(0), WeakRelease(1));
    steps := [CopyWeak(0, 1), ReleaseLoad(0), SlowDecrement(0), WeakRelease(1)];
  }
}
