/**
  The parallel executor as interleaved atomic steps: one scheduler thread walks the
  topological order and hands out tasks, and worker threads run them.

  Of the callback queue only its contract is used: a task becomes eligible once the futures it
  was pushed with are all ready.
*/
module GraphExecutor {
  import opened Options
  import opened DependencyGraphs
  import opened GraphBuilder
  import opened SequentialEvaluation

  /** Where a node's task is. The result becomes visible to others only in `Ready`. */
  datatype Task<V> =
    | Unpushed
    | Waiting
    | Checking(i: nat)
    | Gathering(i: nat, inputs: seq<Any<V>>)
    | Skipping
    | Throwing(message: string)
    | Recording(message: string)
    | Winning(message: string)
    | Returning(result: Any<V>)
    | Ready(result: Any<V>)

  /** The scheduler at one node: reading the futures of its dependencies, or after the push. */
  datatype Phase = Collecting(j: nat) | Pushed

  datatype Failure = Failure(node: nat, message: string)

  datatype State<V> = State(
    pos: nat,
    phase: Phase,
    tasks: seq<Task<V>>,
    stored: seq<bool>,
    failed: seq<bool>,
    failureRecorded: bool,
    record: Option<Failure>)

  datatype Step = Schedule | Work(node: nat)

  function Init<V>(g: DependencyGraph<Work<V>>): State<V> {
    var n := |g.nodes|;
    State(0, Collecting(0), seq(n, _ => Unpushed), seq(n, _ => false), seq(n, _ => false), false, None)
  }

  /** The vectors have one element per node. */
  ghost predicate Shaped<V>(g: DependencyGraph<Work<V>>, s: State<V>) {
    |s.tasks| == |s.stored| == |s.failed| == |g.nodes| == |g.order| && s.pos <= |g.order| && Below(g.order, |g.nodes|)
  }

  // ----- Steps -----

  ghost predicate DepsReady<V>(g: DependencyGraph<Work<V>>, s: State<V>, v: nat)
    requires Shaped(g, s) && v < |g.nodes|
  {
    forall i :: 0 <= i < |Deps(g, v)| ==> Deps(g, v)[i] < |s.tasks| && s.tasks[Deps(g, v)[i]].Ready?
  }

  /**
    A step can be taken. Reading a future needs it to be stored, and getting its value needs it
    to be ready: a thread that finds it otherwise has no step.
  */
  ghost predicate Enabled<V>(g: DependencyGraph<Work<V>>, s: State<V>, step: Step)
    requires Shaped(g, s)
  {
    match step
    case Schedule =>
      && s.pos < |g.order|
      && (s.phase.Collecting? && s.phase.j < |Deps(g, g.order[s.pos])| ==>
            var d := Deps(g, g.order[s.pos])[s.phase.j];
            d < |s.stored| && s.stored[d])
    case Work(v) =>
      && v < |g.nodes|
      && match s.tasks[v]
         case Unpushed => false
         case Waiting => DepsReady(g, s, v)
         case Checking(i) => i < |Deps(g, v)| ==> Deps(g, v)[i] < |s.failed|
         case Gathering(i, _) =>
           i < |Deps(g, v)| ==>
             var d := Deps(g, v)[i];
             d < |s.tasks| && s.stored[d] && s.tasks[d].Ready?
         case Ready(_) => false
         case _ => true
  }

  ghost function Scheduled<V>(g: DependencyGraph<Work<V>>, s: State<V>): State<V>
    requires Shaped(g, s) && Enabled(g, s, Schedule)
  {
    var id := g.order[s.pos];
    match s.phase
    case Collecting(j) =>
      if j < |Deps(g, id)| then s.(phase := Collecting(j + 1))
      else s.(phase := Pushed, tasks := s.tasks[id := Waiting])
    case Pushed =>
      s.(pos := s.pos + 1, phase := Collecting(0), stored := s.stored[id := true])
  }

  ghost function Worked<V>(g: DependencyGraph<Work<V>>, s: State<V>, v: nat): State<V>
    requires Shaped(g, s) && Enabled(g, s, Step.Work(v))
  {
    match s.tasks[v]
    case Waiting => s.(tasks := s.tasks[v := Checking(0)])
    case Checking(i) =>
      if i < |Deps(g, v)| then
        s.(tasks := s.tasks[v := if s.failed[Deps(g, v)[i]] then Skipping else Checking(i + 1)])
      else s.(tasks := s.tasks[v := Gathering(0, [])])
    case Gathering(i, inputs) =>
      if i < |Deps(g, v)| then
        s.(tasks := s.tasks[v := Gathering(i + 1, inputs + [s.tasks[Deps(g, v)[i]].result])])
      else (
        match g.nodes[v].work(inputs)
        case Returns(r) => s.(tasks := s.tasks[v := Returning(r)])
        case Throws(message) => s.(tasks := s.tasks[v := Throwing(message)]))
    case Skipping => s.(tasks := s.tasks[v := Returning(Empty)], failed := s.failed[v := true])
    case Throwing(message) => s.(tasks := s.tasks[v := Recording(message)], failed := s.failed[v := true])
    case Recording(message) =>
      if s.failureRecorded then s.(tasks := s.tasks[v := Returning(Empty)])
      else s.(tasks := s.tasks[v := Winning(message)], failureRecorded := true)
    case Winning(message) => s.(tasks := s.tasks[v := Returning(Empty)], record := Some(Failure(v, message)))
    case Returning(r) => s.(tasks := s.tasks[v := Ready(r)])
    case Ready(_) => s
    case Unpushed => s
  }

  ghost function Next<V>(g: DependencyGraph<Work<V>>, s: State<V>, step: Step): State<V>
    requires Shaped(g, s) && Enabled(g, s, step)
  {
    match step
    case Schedule => Scheduled(g, s)
    case Work(v) => Worked(g, s, v)
  }

  /** The scheduler has stored every future and `wait` has returned. */
  ghost predicate Finished<V>(g: DependencyGraph<Work<V>>, s: State<V>)
    requires Shaped(g, s)
  {
    s.pos == |g.order| && forall v :: 0 <= v < |g.nodes| ==> s.tasks[v].Ready?
  }

  // ----- The invariant -----

  /** The scheduler's part: what is pushed and stored follows its position. */
  ghost predicate SchedulerOk<V>(g: DependencyGraph<Work<V>>, s: State<V>)
    requires Shaped(g, s)
  {
    && (forall i :: 0 <= i < |g.order| ==> s.stored[g.order[i]] == (i < s.pos))
    && (forall i :: 0 <= i < |g.order| ==>
          s.tasks[g.order[i]].Unpushed? == (s.pos < i || (s.pos == i && s.phase.Collecting?)))
    && (s.phase.Collecting? && s.pos < |g.order| ==> s.phase.j <= |Deps(g, g.order[s.pos])|)
    && (s.pos == |g.order| ==> s.phase.Collecting?)
  }

  /** One node's part: whatever its task has done agrees with the sequential verdict. */
  ghost predicate NodeOk<V>(g: DependencyGraph<Work<V>>, m: map<nat, Verdict<V>>, s: State<V>, v: nat)
    requires Shaped(g, s) && v < |g.nodes| && v in m && Judged(Deps(g, v), m)
  {
    var ds := Deps(g, v);
    match s.tasks[v]
    case Unpushed => !s.failed[v]
    case Waiting => !s.failed[v]
    case Checking(i) => !s.failed[v] && DepsReady(g, s, v) && i <= |ds| && AllDone(ds[..i], m)
    case Gathering(i, inputs) => !s.failed[v] && DepsReady(g, s, v) && i <= |ds| && AllDone(ds, m) && inputs == Inputs(ds[..i], m)
    case Skipping => !s.failed[v] && m[v].Skipped?
    case Throwing(message) => !s.failed[v] && m[v] == Threw(message)
    case Recording(message) => s.failed[v] && m[v] == Threw(message)
    case Winning(message) => s.failed[v] && m[v] == Threw(message) && s.failureRecorded
    case Returning(r) => r == m[v].Result() && s.failed[v] == !m[v].Done? && (m[v].Threw? ==> s.failureRecorded)
    case Ready(r) => r == m[v].Result() && s.failed[v] == !m[v].Done? && (m[v].Threw? ==> s.failureRecorded)
  }

  /** The failure record: written at most once, by the one task that won the exchange. */
  ghost predicate RecordOk<V>(g: DependencyGraph<Work<V>>, m: map<nat, Verdict<V>>, s: State<V>)
    requires Shaped(g, s)
  {
    && (s.record.Some? ==>
          && s.failureRecorded && s.record.value.node < |g.nodes| && s.record.value.node in m
          && m[s.record.value.node] == Threw(s.record.value.message))
    && (forall v :: 0 <= v < |g.nodes| && s.tasks[v].Winning? ==> s.failureRecorded && s.record.None?)
    && (forall u, v :: 0 <= u < |g.nodes| && 0 <= v < |g.nodes| && s.tasks[u].Winning? && s.tasks[v].Winning? ==> u == v)
    && (s.failureRecorded && s.record.None? ==> exists v :: 0 <= v < |g.nodes| && s.tasks[v].Winning?)
  }

  ghost predicate NodesOk<V>(g: DependencyGraph<Work<V>>, s: State<V>)
    requires WellFormed(g) && Shaped(g, s)
  {
    forall v :: 0 <= v < |g.nodes| ==> Judged(Deps(g, v), Evaluate(g)) && NodeOk(g, Evaluate(g), s, v)
  }

  ghost predicate Inv<V>(g: DependencyGraph<Work<V>>, s: State<V>)
    requires WellFormed(g)
  {
    Shaped(g, s) && SchedulerOk(g, s) && NodesOk(g, s) && RecordOk(g, Evaluate(g), s)
  }

  lemma InitInv<V>(g: DependencyGraph<Work<V>>)
    requires WellFormed(g)
    ensures Inv(g, Init(g))
  {
    hide Evaluate, AllDone, Inputs;
    assert |DependencyLists(g)| == |g.nodes|;
    forall v | 0 <= v < |g.nodes|
      ensures Judged(Deps(g, v), Evaluate(g)) && NodeOk(g, Evaluate(g), Init(g), v)
    {
      EvaluateIsFixpoint(g, v);
    }
  }

  // ----- Dependencies of a pushed task -----

  /** When a task has been pushed, the futures of its dependencies are stored. */
  lemma PushedDepsStored<V>(g: DependencyGraph<Work<V>>, s: State<V>, v: nat, d: nat)
    requires WellFormed(g) && Shaped(g, s) && SchedulerOk(g, s) && v < |g.nodes| && d in Deps(g, v)
    requires !s.tasks[v].Unpushed? || (s.pos < |g.order| && g.order[s.pos] == v)
    ensures d < |g.nodes| && s.stored[d]
  {
    assert DependencyLists(g)[v] == Deps(g, v);
    DependencyEarlier(DependencyLists(g), g.order, v, d);
    var i, j := Position(g.order, v), Position(g.order, d);
    assert g.order[i] == v && g.order[j] == d;
  }

  // ----- Every step keeps the invariant -----

  /** A step of another node's task does not disturb this node's part. */
  lemma NodeOkFrame<V>(g: DependencyGraph<Work<V>>, m: map<nat, Verdict<V>>, s: State<V>, t: State<V>, v: nat)
    requires Shaped(g, s) && Shaped(g, t) && v < |g.nodes| && v in m && Judged(Deps(g, v), m)
    requires t.tasks[v] == s.tasks[v] && t.failed[v] == s.failed[v] && (s.failureRecorded ==> t.failureRecorded)
    requires forall u :: 0 <= u < |g.nodes| && s.tasks[u].Ready? ==> t.tasks[u] == s.tasks[u]
    requires NodeOk(g, m, s, v)
    ensures NodeOk(g, m, t, v)
  {
    hide AllDone, Inputs;
  }

  lemma ScheduleInv<V>(g: DependencyGraph<Work<V>>, s: State<V>)
    requires WellFormed(g) && Inv(g, s) && Enabled(g, s, Schedule)
    ensures Inv(g, Scheduled(g, s))
  {
    hide SchedulerOk, NodesOk, RecordOk, Scheduled, Evaluate, WellFormed;
    ScheduleNodes(g, s);
    ScheduleScheduler(g, s);
    ScheduleRecord(g, Evaluate(g), s);
  }

  lemma ScheduleScheduler<V>(g: DependencyGraph<Work<V>>, s: State<V>)
    requires WellFormed(g) && Shaped(g, s) && SchedulerOk(g, s) && Enabled(g, s, Schedule)
    ensures Shaped(g, Scheduled(g, s)) && SchedulerOk(g, Scheduled(g, s))
  {
    hide Topological, WellFormed;
    OrderDistinct(g);
    assert s.tasks[g.order[s.pos]].Unpushed? == s.phase.Collecting?;
  }

  lemma ScheduleRecord<V>(g: DependencyGraph<Work<V>>, m: map<nat, Verdict<V>>, s: State<V>)
    requires Shaped(g, s) && SchedulerOk(g, s) && RecordOk(g, m, s) && Enabled(g, s, Schedule)
    ensures Shaped(g, Scheduled(g, s)) && RecordOk(g, m, Scheduled(g, s))
  {
    var t := Scheduled(g, s);
    assert s.tasks[g.order[s.pos]].Unpushed? == s.phase.Collecting?;
    assert forall v :: 0 <= v < |g.nodes| ==> t.tasks[v].Winning? == s.tasks[v].Winning?;
    if s.failureRecorded && s.record.None? {
      var v :| 0 <= v < |g.nodes| && s.tasks[v].Winning?;
      assert t.tasks[v].Winning?;
    }
  }

  lemma OrderDistinct<V>(g: DependencyGraph<Work<V>>)
    requires WellFormed(g)
    ensures Distinct(g.order) && forall v :: 0 <= v < |g.nodes| ==> v in g.order
  {
    assert |DependencyLists(g)| == |g.nodes|;
  }

  lemma ScheduleNodes<V>(g: DependencyGraph<Work<V>>, s: State<V>)
    requires WellFormed(g) && Inv(g, s) && Enabled(g, s, Schedule)
    ensures Shaped(g, Scheduled(g, s)) && NodesOk(g, Scheduled(g, s))
  {
    hide Evaluate, Topological, WellFormed, Judged;
    var t, m := Scheduled(g, s), Evaluate(g);
    var id := g.order[s.pos];
    assert s.tasks[id].Unpushed? == s.phase.Collecting?;
    forall v | 0 <= v < |g.nodes|
      ensures Judged(Deps(g, v), m) && NodeOk(g, m, t, v)
    {
      assert NodeOk(g, m, s, v);
      if v != id || !(s.phase.Collecting? && s.phase.j >= |Deps(g, id)|) {
        NodeOkFrame(g, m, s, t, v);
      }
    }
  }

  /** A ready dependency shows its sequential verdict. */
  ghost predicate DepsAgree<V>(g: DependencyGraph<Work<V>>, m: map<nat, Verdict<V>>, s: State<V>, v: nat)
    requires Shaped(g, s) && v < |g.nodes| && Judged(Deps(g, v), m)
  {
    && Below(Deps(g, v), |g.nodes|)
    && forall i :: 0 <= i < |Deps(g, v)| && s.tasks[Deps(g, v)[i]].Ready? ==>
         && s.tasks[Deps(g, v)[i]].result == m[Deps(g, v)[i]].Result()
         && s.failed[Deps(g, v)[i]] == !m[Deps(g, v)[i]].Done?
  }

  lemma WorkChecking<V>(g: DependencyGraph<Work<V>>, m: map<nat, Verdict<V>>, s: State<V>, v: nat)
    requires Shaped(g, s) && Enabled(g, s, Step.Work(v)) && v in m && Judged(Deps(g, v), m)
    requires m[v] == Judge(g, v, m) && NodeOk(g, m, s, v) && DepsAgree(g, m, s, v) && s.tasks[v].Checking?
    ensures Shaped(g, Worked(g, s, v)) && NodeOk(g, m, Worked(g, s, v), v)
  {
    var ds, i := Deps(g, v), s.tasks[v].i;
    if i < |ds| {
      assert ds[..i + 1] == ds[..i] + [ds[i]];
    } else {
      assert ds[..i] == ds;
    }
  }

  lemma WorkGathering<V>(g: DependencyGraph<Work<V>>, m: map<nat, Verdict<V>>, s: State<V>, v: nat)
    requires Shaped(g, s) && Enabled(g, s, Step.Work(v)) && v in m && Judged(Deps(g, v), m)
    requires m[v] == Judge(g, v, m) && NodeOk(g, m, s, v) && DepsAgree(g, m, s, v) && s.tasks[v].Gathering?
    ensures Shaped(g, Worked(g, s, v)) && NodeOk(g, m, Worked(g, s, v), v)
  {
    hide AllDone;
    var ds, i := Deps(g, v), s.tasks[v].i;
    if i < |ds| {
      assert Inputs(ds[..i + 1], m) == Inputs(ds[..i], m) + [m[ds[i]].Result()];
    } else {
      assert ds[..i] == ds;
    }
  }

  /** The node's own step agrees with the sequential verdict. */
  lemma WorkNode<V>(g: DependencyGraph<Work<V>>, m: map<nat, Verdict<V>>, s: State<V>, v: nat)
    requires Shaped(g, s) && Enabled(g, s, Step.Work(v)) && v in m && Judged(Deps(g, v), m)
    requires m[v] == Judge(g, v, m) && NodeOk(g, m, s, v) && DepsAgree(g, m, s, v)
    ensures Shaped(g, Worked(g, s, v)) && NodeOk(g, m, Worked(g, s, v), v)
  {
    if s.tasks[v].Checking? {
      WorkChecking(g, m, s, v);
    } else if s.tasks[v].Gathering? {
      WorkGathering(g, m, s, v);
    } else {
      hide Judge, DepsAgree;
    }
  }

  lemma WorkNodes<V>(g: DependencyGraph<Work<V>>, s: State<V>, v: nat)
    requires WellFormed(g) && Inv(g, s) && v < |g.nodes| && Enabled(g, s, Step.Work(v))
    ensures Shaped(g, Worked(g, s, v)) && NodesOk(g, Worked(g, s, v))
  {
    hide Evaluate, Topological, NodeOk, AllDone, Inputs, Judge, Enabled;
    var t, m := Worked(g, s, v), Evaluate(g);
    EvaluateIsFixpoint(g, v);
    AgreeFromInv(g, s, v);
    WorkNode(g, m, s, v);
    forall u | 0 <= u < |g.nodes|
      ensures Judged(Deps(g, u), m) && NodeOk(g, m, t, u)
    {
      assert NodeOk(g, m, s, u);
      if u != v {
        WorkFrame(g, s, v, u);
        NodeOkFrame(g, m, s, t, u);
      }
    }
  }

  lemma WorkFrame<V>(g: DependencyGraph<Work<V>>, s: State<V>, v: nat, u: nat)
    requires Shaped(g, s) && Enabled(g, s, Step.Work(v)) && u < |g.nodes| && u != v
    ensures var t := Worked(g, s, v);
      && Shaped(g, t) && t.tasks[u] == s.tasks[u] && t.failed[u] == s.failed[u]
      && (s.failureRecorded ==> t.failureRecorded)
      && forall w :: 0 <= w < |g.nodes| && s.tasks[w].Ready? ==> t.tasks[w] == s.tasks[w]
  {
  }

  lemma AgreeFromInv<V>(g: DependencyGraph<Work<V>>, s: State<V>, v: nat)
    requires WellFormed(g) && Inv(g, s) && v < |g.nodes|
    ensures Judged(Deps(g, v), Evaluate(g)) && DepsAgree(g, Evaluate(g), s, v)
  {
    hide Evaluate, Topological, AllDone, Inputs;
    forall i | 0 <= i < |Deps(g, v)|
      ensures Deps(g, v)[i] < |g.nodes| && NodeOk(g, Evaluate(g), s, Deps(g, v)[i])
    {
    }
  }

  lemma WorkScheduler<V>(g: DependencyGraph<Work<V>>, s: State<V>, v: nat)
    requires Shaped(g, s) && SchedulerOk(g, s) && Enabled(g, s, Step.Work(v))
    ensures Shaped(g, Worked(g, s, v)) && SchedulerOk(g, Worked(g, s, v))
  {
    hide DepsReady;
    WorkLightens(g, s, v);
    var t := Worked(g, s, v);
    assert !t.tasks[v].Unpushed? && t.stored == s.stored;
    hide Worked;
  }

  lemma WorkRecord<V>(g: DependencyGraph<Work<V>>, m: map<nat, Verdict<V>>, s: State<V>, v: nat)
    requires Shaped(g, s) && RecordOk(g, m, s) && Enabled(g, s, Step.Work(v))
    requires v in m && Judged(Deps(g, v), m) && NodeOk(g, m, s, v)
    ensures Shaped(g, Worked(g, s, v)) && RecordOk(g, m, Worked(g, s, v))
  {
    hide AllDone, Inputs, DepsReady;
    var t := Worked(g, s, v);
    WorkLightens(g, s, v);
    if t.failureRecorded && t.record.None? {
      if t.tasks[v].Winning? {
      } else {
        var w :| 0 <= w < |g.nodes| && s.tasks[w].Winning?;
        assert t.tasks[w].Winning?;
      }
    }
  }

  /** Every step of the scheduler and of every worker keeps the invariant. */
  lemma StepInv<V>(g: DependencyGraph<Work<V>>, s: State<V>, step: Step)
    requires WellFormed(g) && Inv(g, s) && Enabled(g, s, step)
    ensures Inv(g, Next(g, s, step))
  {
    hide SchedulerOk, RecordOk, Scheduled, Worked, Evaluate, WellFormed, NodeOk, Judged;
    match step
    case Schedule => ScheduleInv(g, s);
    case Work(v) =>
      assert Judged(Deps(g, v), Evaluate(g)) && NodeOk(g, Evaluate(g), s, v);
      WorkNodes(g, s, v);
      WorkScheduler(g, s, v);
      WorkRecord(g, Evaluate(g), s, v);
  }

  // ----- No thread is ever stuck -----

  /**
    A task that has started can always go on: every future it reads is stored and every value
    it gets is ready.
  */
  lemma StartedNeverBlocks<V>(g: DependencyGraph<Work<V>>, s: State<V>, v: nat)
    requires WellFormed(g) && Inv(g, s) && v < |g.nodes|
    requires !s.tasks[v].Unpushed? && !s.tasks[v].Waiting? && !s.tasks[v].Ready?
    ensures Enabled(g, s, Step.Work(v))
  {
    hide Evaluate, Topological, AllDone, Inputs, RecordOk;
    assert NodeOk(g, Evaluate(g), s, v);
    assert Below(Deps(g, v), |g.nodes|);
    if s.tasks[v].Gathering? && s.tasks[v].i < |Deps(g, v)| {
      PushedDepsStored(g, s, v, Deps(g, v)[s.tasks[v].i]);
    }
  }

  /** The scheduler can always go on until it has pushed and stored everything. */
  lemma SchedulerNeverBlocks<V>(g: DependencyGraph<Work<V>>, s: State<V>)
    requires WellFormed(g) && Inv(g, s) && s.pos < |g.order|
    ensures Enabled(g, s, Schedule)
  {
    hide Evaluate, Topological, NodesOk, RecordOk;
    var id := g.order[s.pos];
    if s.phase.Collecting? && s.phase.j < |Deps(g, id)| {
      PushedDepsStored(g, s, id, Deps(g, id)[s.phase.j]);
    }
  }

  lemma {:induction false} FirstUnready<V>(g: DependencyGraph<Work<V>>, s: State<V>, k: nat) returns (v: nat)
    requires WellFormed(g) && Shaped(g, s) && k <= |g.order|
    requires exists i :: 0 <= i < k && !s.tasks[g.order[i]].Ready?
    ensures v < |g.nodes| && !s.tasks[v].Ready? && DepsReady(g, s, v)
    decreases k
  {
    if exists i :: 0 <= i < k - 1 && !s.tasks[g.order[i]].Ready? {
      v := FirstUnready(g, s, k - 1);
    } else {
      v := g.order[k - 1];
      assert DependencyLists(g)[v] == Deps(g, v);
      forall i | 0 <= i < |Deps(g, v)|
        ensures Deps(g, v)[i] < |s.tasks| && s.tasks[Deps(g, v)[i]].Ready?
      {
        assert Deps(g, v)[i] in g.order[..k - 1];
      }
    }
  }

  /** A run that is not finished has a next step: there is no deadlock. */
  lemma Progress<V>(g: DependencyGraph<Work<V>>, s: State<V>) returns (step: Step)
    requires WellFormed(g) && Inv(g, s) && !Finished(g, s)
    ensures Enabled(g, s, step)
  {
    hide Evaluate, NodesOk, RecordOk, Enabled;
    if s.pos < |g.order| {
      SchedulerNeverBlocks(g, s);
      return Schedule;
    }
    OrderDistinct(g);
    var u :| 0 <= u < |g.nodes| && !s.tasks[u].Ready?;
    var i := Position(g.order, u);
    assert !s.tasks[g.order[i]].Ready?;
    var v := FirstUnready(g, s, |g.order|);
    var j := Position(g.order, v);
    assert s.tasks[g.order[j]].Unpushed? == (s.pos < j || (s.pos == j && s.phase.Collecting?));
    step := Step.Work(v);
    if s.tasks[v].Waiting? {
      WaitingStarts(g, s, v);
    } else {
      StartedNeverBlocks(g, s, v);
    }
  }

  lemma WaitingStarts<V>(g: DependencyGraph<Work<V>>, s: State<V>, v: nat)
    requires Shaped(g, s) && v < |g.nodes| && s.tasks[v].Waiting? && DepsReady(g, s, v)
    ensures Enabled(g, s, Step.Work(v))
  {
  }

  // ----- Every run ends -----

  function TaskWeight<V>(deps: nat, t: Task<V>): nat {
    match t
    case Ready(_) => 0
    case Returning(_) => 1
    case Winning(_) => 2
    case Skipping => 2
    case Recording(_) => 3
    case Throwing(_) => 4
    case Gathering(i, _) => (if i < deps then deps - i else 0) + 5
    case Checking(i) => (if i < deps then deps - i else 0) + deps + 6
    case Waiting => 2 * deps + 7
    case Unpushed => 2 * deps + 8
  }

  ghost function TasksWeight<V>(g: DependencyGraph<Work<V>>, tasks: seq<Task<V>>, k: nat): nat
    requires k <= |tasks| == |g.nodes|
  {
    if k == 0 then 0 else TasksWeight(g, tasks, k - 1) + TaskWeight(|Deps(g, k - 1)|, tasks[k - 1])
  }

  lemma {:induction false} WeightUpdate<V>(g: DependencyGraph<Work<V>>, tasks: seq<Task<V>>, v: nat, t: Task<V>, k: nat)
    requires k <= |tasks| == |g.nodes| && v < |tasks|
    ensures TasksWeight(g, tasks[v := t], k) ==
      if v < k then TasksWeight(g, tasks, k) - TaskWeight(|Deps(g, v)|, tasks[v]) + TaskWeight(|Deps(g, v)|, t)
      else TasksWeight(g, tasks, k)
  {
    if k > 0 {
      WeightUpdate(g, tasks, v, t, k - 1);
    }
  }

  ghost function ScheduleWeight<V>(g: DependencyGraph<Work<V>>, pos: nat): nat
    requires pos <= |g.order| && Below(g.order, |g.nodes|)
    decreases |g.order| - pos
  {
    if pos == |g.order| then 0 else |Deps(g, g.order[pos])| + 2 + ScheduleWeight(g, pos + 1)
  }

  /** The steps the scheduler has already spent on the current node. */
  ghost function Spent<V>(g: DependencyGraph<Work<V>>, s: State<V>): nat
    requires Shaped(g, s)
  {
    if s.pos == |g.order| then 0
    else
      match s.phase
      case Collecting(j) => j
      case Pushed => |Deps(g, g.order[s.pos])| + 1
  }

  ghost function Measure<V>(g: DependencyGraph<Work<V>>, s: State<V>): int
    requires Shaped(g, s)
  {
    TasksWeight(g, s.tasks, |g.nodes|) + ScheduleWeight(g, s.pos) - Spent(g, s)
  }

  lemma MeasureIsNatural<V>(g: DependencyGraph<Work<V>>, s: State<V>)
    requires Shaped(g, s) && SchedulerOk(g, s)
    ensures Measure(g, s) >= 0
  {
  }

  lemma WorkDecreases<V>(g: DependencyGraph<Work<V>>, s: State<V>, v: nat)
    requires Shaped(g, s) && Enabled(g, s, Step.Work(v))
    ensures Shaped(g, Worked(g, s, v)) && Measure(g, Worked(g, s, v)) < Measure(g, s)
  {
    hide DepsReady, Worked, TaskWeight, ScheduleWeight;
    WorkLightens(g, s, v);
    WeightUpdate(g, s.tasks, v, Worked(g, s, v).tasks[v], |g.nodes|);
  }

  lemma WorkLightens<V>(g: DependencyGraph<Work<V>>, s: State<V>, v: nat)
    requires Shaped(g, s) && Enabled(g, s, Step.Work(v))
    ensures var t := Worked(g, s, v);
      && Shaped(g, t) && t.pos == s.pos && t.phase == s.phase && t.tasks == s.tasks[v := t.tasks[v]]
      && TaskWeight(|Deps(g, v)|, t.tasks[v]) < TaskWeight(|Deps(g, v)|, s.tasks[v])
  {
    hide DepsReady;
  }

  lemma ScheduleDecreases<V>(g: DependencyGraph<Work<V>>, s: State<V>)
    requires Shaped(g, s) && SchedulerOk(g, s) && Enabled(g, s, Schedule)
    ensures Shaped(g, Scheduled(g, s)) && Measure(g, Scheduled(g, s)) < Measure(g, s)
  {
    var id := g.order[s.pos];
    assert s.tasks[id].Unpushed? == s.phase.Collecting?;
    WeightUpdate(g, s.tasks, id, Waiting, |g.nodes|);
  }

  lemma StepDecreases<V>(g: DependencyGraph<Work<V>>, s: State<V>, step: Step)
    requires WellFormed(g) && Inv(g, s) && Enabled(g, s, step)
    ensures Shaped(g, Next(g, s, step)) && Measure(g, Next(g, s, step)) < Measure(g, s)
  {
    hide SchedulerOk, NodesOk, RecordOk, Scheduled, Worked, Measure, Evaluate;
    match step
    case Schedule => ScheduleDecreases(g, s);
    case Work(v) => WorkDecreases(g, s, v);
  }

  // ----- Whole runs -----

  /** The steps can be taken one after another from s. */
  ghost predicate Legal<V>(g: DependencyGraph<Work<V>>, s: State<V>, steps: seq<Step>)
    requires WellFormed(g) && Inv(g, s)
    decreases steps
  {
    steps == [] || (Enabled(g, s, steps[0]) && (StepInv(g, s, steps[0]); Legal(g, Next(g, s, steps[0]), steps[1..])))
  }

  ghost function After<V>(g: DependencyGraph<Work<V>>, s: State<V>, steps: seq<Step>): (t: State<V>)
    requires WellFormed(g) && Inv(g, s) && Legal(g, s, steps)
    ensures Inv(g, t)
    decreases steps
  {
    if steps == [] then s
    else
      StepInv(g, s, steps[0]);
      After(g, Next(g, s, steps[0]), steps[1..])
  }

  /** No run, whatever the interleaving, is longer than the initial measure. */
  lemma {:induction false} RunsAreBounded<V>(g: DependencyGraph<Work<V>>, s: State<V>, steps: seq<Step>)
    requires WellFormed(g) && Inv(g, s) && Legal(g, s, steps)
    ensures |steps| + Measure(g, After(g, s, steps)) <= Measure(g, s)
    decreases steps
  {
    hide Enabled, Next, Measure, Evaluate, NodesOk, RecordOk, SchedulerOk;
    if steps != [] {
      StepInv(g, s, steps[0]);
      StepDecreases(g, s, steps[0]);
      RunsAreBounded(g, Next(g, s, steps[0]), steps[1..]);
    }
  }

  /** Every run can be continued to the end, and cannot be continued forever. */
  lemma {:induction false} RunsFinish<V>(g: DependencyGraph<Work<V>>, s: State<V>) returns (steps: seq<Step>)
    requires WellFormed(g) && Inv(g, s)
    ensures Legal(g, s, steps) && Finished(g, After(g, s, steps))
    decreases Measure(g, s)
  {
    hide Enabled, Next, Measure, Evaluate, NodesOk, RecordOk;
    steps := [];
    if !Finished(g, s) {
      var step := Progress(g, s);
      StepInv(g, s, step);
      StepDecreases(g, s, step);
      MeasureIsNatural(g, s);
      var rest := RunsFinish(g, Next(g, s, step));
      steps := [step] + rest;
      assert steps[1..] == rest;
    }
  }

  // ----- What a finished run reports -----

  /** What `run` puts into the result map. */
  ghost function Results<V>(g: DependencyGraph<Work<V>>, s: State<V>): (results: seq<Any<V>>)
    requires Shaped(g, s) && Finished(g, s)
    ensures |results| == |g.nodes|
  {
    seq(|g.nodes|, v requires 0 <= v < |g.nodes| => s.tasks[v].result)
  }

  /**
    Every interleaving ends with the results of sequential evaluation: a value for each node
    that ran, empty for each one that threw or was skipped. The failed nodes are those without
    a verdict `Done`, and a failure is reported exactly when some work threw, naming such a
    node with its message.
  */
  lemma FinishedIsSequential<V>(g: DependencyGraph<Work<V>>, steps: seq<Step>)
    requires WellFormed(g) && Inv(g, Init(g)) && Legal(g, Init(g), steps) && Finished(g, After(g, Init(g), steps))
    ensures var s, m := After(g, Init(g), steps), Evaluate(g);
      && (forall v :: 0 <= v < |g.nodes| ==> Results(g, s)[v] == if m[v].Done? then m[v].result else Empty)
      && (forall v :: 0 <= v < |g.nodes| ==> (s.failed[v] <==> !m[v].Done?))
      && (s.failureRecorded <==> exists v :: 0 <= v < |g.nodes| && m[v].Threw?)
      && (s.failureRecorded <==> s.record.Some?)
      && (s.record.Some? ==> s.record.value.node < |g.nodes| && m[s.record.value.node] == Threw(s.record.value.message))
  {
    hide Evaluate, Legal, After, Init, SchedulerOk, WellFormed;
    var s, m := After(g, Init(g), steps), Evaluate(g);
    forall v | 0 <= v < |g.nodes|
      ensures s.tasks[v].Ready? && NodeOk(g, m, s, v)
    {
    }
  }

  /** The delivered results of these nodes, in order and with repeats. */
  ghost predicate Delivers<V>(inputs: seq<Any<V>>, ds: seq<nat>, results: seq<Any<V>>) {
    |inputs| == |ds| && forall i :: 0 <= i < |ds| ==> ds[i] < |results| && inputs[i] == results[ds[i]]
  }

  /**
    What `run` delivers, in terms of the works alone: a node with a failed dependency fails; any
    other gets the delivered results of its dependencies, in order, and delivers what its work
    returns on them, or fails if the work throws. A failed node delivers an empty result.
  */
  lemma FinishedSolves<V>(g: DependencyGraph<Work<V>>, steps: seq<Step>, v: nat, inputs: seq<Any<V>>)
    requires WellFormed(g) && Inv(g, Init(g)) && Legal(g, Init(g), steps) && Finished(g, After(g, Init(g), steps))
    requires v < |g.nodes| && Delivers(inputs, g.nodes[v].dependencies, Results(g, After(g, Init(g), steps)))
    ensures var s, ds := After(g, Init(g), steps), g.nodes[v].dependencies;
      if exists i :: 0 <= i < |ds| && s.failed[ds[i]] then s.failed[v] && Results(g, s)[v] == Empty
      else
        match g.nodes[v].work(inputs)
        case Returns(r) => !s.failed[v] && Results(g, s)[v] == r
        case Throws(_) => s.failed[v] && Results(g, s)[v] == Empty
  {
    hide Evaluate, Legal, After, Init, SchedulerOk, NodesOk, RecordOk, Finished, WellFormed, Results;
    var s, ds, m := After(g, Init(g), steps), Deps(g, v), Evaluate(g);
    FinishedIsSequential(g, steps);
    EvaluateIsFixpoint(g, v);
    if AllDone(ds, m) {
      assert inputs == Inputs(ds, m);
    } else {
      var i :| 0 <= i < |ds| && !m[ds[i]].Done?;
      assert s.failed[ds[i]];
    }
  }

  /** The chain of dependencies p leads from v down to a node whose work threw. */
  ghost predicate CausedBy<V>(g: DependencyGraph<Work<V>>, v: nat, p: seq<nat>)
    requires WellFormed(g)
  {
    DependencyPath(g, p) && p[0] == v && p[|p| - 1] < |g.nodes| && Evaluate(g)[p[|p| - 1]].Threw?
  }

  lemma FailedHasCause<V>(g: DependencyGraph<Work<V>>, v: nat)
    requires WellFormed(g) && v < |g.nodes|
    ensures !Evaluate(g)[v].Done? <==> exists p :: CausedBy(g, v, p)
  {
    hide WellFormed, Evaluate, DependencyPath;
    if !Evaluate(g)[v].Done? {
      var p := FailureHasCause(g, v);
      PathNotEmpty(g, p);
      assert CausedBy(g, v, p);
    } else if p :| CausedBy(g, v, p) {
      PathNotEmpty(g, p);
      if |p| > 1 {
        FailureSpreads(g, p);
      }
    }
  }

  lemma PathNotEmpty<V>(g: DependencyGraph<Work<V>>, p: seq<nat>)
    requires DependencyPath(g, p)
    ensures |p| >= 1
  {
  }

  /**
    In every interleaving the nodes marked failed are exactly those that threw and those that
    depend on one that threw, all with an empty result, and the reported node depends on no
    failed node.
  */
  lemma FailedAreThrowersAndDependents<V>(g: DependencyGraph<Work<V>>, steps: seq<Step>)
    requires WellFormed(g) && Inv(g, Init(g)) && Legal(g, Init(g), steps) && Finished(g, After(g, Init(g), steps))
    ensures var s := After(g, Init(g), steps);
      && (forall v :: 0 <= v < |g.nodes| ==> (s.failed[v] <==> exists p :: CausedBy(g, v, p)))
      && (forall v :: 0 <= v < |g.nodes| && s.failed[v] ==> Results(g, s)[v] == Empty)
      && (s.record.Some? ==> forall p :: DependencyPath(g, p) && |p| > 1 && p[0] == s.record.value.node && p[|p| - 1] < |g.nodes| ==> !s.failed[p[|p| - 1]])
  {
    hide Evaluate, Legal, After, Init, SchedulerOk, NodesOk, RecordOk, WellFormed, Finished, CausedBy, DependencyPath, Results;
    var s, m := After(g, Init(g), steps), Evaluate(g);
    FinishedIsSequential(g, steps);
    forall v | 0 <= v < |g.nodes|
      ensures s.failed[v] <==> exists p :: CausedBy(g, v, p)
    {
      FailedHasCause(g, v);
    }
    if s.record.Some? {
      forall p | DependencyPath(g, p) && |p| > 1 && p[0] == s.record.value.node && p[|p| - 1] < |g.nodes|
        ensures !s.failed[p[|p| - 1]]
      {
        ThrowerHasNoFailedAncestor(g, p);
      }
    }
  }
}
