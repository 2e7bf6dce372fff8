/** The debounced route-reinstall worker of `intelligent_router.py`: link events and one greenlet that
    share a sequence number and a running flag. A step is what runs between two yields. */
module ReinstallWorker {
  import opened Prelude

  /** A walk over the graph: the sequence number and the graph it started from, and how many link
      events have fallen inside it so far. */
  datatype Walk = Walk(startSeq: nat, graph: set<Arc>, eventsInside: nat)

  /** Where the worker greenlet is parked. `seen` is the sequence number it read before the quiet
      period, `left` the flow writes the walk still has to yield in. */
  datatype Phase =
    | NotRunning
    | Spawned
    | Quiet(seen: nat)
    | AwaitInstall(seen: nat, waited: nat)
    | Walking(seen: nat, left: nat, walk: Walk)

  /** `last` is the last walk that finished, `failed` says that the last worker died of an exception. */
  datatype State = State(
    graph: set<Arc>,
    changeSeq: nat,
    running: bool,
    phase: Phase,
    installed: bool,
    last: Option<Walk>,
    failed: bool)

  datatype Action =
    | LinkDown(arc: Arc)
    | LinkUp(arc: Arc)
    | InitialInstallDone
    | Begin
    | QuietEnds(rules: nat)
    | WaitTick(rules: nat)
    | WriteFlow
    | WalkEnds
    | WalkRaises

  predicate Init(s: State) {
    s.changeSeq == 0 && !s.running && s.phase.NotRunning? && s.last.None? && !s.failed
  }

  /** `_schedule_route_reinstall`, together with the change of the graph that precedes it. */
  function LinkEvent(s: State, graph: set<Arc>): State {
    var phase := if s.phase.Walking?
                 then s.phase.(walk := s.phase.walk.(eventsInside := s.phase.walk.eventsInside + 1))
                 else s.phase;
    var s' := s.(graph := graph, changeSeq := s.changeSeq + 1, phase := phase);
    if s.running then s' else s'.(running := true, phase := Spawned, failed := false)
  }

  function StartWalk(s: State, seen: nat, rules: nat): State {
    s.(phase := Walking(seen, rules, Walk(s.changeSeq, s.graph, 0)))
  }

  function Stop(s: State): State {
    s.(running := false, phase := NotRunning)
  }

  predicate Enabled(s: State, a: Action) {
    match a
    case LinkDown(_) => true
    case LinkUp(_) => true
    case InitialInstallDone => true
    case Begin => s.phase.Spawned?
    case QuietEnds(_) => s.phase.Quiet?
    case WaitTick(_) => s.phase.AwaitInstall?
    case WriteFlow => s.phase.Walking? && s.phase.left > 0
    case WalkEnds => s.phase.Walking? && s.phase.left == 0
    case WalkRaises => s.phase.Walking?
  }

  /** One step. `limit` is how many one-second waits the worker allows the initial install. */
  function Apply(s: State, a: Action, limit: nat): State
    requires Enabled(s, a)
  {
    match a
    case LinkDown(e) => LinkEvent(s, s.graph - {e})
    case LinkUp(e) => LinkEvent(s, s.graph + {e})
    case InitialInstallDone => s.(installed := true)
    case Begin => s.(phase := Quiet(s.changeSeq))
    case QuietEnds(rules) =>
      if s.changeSeq != s.phase.seen then s.(phase := Quiet(s.changeSeq))
      else if !s.installed && limit > 0 then s.(phase := AwaitInstall(s.phase.seen, 0))
      else StartWalk(s, s.phase.seen, rules)
    case WaitTick(rules) =>
      var waited := s.phase.waited + 1;
      if !s.installed && waited < limit then s.(phase := AwaitInstall(s.phase.seen, waited))
      else StartWalk(s, s.phase.seen, rules)
    case WriteFlow => s.(phase := s.phase.(left := s.phase.left - 1))
    case WalkEnds =>
      var s' := s.(last := Some(s.phase.walk));
      if s.changeSeq == s.phase.seen then Stop(s') else s'.(phase := Quiet(s.changeSeq))
    case WalkRaises => Stop(s).(failed := true)
  }

  /** A run: the states passed and the actions between them. */
  ghost predicate IsRun(states: seq<State>, actions: seq<Action>, limit: nat) {
    && |states| == |actions| + 1
    && forall i | 0 <= i < |actions| ::
         Enabled(states[i], actions[i]) && states[i + 1] == Apply(states[i], actions[i], limit)
  }

  /** The routes were last computed from the graph as it is now, by a walk no link event fell into. */
  predicate IsUpToDate(s: State) {
    s.last.Some? && s.last.value == Walk(s.changeSeq, s.graph, 0)
  }

  predicate Invariant(s: State) {
    && s.running == !s.phase.NotRunning?
    && (s.phase.Quiet? || s.phase.AwaitInstall? || s.phase.Walking? ==> s.phase.seen <= s.changeSeq)
    && (s.phase.Walking? ==>
          var w := s.phase.walk;
          && s.phase.seen <= w.startSeq && w.startSeq + w.eventsInside == s.changeSeq
          && (w.eventsInside == 0 ==> w.graph == s.graph))
    && (s.running ==> s.changeSeq > 0 && !s.failed)
    && (!s.running && s.changeSeq > 0 && !s.failed ==> IsUpToDate(s))
  }

  lemma StepKeepsInvariant(s: State, a: Action, limit: nat)
    requires Invariant(s) && Enabled(s, a)
    ensures Invariant(Apply(s, a, limit))
  {
  }

  /** No topology change is ever lost: whenever no worker is running, the last finished walk started
      at the current sequence number and no link event fell inside it, unless there has been no link
      event yet or the last worker died of an exception. */
  lemma {:induction false} NoChangeIsLost(states: seq<State>, actions: seq<Action>, limit: nat)
    requires IsRun(states, actions, limit) && Init(states[0])
    ensures forall i | 0 <= i < |states| :: Invariant(states[i])
    ensures forall i | 0 <= i < |states| && !states[i].running && states[i].changeSeq > 0 && !states[i].failed ::
              IsUpToDate(states[i])
  {
    if actions != [] {
      var n := |actions| - 1;
      NoChangeIsLost(states[..n + 1], actions[..n], limit);
      assert states[n] == states[..n + 1][n];
      StepKeepsInvariant(states[n], actions[n], limit);
      forall i | 0 <= i < |states| ensures Invariant(states[i]) {
        assert i <= n ==> states[i] == states[..n + 1][i];
      }
    }
  }

  /** Whether the routes are those of the present graph can be told, in every state of every run, from the
      sequence numbers alone: they are exactly when the last finished walk started at the current one. */
  lemma UpToDateBySequence(states: seq<State>, actions: seq<Action>, limit: nat, k: nat)
    requires IsRun(states, actions, limit) && Init(states[0]) && k < |states|
    ensures IsUpToDate(states[k]) <==> states[k].last.Some? && states[k].last.value.startSeq == states[k].changeSeq
  {
    WalksAreRecorded(states, actions, limit, k);
  }

  /** A walk, finished or under way, that started at the current sequence number saw the present graph and no
      event; none started later. */
  predicate IsCurrent(s: State, w: Walk) {
    w.startSeq <= s.changeSeq && (w.startSeq == s.changeSeq ==> w.eventsInside == 0 && w.graph == s.graph)
  }

  lemma {:induction false} WalksAreRecorded(states: seq<State>, actions: seq<Action>, limit: nat, k: nat)
    requires IsRun(states, actions, limit) && Init(states[0]) && k < |states|
    ensures states[k].last.Some? ==> IsCurrent(states[k], states[k].last.value)
    ensures states[k].phase.Walking? ==> IsCurrent(states[k], states[k].phase.walk)
  {
    if k > 0 {
      WalksAreRecorded(states, actions, limit, k - 1);
      assert Enabled(states[k - 1], actions[k - 1]) && states[k] == Apply(states[k - 1], actions[k - 1], limit);
    }
  }

  /** The exception is the one way out: a worker that dies in its walk leaves the change it was started
      for unrouted, with nothing scheduled. */
  lemma DyingWorkerLosesChange(e: Arc, limit: nat) returns (states: seq<State>, actions: seq<Action>)
    ensures IsRun(states, actions, limit) && Init(states[0])
    ensures var s := states[|actions|]; !s.running && s.failed && s.changeSeq > 0 && !IsUpToDate(s)
  {
    var s0 := State({e}, 0, false, NotRunning, true, None, false);
    var s1 := Apply(s0, LinkDown(e), limit);
    var s2 := Apply(s1, Begin, limit);
    var s3 := Apply(s2, QuietEnds(1), limit);
    var s4 := Apply(s3, WalkRaises, limit);
    states, actions := [s0, s1, s2, s3, s4], [LinkDown(e), Begin, QuietEnds(1), WalkRaises];
  }

  // ---------------------------------------------------------------- when a walk starts

  predicate IsLinkEvent(a: Action) {
    a.LinkDown? || a.LinkUp?
  }

  /** With action `j` the worker has read the sequence number and begun to wait for quiet. */
  predicate BeginsQuiet(states: seq<State>, actions: seq<Action>, j: nat) {
    && j < |actions| && |states| == |actions| + 1
    && IsWorkerStep(actions[j]) && states[j + 1].phase == Quiet(states[j + 1].changeSeq)
  }

  /** The wait that began with action `j` ended with action `i`, and no link event fell into it. */
  ghost predicate IsQuietPeriod(states: seq<State>, actions: seq<Action>, j: nat, i: nat) {
    && BeginsQuiet(states, actions, j) && j < i < |actions| && actions[i].QuietEnds?
    && forall m | j < m < i :: actions[m].InitialInstallDone?
  }

  /** The one-second waits among the actions after `i` and before `k`. */
  function Waits(actions: seq<Action>, i: nat, k: nat): nat
    requires k <= |actions|
  {
    if k <= i + 1 then 0 else Waits(actions, i, k - 1) + if actions[k - 1].WaitTick? then 1 else 0
  }

  lemma {:induction false} QuietBegan(states: seq<State>, actions: seq<Action>, limit: nat, k: nat) returns (j: nat)
    requires IsRun(states, actions, limit) && Init(states[0]) && k < |states| && states[k].phase.Quiet?
    ensures j < k && BeginsQuiet(states, actions, j) && states[k].phase.seen <= states[k].changeSeq
    ensures forall m | j < m < k :: IsLinkEvent(actions[m]) || actions[m].InitialInstallDone?
    ensures states[k].phase.seen == states[k].changeSeq ==> forall m | j < m < k :: actions[m].InitialInstallDone?
  {
    assert k > 0 && Enabled(states[k - 1], actions[k - 1]) && states[k] == Apply(states[k - 1], actions[k - 1], limit);
    if IsWorkerStep(actions[k - 1]) {
      j := k - 1;
    } else {
      j := QuietBegan(states, actions, limit, k - 1);
    }
  }

  lemma WaitStep(s: State, a: Action, limit: nat)
    requires Enabled(s, a) && Apply(s, a, limit).phase.AwaitInstall?
    ensures var waited := Apply(s, a, limit).phase.waited;
            if a.QuietEnds? then s.phase.Quiet? && s.phase.seen == s.changeSeq && waited == 0
            else s.phase.AwaitInstall? && waited == s.phase.waited + if a.WaitTick? then 1 else 0
  {
  }

  lemma {:induction false} WaitBegan(states: seq<State>, actions: seq<Action>, limit: nat, k: nat)
    returns (j: nat, i: nat)
    requires IsRun(states, actions, limit) && Init(states[0]) && k < |states| && states[k].phase.AwaitInstall?
    ensures i < k && IsQuietPeriod(states, actions, j, i) && Waits(actions, i, k) == states[k].phase.waited
    ensures forall m | i < m < k :: !actions[m].QuietEnds?
  {
    assert k > 0;
    var a := actions[k - 1];
    assert Enabled(states[k - 1], a) && states[k] == Apply(states[k - 1], a, limit);
    WaitStep(states[k - 1], a, limit);
    if a.QuietEnds? {
      i := k - 1;
      j := QuietBegan(states, actions, limit, k - 1);
    } else {
      j, i := WaitBegan(states, actions, limit, k - 1);
    }
  }

  /** A walk starts only after a quiet period into which no link event fell, and then only once the initial
      install is done or the worker has waited for it as often as it may. */
  lemma WalkStartsAfterQuiet(states: seq<State>, actions: seq<Action>, limit: nat, k: nat) returns (j: nat, i: nat)
    requires IsRun(states, actions, limit) && Init(states[0]) && k < |actions|
    requires !states[k].phase.Walking? && states[k + 1].phase.Walking?
    ensures i <= k && IsQuietPeriod(states, actions, j, i) && forall m | i < m <= k :: !actions[m].QuietEnds?
    ensures states[k].installed || Waits(actions, i, k + 1) >= limit
  {
    assert Enabled(states[k], actions[k]) && states[k + 1] == Apply(states[k], actions[k], limit);
    if actions[k].QuietEnds? {
      i := k;
      j := QuietBegan(states, actions, limit, k);
    } else {
      j, i := WaitBegan(states, actions, limit, k);
    }
  }

  // ---------------------------------------------------------------- it settles

  predicate IsWorkerStep(a: Action) {
    a.Begin? || a.QuietEnds? || a.WaitTick? || a.WriteFlow? || a.WalkEnds?
  }

  /** How far the worker is from stopping when nothing else happens: first the stage, then the steps
      left in it. */
  function Stage(s: State): nat {
    match s.phase
    case NotRunning => 0
    case Walking(seen, _, _) => if seen == s.changeSeq then 1 else 6
    case AwaitInstall(seen, _) => if seen == s.changeSeq then 2 else 7
    case Quiet(seen) => if seen == s.changeSeq then 3 else 4
    case Spawned => 5
  }

  function Left(s: State, limit: nat): int {
    match s.phase
    case Walking(_, left, _) => left
    case AwaitInstall(_, waited) => if waited < limit then limit - waited else 0
    case _ => 0
  }

  /** Every step of the worker brings it nearer to stopping, and while it runs it can take one. */
  lemma WorkerProgresses(s: State, limit: nat)
    requires Invariant(s)
    ensures forall a | IsWorkerStep(a) && Enabled(s, a) ::
              var s' := Apply(s, a, limit);
              Stage(s') < Stage(s) || (Stage(s') == Stage(s) && 0 <= Left(s', limit) < Left(s, limit))
    ensures s.running ==> exists a :: IsWorkerStep(a) && Enabled(s, a)
  {
    forall a | IsWorkerStep(a) && Enabled(s, a)
      ensures var s' := Apply(s, a, limit);
              Stage(s') < Stage(s) || (Stage(s') == Stage(s) && 0 <= Left(s', limit) < Left(s, limit))
    {
    }
    if s.running {
      var a := match s.phase
               case Spawned => Begin
               case Quiet(_) => QuietEnds(0)
               case AwaitInstall(_, _) => WaitTick(0)
               case Walking(_, left, _) => if left > 0 then WriteFlow else WalkEnds
               case NotRunning => Begin;
      assert IsWorkerStep(a) && Enabled(s, a);
    }
  }

  /** Once the links are quiet and the worker has nothing left to do, the routes are those of the
      graph the quiet began with. */
  lemma {:induction false} QuietEndsUpToDate(states: seq<State>, actions: seq<Action>, limit: nat)
    requires IsRun(states, actions, limit) && Invariant(states[0]) && states[0].running
    requires forall a | a in actions :: IsWorkerStep(a)
    requires forall a | IsWorkerStep(a) :: !Enabled(states[|actions|], a)
    ensures IsUpToDate(states[|actions|]) && states[|actions|].graph == states[0].graph
  {
    WorkerOnlyRun(states, actions, limit, |actions|);
    var s := states[|actions|];
    WorkerProgresses(s, limit);
    if s.running {
      assert false;
    }
  }

  lemma {:induction false} WorkerOnlyRun(states: seq<State>, actions: seq<Action>, limit: nat, n: nat)
    requires IsRun(states, actions, limit) && Invariant(states[0]) && states[0].running && n <= |actions|
    requires forall a | a in actions :: IsWorkerStep(a)
    ensures Invariant(states[n]) && states[n].graph == states[0].graph && states[n].changeSeq == states[0].changeSeq
    ensures states[n].running || (!states[n].failed && IsUpToDate(states[n]))
  {
    if n > 0 {
      WorkerOnlyRun(states, actions, limit, n - 1);
      assert actions[n - 1] in actions && states[n] == Apply(states[n - 1], actions[n - 1], limit);
      StepKeepsInvariant(states[n - 1], actions[n - 1], limit);
    }
  }
}
