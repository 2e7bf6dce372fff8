/** The stop protocol of `include/utils/StopSignal.hpp`: any number of threads run a child process each,
    another requests the stop. A step is one system call, or one critical section of the mutex, except
    that the sweep of `request` signals one child per step while it holds the mutex. */
module StopProtocol {
  import opened Prelude

  datatype Pid = Pid(n: int)

  /** A call of `execCommandCancellable`. */
  datatype Runner = Runner(id: int)

  /** Whose process a pid is, from its fork until it is reaped. */
  datatype Owner = ChildOf(runner: Runner) | Stranger

  datatype Stage =
    | Checked
    | Forked(pid: Pid)
    | MustKill(pid: Pid)
    | Reading(pid: Pid, registered: bool)
    | Released(pid: Pid)
    | Done

  /** A signal sent: to which number, and whose process had it then. */
  datatype Signal = Signal(pid: Pid, hit: Option<Owner>)

  /** `procs` are the processes not yet reaped; `children` the registered pids; `sweep` the pids the
      request in progress has still to signal, None when the mutex is free. */
  datatype State = State(
    procs: map<Pid, Owner>,
    stopped: bool,
    children: seq<Pid>,
    sweep: Option<seq<Pid>>,
    runners: map<Runner, Stage>,
    signals: seq<Signal>)

  datatype Action =
    | Check(r: Runner)
    | Fork(r: Runner, pid: Pid)
    | ForkFails(r: Runner)
    | Register(r: Runner)
    | KillOwn(r: Runner)
    | Release(r: Runner)
    | Reap(r: Runner)
    | RequestStart
    | RequestSignal
    | RequestEnd
    | StrangerForks(pid: Pid)
    | StrangerGone(pid: Pid)

  predicate Init(s: State) {
    !s.stopped && s.children == [] && s.sweep == None && s.runners == map[] && s.signals == []
    && forall pid | pid in s.procs :: s.procs[pid].Stranger?
  }

  predicate Enabled(s: State, a: Action) {
    match a
    case Check(r) => r !in s.runners
    case Fork(r, pid) => Lookup(s.runners, r) == Some(Checked) && pid !in s.procs
    case ForkFails(r) => Lookup(s.runners, r) == Some(Checked)
    case Register(r) => r in s.runners && s.runners[r].Forked? && s.sweep.None?
    case KillOwn(r) => r in s.runners && s.runners[r].MustKill?
    case Release(r) => r in s.runners && s.runners[r].Reading? && (s.runners[r].registered ==> s.sweep.None?)
    case Reap(r) => r in s.runners && s.runners[r].Released?
    case RequestStart => s.sweep.None?
    case RequestSignal => s.sweep.Some? && s.sweep.value != []
    case RequestEnd => s.sweep == Some([])
    case StrangerForks(pid) => pid !in s.procs
    case StrangerGone(pid) => Lookup(s.procs, pid) == Some(Stranger)
  }

  /** `removeChild`: the first occurrence goes. */
  function Without(pids: seq<Pid>, pid: Pid): seq<Pid> {
    if pids == [] then [] else if pids[0] == pid then pids[1..] else [pids[0]] + Without(pids[1..], pid)
  }

  function SendSignal(s: State, pid: Pid): State {
    s.(signals := s.signals + [Signal(pid, Lookup(s.procs, pid))])
  }

  function MoveTo(s: State, r: Runner, stage: Stage): State {
    s.(runners := s.runners[r := stage])
  }

  function Apply(s: State, a: Action): State
    requires Enabled(s, a)
  {
    match a
    case Check(r) => MoveTo(s, r, if s.stopped then Done else Checked)
    case Fork(r, pid) => MoveTo(s, r, Forked(pid)).(procs := s.procs[pid := ChildOf(r)])
    case ForkFails(r) => MoveTo(s, r, Done)
    case Register(r) =>
      var pid := s.runners[r].pid;
      if s.stopped then MoveTo(s, r, MustKill(pid))
      else MoveTo(s, r, Reading(pid, true)).(children := s.children + [pid])
    case KillOwn(r) => MoveTo(SendSignal(s, s.runners[r].pid), r, Reading(s.runners[r].pid, false))
    case Release(r) =>
      var Reading(pid, registered) := s.runners[r];
      var s' := MoveTo(s, r, Released(pid));
      if registered then s'.(children := Without(s.children, pid)) else s'
    case Reap(r) => MoveTo(s, r, Done).(procs := s.procs - {s.runners[r].pid})
    case RequestStart => s.(stopped := true, sweep := Some(s.children))
    case RequestSignal => SendSignal(s, s.sweep.value[0]).(sweep := Some(s.sweep.value[1..]))
    case RequestEnd => s.(sweep := None)
    case StrangerForks(pid) => s.(procs := s.procs[pid := Stranger])
    case StrangerGone(pid) => s.(procs := s.procs - {pid})
  }

  ghost predicate IsRun(states: seq<State>, actions: seq<Action>) {
    && |states| == |actions| + 1
    && forall i | 0 <= i < |actions| :: Enabled(states[i], actions[i]) && states[i + 1] == Apply(states[i], actions[i])
  }

  // ---------------------------------------------------------------- the invariant

  predicate HasChild(st: Stage) {
    st.Forked? || st.MustKill? || st.Reading? || st.Released?
  }

  predicate IsRegistered(s: State, r: Runner, pid: Pid) {
    Lookup(s.runners, r) == Some(Reading(pid, true))
  }

  ghost predicate WasSignalled(s: State, r: Runner) {
    exists i :: 0 <= i < |s.signals| && s.signals[i].hit == Some(ChildOf(r))
  }

  /** A runner's pid is its own child's until the runner reaps it. */
  ghost predicate OwnsItsPid(s: State) {
    forall r | r in s.runners && HasChild(s.runners[r]) :: Lookup(s.procs, s.runners[r].pid) == Some(ChildOf(r))
  }

  ghost predicate AreDistinct(pids: seq<Pid>) {
    forall i, j | 0 <= i < j < |pids| :: pids[i] != pids[j]
  }

  /** The set holds exactly the pids of the registered runners, once each. */
  ghost predicate SetIsRegistered(s: State) {
    && AreDistinct(s.children)
    && (forall pid | pid in s.children :: exists r :: IsRegistered(s, r, pid))
    && (forall r, pid | IsRegistered(s, r, pid) :: pid in s.children)
  }

  /** Only registered pids are left to sweep, and once the stop is requested every registered runner's
      child has been signalled or is among them. */
  ghost predicate SweepIsComplete(s: State) {
    && (s.sweep.Some? ==> s.stopped && forall pid | pid in s.sweep.value :: pid in s.children)
    && (forall r, pid | s.stopped && IsRegistered(s, r, pid) ::
          WasSignalled(s, r) || (s.sweep.Some? && pid in s.sweep.value))
    && (forall r | r in s.runners && s.runners[r].Reading? && !s.runners[r].registered :: WasSignalled(s, r))
  }

  /** No signal has hit a pid that was reaped, free, or a stranger's. */
  predicate HitsOwnChildren(s: State) {
    forall i | 0 <= i < |s.signals| :: s.signals[i].hit.Some? && s.signals[i].hit.value.ChildOf?
  }

  ghost predicate Invariant(s: State) {
    OwnsItsPid(s) && SetIsRegistered(s) && SweepIsComplete(s) && HitsOwnChildren(s)
  }

  // ---------------------------------------------------------------- every step keeps it

  lemma {:induction false} WithoutEffect(pids: seq<Pid>, pid: Pid)
    requires AreDistinct(pids)
    ensures AreDistinct(Without(pids, pid))
    ensures forall x :: x in Without(pids, pid) <==> x in pids && x != pid
  {
    if pids != [] {
      var tail := pids[1..];
      assert pids == [pids[0]] + tail;
      forall i, j | 0 <= i < j < |tail| ensures tail[i] != tail[j] {
        assert pids[i + 1] != pids[j + 1];
      }
      forall i | 0 <= i < |tail| ensures tail[i] != pids[0] {
        assert pids[0] != pids[i + 1];
      }
      WithoutEffect(tail, pid);
      var r, t := Without(pids, pid), Without(tail, pid);
      forall i, j | 0 <= i < j < |r| && pids[0] != pid ensures r[i] != r[j] {
        assert pids[0] !in tail && r == [pids[0]] + t && r[j] == t[j - 1] && t[j - 1] in t;
        assert i > 0 ==> r[i] == t[i - 1];
      }
    }
  }

  lemma StillSignalled(s: State, s': State, r: Runner)
    requires s.signals <= s'.signals && WasSignalled(s, r)
    ensures WasSignalled(s', r)
  {
    var i :| 0 <= i < |s.signals| && s.signals[i].hit == Some(ChildOf(r));
    assert s'.signals[i] == s.signals[i];
  }

  lemma SignalHits(s: State, s': State, pid: Pid, r: Runner)
    requires Lookup(s.procs, pid) == Some(ChildOf(r)) && s'.signals == SendSignal(s, pid).signals
    ensures WasSignalled(s', r)
  {
    assert s'.signals[|s.signals|].hit == Some(ChildOf(r));
  }

  lemma StepKeepsPids(s: State, a: Action)
    requires Invariant(s) && Enabled(s, a)
    ensures OwnsItsPid(Apply(s, a))
  {
  }

  lemma DistinctOneMore(pids: seq<Pid>, pid: Pid)
    requires AreDistinct(pids) && pid !in pids
    ensures AreDistinct(pids + [pid])
  {
    forall i, j | 0 <= i < j < |pids + [pid]| ensures (pids + [pid])[i] != (pids + [pid])[j] {
      assert (pids + [pid])[i] == pids[i] && pids[i] in pids;
    }
  }

  lemma StepKeepsDistinct(s: State, a: Action)
    requires OwnsItsPid(s) && SetIsRegistered(s) && Enabled(s, a)
    ensures AreDistinct(Apply(s, a).children)
  {
    if a.Release? && s.runners[a.r].registered {
      WithoutEffect(s.children, s.runners[a.r].pid);
    } else if a.Register? && !s.stopped {
      NewPidIsNew(s, a.r);
      DistinctOneMore(s.children, s.runners[a.r].pid);
    }
  }

  /** Who is registered after a step. */
  lemma RegisteredAfter(s: State, a: Action, r: Runner, pid: Pid)
    requires Enabled(s, a)
    ensures IsRegistered(Apply(s, a), r, pid) <==>
              || (IsRegistered(s, r, pid) && a != Release(r))
              || (a == Register(r) && !s.stopped && pid == s.runners[r].pid)
  {
  }

  lemma StepKeepsSet(s: State, a: Action)
    requires Invariant(s) && Enabled(s, a)
    ensures SetIsRegistered(Apply(s, a))
  {
    var s' := Apply(s, a);
    StepKeepsDistinct(s, a);
    if a.Release? && s.runners[a.r].registered {
      WithoutEffect(s.children, s.runners[a.r].pid);
    }
    forall pid | pid in s'.children ensures exists r :: IsRegistered(s', r, pid) {
      if pid in s.children {
        var r :| IsRegistered(s, r, pid);
        RegisteredAfter(s, a, r, pid);
      } else {
        RegisteredAfter(s, a, a.r, pid);
      }
    }
    forall r, pid | IsRegistered(s', r, pid) ensures pid in s'.children {
      RegisteredAfter(s, a, r, pid);
      if a == Register(r) {
        assert s'.children[|s.children|] == pid;
      } else if a.Release? && s.runners[a.r].registered {
        assert Lookup(s.procs, pid) == Some(ChildOf(r));
      }
    }
  }

  /** A child about to be registered is not in the set yet. */
  lemma NewPidIsNew(s: State, r: Runner)
    requires OwnsItsPid(s) && SetIsRegistered(s) && r in s.runners && s.runners[r].Forked?
    ensures s.runners[r].pid !in s.children
  {
    forall pid | pid in s.children ensures pid != s.runners[r].pid {
      var q :| IsRegistered(s, q, pid);
      assert Lookup(s.procs, pid) == Some(ChildOf(q));
    }
  }

  /** The child the sweep signals next is a registered runner's own. */
  lemma SweptPidIsOwned(s: State, pid: Pid) returns (r: Runner)
    requires Invariant(s) && s.sweep.Some? && pid in s.sweep.value
    ensures IsRegistered(s, r, pid) && Lookup(s.procs, pid) == Some(ChildOf(r))
  {
    r :| IsRegistered(s, r, pid);
  }

  lemma StepKeepsHits(s: State, a: Action)
    requires Invariant(s) && Enabled(s, a)
    ensures HitsOwnChildren(Apply(s, a))
  {
    if a.RequestSignal? {
      var r := SweptPidIsOwned(s, s.sweep.value[0]);
    }
  }

  lemma StepKeepsSweep(s: State, a: Action)
    requires Invariant(s) && Enabled(s, a)
    ensures SweepIsComplete(Apply(s, a))
  {
    var s' := Apply(s, a);
    forall r, pid | s'.stopped && IsRegistered(s', r, pid)
      ensures WasSignalled(s', r) || (s'.sweep.Some? && pid in s'.sweep.value)
    {
      assert IsRegistered(s, r, pid);
      if a.RequestStart? {
        assert pid in s.children;
      } else if WasSignalled(s, r) {
        StillSignalled(s, s', r);
      } else if a.RequestSignal? && pid == s.sweep.value[0] {
        SignalHits(s, s', pid, r);
      } else {
        assert s.sweep.Some? && pid in s.sweep.value;
        assert a.RequestSignal? ==> s.sweep.value == [s.sweep.value[0]] + s.sweep.value[1..];
      }
    }
    forall r | r in s'.runners && s'.runners[r].Reading? && !s'.runners[r].registered ensures WasSignalled(s', r) {
      if a.KillOwn? && r == a.r {
        SignalHits(s, s', s.runners[r].pid, r);
      } else {
        StillSignalled(s, s', r);
      }
    }
    if s'.sweep.Some? {
      forall pid | pid in s'.sweep.value ensures pid in s'.children {
        assert !a.RequestStart? ==> pid in s.sweep.value;
      }
    }
  }

  lemma StepKeepsInvariant(s: State, a: Action)
    requires Invariant(s) && Enabled(s, a)
    ensures Invariant(Apply(s, a))
  {
    StepKeepsPids(s, a);
    StepKeepsSet(s, a);
    StepKeepsHits(s, a);
    StepKeepsSweep(s, a);
  }

  lemma {:induction false} RunKeepsInvariant(states: seq<State>, actions: seq<Action>, n: nat)
    requires IsRun(states, actions) && Init(states[0]) && n < |states|
    ensures Invariant(states[n])
  {
    if n > 0 {
      RunKeepsInvariant(states, actions, n - 1);
      StepKeepsInvariant(states[n - 1], actions[n - 1]);
      assert states[n] == Apply(states[n - 1], actions[n - 1]);
    }
  }

  // ---------------------------------------------------------------- the promises

  /** Over every interleaving, no signal reaches a process that was reaped, or a stranger that was given
      the same number since. */
  lemma NeverSignalsReapedPid(states: seq<State>, actions: seq<Action>, n: nat)
    requires IsRun(states, actions) && Init(states[0]) && n < |states|
    ensures HitsOwnChildren(states[n])
    ensures forall r | r in states[n].runners && HasChild(states[n].runners[r]) ::
              Lookup(states[n].procs, states[n].runners[r].pid) == Some(ChildOf(r))
  {
    RunKeepsInvariant(states, actions, n);
  }

  /** Once a request has returned, every child not yet released has been sent the signal, or its runner
      is on its way to send it. */
  lemma StopReachesEveryChild(states: seq<State>, actions: seq<Action>, n: nat, r: Runner)
    requires IsRun(states, actions) && Init(states[0]) && n < |states|
    requires states[n].stopped && states[n].sweep.None?
    requires r in states[n].runners && HasChild(states[n].runners[r]) && !states[n].runners[r].Released?
    ensures WasSignalled(states[n], r) || states[n].runners[r].Forked? || states[n].runners[r].MustKill?
  {
    RunKeepsInvariant(states, actions, n);
    var st := states[n].runners[r];
    if st.Reading? && st.registered {
      assert IsRegistered(states[n], r, st.pid);
    }
  }

  /** A runner on its way has no other way to go: registering fails, and then it must kill. */
  lemma RunnerMustSend(s: State, r: Runner, a: Action)
    requires Invariant(s) && s.stopped && r in s.runners && Enabled(s, a)
    requires s.runners[r].Forked? || s.runners[r].MustKill?
    ensures var s' := Apply(s, a);
            && s'.stopped && r in s'.runners
            && (s.runners[r].Forked? ==> s'.runners[r] == s.runners[r] || s'.runners[r] == MustKill(s.runners[r].pid))
            && (s.runners[r].MustKill? ==> s'.runners[r] == s.runners[r] || WasSignalled(s', r))
  {
    if a == KillOwn(r) {
      SignalHits(s, Apply(s, a), s.runners[r].pid, r);
    }
  }

  /** After the stop no call that has not yet looked starts a child. */
  lemma {:induction false} NoNewChildAfterStop(states: seq<State>, actions: seq<Action>, m: nat, n: nat, r: Runner)
    requires IsRun(states, actions) && m <= n < |states|
    requires states[m].stopped && r !in states[m].runners
    ensures states[n].stopped && (r in states[n].runners ==> states[n].runners[r].Done?)
    decreases n
  {
    if n > m {
      NoNewChildAfterStop(states, actions, m, n - 1, r);
      assert states[n] == Apply(states[n - 1], actions[n - 1]);
    }
  }

  /** Until the stop is requested no signal is sent, to anybody, and no call has to kill its child. */
  ghost predicate IsUndisturbed(s: State) {
    s.signals == [] && s.sweep.None? && forall r | r in s.runners :: !s.runners[r].MustKill?
  }

  lemma {:induction false} NoSignalBeforeStop(states: seq<State>, actions: seq<Action>, k: nat)
    requires IsRun(states, actions) && Init(states[0]) && k < |states|
    ensures !states[k].stopped ==> IsUndisturbed(states[k])
  {
    if k > 0 {
      NoSignalBeforeStop(states, actions, k - 1);
      assert Enabled(states[k - 1], actions[k - 1]) && states[k] == Apply(states[k - 1], actions[k - 1]);
    }
  }

  /** A call that looked before the stop may start its child, whenever it gets to it and under any free pid; one
      that looked after it may not. */
  lemma LookBeforeStopMayStart(states: seq<State>, actions: seq<Action>, j: nat, k: nat, r: Runner)
    requires IsRun(states, actions) && j < k < |states| && actions[j] == Check(r)
    requires forall m | j < m < k :: actions[m] != ForkFails(r) && forall pid :: actions[m] != Fork(r, pid)
    ensures !states[j].stopped ==> forall pid | pid !in states[k].procs :: Enabled(states[k], Fork(r, pid))
    ensures states[j].stopped ==> forall pid :: !Enabled(states[k], Fork(r, pid))
  {
    LookDecides(states, actions, j, k, r);
  }

  lemma {:induction false} LookDecides(states: seq<State>, actions: seq<Action>, j: nat, k: nat, r: Runner)
    requires IsRun(states, actions) && j < k < |states| && actions[j] == Check(r)
    requires forall m | j < m < k :: actions[m] != ForkFails(r) && forall pid :: actions[m] != Fork(r, pid)
    ensures Lookup(states[k].runners, r) == Some(if states[j].stopped then Done else Checked)
    decreases k
  {
    assert Enabled(states[k - 1], actions[k - 1]) && states[k] == Apply(states[k - 1], actions[k - 1]);
    if k > j + 1 {
      LookDecides(states, actions, j, k - 1, r);
    }
  }

  /** Every call about to start its child looked before the stop. */
  lemma {:induction false} EveryChildWasLookedFor(states: seq<State>, actions: seq<Action>, k: nat, r: Runner)
    returns (j: nat)
    requires IsRun(states, actions) && Init(states[0]) && k < |states| && Lookup(states[k].runners, r) == Some(Checked)
    ensures j < k && actions[j] == Check(r) && !states[j].stopped
  {
    assert k > 0;
    assert Enabled(states[k - 1], actions[k - 1]) && states[k] == Apply(states[k - 1], actions[k - 1]);
    if actions[k - 1] == Check(r) {
      j := k - 1;
    } else {
      j := EveryChildWasLookedFor(states, actions, k - 1, r);
    }
  }
}
