/** The coalescing topology worker of `intelligent_router.py`: switch-enter events mark a dirty flag
    and queue a datapath id, one greenlet rebuilds and notifies. A step is what runs between two
    yields. */
module TopologyWorker {
  import opened Prelude

  /** What has happened, in order. */
  datatype Event = Entered(dpid: Dpid) | Notified(dpid: Dpid) | RebuildStarted | RebuildAborted | RebuildDone

  /** Where the worker is: reading the topology, or notifying the batch it has drained. */
  datatype Phase = NotStarted | Waiting | Reading | Notifying(batch: set<Dpid>)

  datatype State = State(pending: set<Dpid>, dirty: bool, phase: Phase, log: seq<Event>)

  datatype Action = Enter(dpid: Dpid) | Wake | Abort | Drain | Notify(dpid: Dpid) | Finish

  predicate Init(s: State) {
    s == State({}, false, NotStarted, [])
  }

  predicate Enabled(s: State, a: Action) {
    match a
    case Enter(_) => true
    case Wake => s.phase.Waiting? && s.dirty
    case Abort => s.phase.Reading?
    case Drain => s.phase.Reading?
    case Notify(d) => s.phase.Notifying? && d in s.phase.batch
    case Finish => s.phase == Notifying({})
  }

  function Apply(s: State, a: Action): State
    requires Enabled(s, a)
  {
    match a
    case Enter(d) =>
      s.(pending := s.pending + {d}, dirty := true, log := s.log + [Entered(d)],
         phase := if s.phase.NotStarted? then Waiting else s.phase)
    case Wake => s.(dirty := false, phase := Reading, log := s.log + [RebuildStarted])
    case Abort => s.(phase := Waiting, log := s.log + [RebuildAborted])
    case Drain => s.(pending := {}, phase := Notifying(s.pending))
    case Notify(d) => s.(phase := Notifying(s.phase.batch - {d}), log := s.log + [Notified(d)])
    case Finish => s.(phase := Waiting, log := s.log + [RebuildDone])
  }

  ghost predicate IsRun(states: seq<State>, actions: seq<Action>) {
    && |states| == |actions| + 1
    && forall i | 0 <= i < |actions| :: Enabled(states[i], actions[i]) && states[i + 1] == Apply(states[i], actions[i])
  }

  // ---------------------------------------------------------------- nothing is dropped

  ghost predicate FollowedBy(log: seq<Event>, i: nat, e: Event) {
    exists j :: i < j < |log| && log[j] == e
  }

  predicate InHand(s: State, d: Dpid) {
    d in s.pending || (s.phase.Notifying? && d in s.phase.batch)
  }

  /** Every switch that entered is queued, in the drained batch, or has been notified since. */
  ghost predicate NobodyDropped(s: State) {
    forall i | 0 <= i < |s.log| && s.log[i].Entered? ::
      InHand(s, s.log[i].dpid) || FollowedBy(s.log, i, Notified(s.log[i].dpid))
  }

  /** An event that no rebuild has started after leaves the flag set. */
  ghost predicate NothingUnmarked(s: State) {
    forall i | 0 <= i < |s.log| && s.log[i].Entered? :: s.dirty || FollowedBy(s.log, i, RebuildStarted)
  }

  predicate IsMark(e: Event) {
    e.RebuildStarted? || e.RebuildAborted? || e.RebuildDone?
  }

  /** The last thing that happened to a rebuild. */
  ghost function LastMark(log: seq<Event>): (r: Option<Event>)
    ensures r.Some? ==> IsMark(r.value)
  {
    if log == [] then None
    else if IsMark(log[|log| - 1]) then Some(log[|log| - 1])
    else LastMark(log[..|log| - 1])
  }

  /** The last rebuild to end was aborted. */
  ghost predicate LastAborted(log: seq<Event>) {
    LastMark(log) == Some(RebuildAborted)
  }

  /** A switch has entered since the last rebuild started. */
  ghost predicate IsAsked(log: seq<Event>) {
    log != [] && match log[|log| - 1]
                 case Entered(_) => true
                 case RebuildStarted => false
                 case _ => IsAsked(log[..|log| - 1])
  }

  /** Rebuilds start when they are asked for, one at a time, and end once. */
  ghost predicate IsOrderly(log: seq<Event>) {
    log != [] ==>
      var before := log[..|log| - 1];
      && IsOrderly(before)
      && match log[|log| - 1]
         case RebuildStarted => IsAsked(before)
         case RebuildAborted => LastMark(before) == Some(RebuildStarted)
         case RebuildDone => LastMark(before) == Some(RebuildStarted)
         case _ => true
  }

  ghost predicate Invariant(s: State) {
    && NobodyDropped(s) && NothingUnmarked(s)
    && (s.dirty ==> !s.phase.NotStarted?)
    && (s.phase.NotStarted? ==> s.pending == {} && s.log == [])
    && (s.phase.Notifying? && !s.dirty ==> s.pending == {})
    && (s.phase.Waiting? && !s.dirty && s.pending != {} ==> LastAborted(s.log))
    && IsOrderly(s.log) && s.dirty == IsAsked(s.log)
    && (s.phase.Reading? || s.phase.Notifying? <==> LastMark(s.log) == Some(RebuildStarted))
  }

  lemma StillFollowed(log: seq<Event>, e: Event, i: nat, x: Event)
    requires FollowedBy(log, i, x) || (i < |log| && x == e)
    ensures FollowedBy(log + [e], i, x)
  {
    var log' := log + [e];
    if FollowedBy(log, i, x) {
      var j :| i < j < |log| && log[j] == x;
      assert log'[j] == x;
    } else {
      assert log'[|log|] == x;
    }
  }

  lemma StepKeepsInvariant(s: State, a: Action)
    requires Invariant(s) && Enabled(s, a)
    ensures Invariant(Apply(s, a))
  {
    var s' := Apply(s, a);
    if s'.log != s.log {
      StepDropsNobody(s, a, s'.log[|s.log|]);
      assert s'.log[..|s.log|] == s.log;
    }
  }

  lemma StepDropsNobody(s: State, a: Action, e: Event)
    requires Invariant(s) && Enabled(s, a) && Apply(s, a).log == s.log + [e]
    ensures NobodyDropped(Apply(s, a)) && NothingUnmarked(Apply(s, a))
  {
    var s' := Apply(s, a);
    assert s'.log[|s.log|] == e;
    forall i | 0 <= i < |s'.log| && s'.log[i].Entered?
      ensures InHand(s', s'.log[i].dpid) || FollowedBy(s'.log, i, Notified(s'.log[i].dpid))
      ensures s'.dirty || FollowedBy(s'.log, i, RebuildStarted)
    {
      if i < |s.log| {
        var d := s.log[i].dpid;
        assert s'.log[i] == s.log[i];
        if FollowedBy(s.log, i, Notified(d)) || e == Notified(d) {
          StillFollowed(s.log, e, i, Notified(d));
        }
        if FollowedBy(s.log, i, RebuildStarted) || e == RebuildStarted {
          StillFollowed(s.log, e, i, RebuildStarted);
        }
      }
    }
  }

  /** In every state of every run, also after an aborted rebuild: an event no rebuild has started after
      leaves the flag set, and every queued switch is pending, in the batch, or notified since. */
  lemma {:induction false} NoEnterIsLost(states: seq<State>, actions: seq<Action>)
    requires IsRun(states, actions) && Init(states[0])
    ensures forall i | 0 <= i < |states| :: Invariant(states[i])
  {
    if actions != [] {
      var n := |actions| - 1;
      NoEnterIsLost(states[..n + 1], actions[..n]);
      assert states[n] == states[..n + 1][n];
      StepKeepsInvariant(states[n], actions[n]);
      forall i | 0 <= i < |states| ensures Invariant(states[i]) {
        assert i <= n ==> states[i] == states[..n + 1][i];
      }
    }
  }

  // ---------------------------------------------------------------- what an abort costs

  /** The worker has nothing to do until another switch enters. */
  predicate IsIdle(s: State) {
    s.phase.Waiting? && !s.dirty
  }

  /** When the worker falls idle, every switch that entered has been notified since, unless the last
      rebuild aborted: then only the switches still pending can have been left out. */
  lemma IdleMeansNotified(s: State)
    requires Invariant(s) && IsIdle(s)
    ensures !LastAborted(s.log) ==> s.pending == {}
    ensures forall i | 0 <= i < |s.log| && s.log[i].Entered? && s.log[i].dpid !in s.pending ::
              FollowedBy(s.log, i, Notified(s.log[i].dpid))
    ensures forall i | 0 <= i < |s.log| && s.log[i].Entered? :: FollowedBy(s.log, i, RebuildStarted)
  {
    assert forall i | 0 <= i < |s.log| && s.log[i].Entered? ::
        InHand(s, s.log[i].dpid) || FollowedBy(s.log, i, Notified(s.log[i].dpid));
  }

  /** A rebuild that started after the last switch entered has run to its end. */
  ghost predicate IsRebuilt(log: seq<Event>) {
    exists j, k :: IsCompleteRebuild(log, j, k) && forall m | j < m < |log| :: !log[m].Entered?
  }

  /** The rebuild that started at `j` ended at `k`. */
  ghost predicate IsCompleteRebuild(log: seq<Event>, j: int, k: int) {
    && 0 <= j < k < |log| && log[j].RebuildStarted? && log[k].RebuildDone?
    && forall m | j < m < k :: !IsMark(log[m])
  }

  /** The last start of a rebuild, when nothing has ended it. */
  lemma {:induction false} OpenStart(log: seq<Event>) returns (j: nat)
    requires LastMark(log) == Some(RebuildStarted)
    ensures j < |log| && log[j].RebuildStarted? && forall m | j < m < |log| :: !IsMark(log[m])
  {
    var n := |log| - 1;
    if log[n].RebuildStarted? {
      j := n;
    } else {
      j := OpenStart(log[..n]);
    }
  }

  /** Who has entered since the last start. */
  lemma {:induction false} AskedSince(log: seq<Event>, j: nat)
    requires j < |log| && log[j].RebuildStarted?
    ensures IsAsked(log) ==> exists m :: j < m < |log| && log[m].Entered?
    ensures !IsAsked(log) && (forall m | j < m < |log| :: !log[m].RebuildStarted?) ==>
              forall m | j < m < |log| :: !log[m].Entered?
  {
    var n := |log| - 1;
    if j < n && !log[n].Entered? && !log[n].RebuildStarted? {
      var before := log[..n];
      AskedSince(before, j);
      if IsAsked(log) {
        var m :| j < m < |before| && before[m].Entered?;
        assert log[m].Entered?;
      } else if forall m | j < m < |log| :: !log[m].RebuildStarted? {
        assert forall m | j < m < n :: before[m] == log[m];
      }
    }
  }

  /** In an orderly log, a rebuild has completed since the last switch entered exactly when none is asked for
      and the last one to end was not aborted. */
  lemma {:induction false} RebuiltMeansDone(log: seq<Event>)
    requires IsOrderly(log)
    ensures IsRebuilt(log) <==> !IsAsked(log) && LastMark(log) == Some(RebuildDone)
  {
    if log != [] {
      var n := |log| - 1;
      var before, e := log[..n], log[n];
      RebuiltMeansDone(before);
      assert forall m | 0 <= m < n :: before[m] == log[m];
      RebuiltBefore(log);
      if e.RebuildDone? {
        var j := OpenStart(before);
        AskedSince(before, j);
        if !IsAsked(before) {
          assert IsCompleteRebuild(log, j, n);
        }
        forall i | IsCompleteRebuild(log, i, n) && IsAsked(before)
          ensures exists m :: i < m < |log| && log[m].Entered?
        {
          AskedSince(before, i);
        }
      }
    }
  }

  /** A rebuild completed before the last event counts as before, unless that event is an enter. */
  lemma RebuiltBefore(log: seq<Event>)
    requires log != []
    ensures var n := |log| - 1;
            (exists j, k :: IsCompleteRebuild(log, j, k) && k < n && forall m | j < m < |log| :: !log[m].Entered?)
            <==> IsRebuilt(log[..n]) && !log[n].Entered?
  {
    var n := |log| - 1;
    var before := log[..n];
    forall j, k | k < n ensures IsCompleteRebuild(log, j, k) <==> IsCompleteRebuild(before, j, k) {
    }
    if IsRebuilt(before) && !log[n].Entered? {
      var j, k :| IsCompleteRebuild(before, j, k) && forall m | j < m < |before| :: !before[m].Entered?;
      assert IsCompleteRebuild(log, j, k) && forall m | j < m < n :: log[m] == before[m];
    }
    if j, k :| IsCompleteRebuild(log, j, k) && k < n && forall m | j < m < |log| :: !log[m].Entered? {
      assert IsCompleteRebuild(before, j, k) && forall m | j < m < n :: log[m] == before[m];
    }
  }

  /** The promise of at least one complete rebuild after the last event, in every idle state of every run in
      which a switch has entered: it is kept exactly when the last rebuild was not aborted. */
  lemma IdleMeansRebuiltUnlessAborted(states: seq<State>, actions: seq<Action>, k: nat, i: nat)
    requires IsRun(states, actions) && Init(states[0]) && k < |states| && IsIdle(states[k])
    requires i < |states[k].log| && states[k].log[i].Entered?
    ensures IsRebuilt(states[k].log) <==> !LastAborted(states[k].log)
  {
    NoEnterIsLost(states, actions);
    var log := states[k].log;
    assert Invariant(states[k]);
    RebuiltMeansDone(log);
    EnteredIsAskedOrMarked(log, i);
  }

  lemma {:induction false} EnteredIsAskedOrMarked(log: seq<Event>, i: nat)
    requires i < |log| && log[i].Entered?
    ensures IsAsked(log) || LastMark(log).Some?
  {
    if i < |log| - 1 && !log[|log| - 1].RebuildStarted? {
      EnteredIsAskedOrMarked(log[..|log| - 1], i);
    }
  }

  /** The promise of at least one complete rebuild after the last event fails when a read fails: the
      switch stays queued, unnotified, with the flag clear, until some other switch enters. */
  lemma AbortStrandsSwitch(d: Dpid) returns (states: seq<State>, actions: seq<Action>)
    ensures IsRun(states, actions) && Init(states[0])
    ensures var s := states[|actions|];
            && IsIdle(s) && s.pending == {d} && s.log != []
            && s.log[0] == Entered(d) && !FollowedBy(s.log, 0, Notified(d))
            && !IsRebuilt(s.log)
  {
    var s0 := State({}, false, NotStarted, []);
    var s1 := Apply(s0, Enter(d));
    var s2 := Apply(s1, Wake);
    var s3 := Apply(s2, Abort);
    states, actions := [s0, s1, s2, s3], [Enter(d), Wake, Abort];
    assert s3.log == [Entered(d), RebuildStarted, RebuildAborted];
  }

  /** Left alone, the worker falls idle: each of its steps shortens what remains. */
  function Left(s: State): nat {
    (if s.dirty then 2 * |s.pending| + 4 else 0)
    + match s.phase
      case NotStarted => 0
      case Waiting => 0
      case Reading => 2 * |s.pending| + 3
      case Notifying(batch) => 2 * |batch| + 1
  }

  lemma WorkerSettles(s: State, a: Action)
    requires Invariant(s) && Enabled(s, a) && !a.Enter?
    ensures Left(Apply(s, a)) < Left(s)
  {
  }

  lemma WorkerIsNeverStuck(s: State)
    requires Invariant(s) && !s.phase.NotStarted? && !IsIdle(s)
    ensures exists a: Action :: !a.Enter? && Enabled(s, a)
  {
    match s.phase
    case Waiting => assert Enabled(s, Wake);
    case Reading => assert Enabled(s, Drain);
    case Notifying(batch) =>
      if batch == {} {
        assert Enabled(s, Finish);
      } else {
        var d :| d in batch;
        assert Enabled(s, Notify(d));
      }
  }
}
