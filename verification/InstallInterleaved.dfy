/** One destination's walk of `install_all_pair_paths` (`intelligent_router.py`) while link events and
    switch disconnects change the graph under it. The walk yields at each flow write. */
module InstallInterleaved {
  import opened Prelude

  /** What stays fixed: how the ports are cabled, and where the destination host is plugged in. */
  datatype Site = Site(wires: map<End, Dpid>, dst: Dpid, hostPort: Port)

  /** A queue entry: a switch, and the switch whose rule it was reached from. */
  datatype Item = Item(sw: Dpid, prev: Option<Dpid>)

  /** At the top of the loop, or back from the flow write on a switch whose neighbours come next. */
  datatype Phase = AtTop | Wrote(sw: Dpid)

  /** `rules` are the destination's flow entries, one per switch, stale ones included; `installed` lists
      the switches this walk has written, in order. */
  datatype State = State(
    edges: map<Arc, Port>,
    connected: set<Dpid>,
    rules: map<Dpid, Port>,
    queue: seq<Item>,
    visited: set<Dpid>,
    phase: Phase,
    installed: seq<Dpid>)

  datatype Action =
    | LinkDown(arc: Arc)
    | LinkUp(arc: Arc, port: Port)
    | SwitchesAre(connected: set<Dpid>)
    | Pop
    | Enqueue(neighbors: seq<Dpid>)

  predicate Init(site: Site, s: State) {
    && s.queue == [Item(site.dst, None)] && s.visited == {} && s.phase.AtTop? && s.installed == []
    && WellWired(site, s.edges)
  }

  /** The graph's ports are where the cables are. */
  predicate WellWired(site: Site, edges: map<Arc, Port>) {
    forall a | a in edges :: Lookup(site.wires, End(a.src, edges[a])) == Some(a.dst)
  }

  ghost predicate Enabled(site: Site, s: State, a: Action) {
    match a
    case LinkDown(_) => true
    case LinkUp(arc, port) => Lookup(site.wires, End(arc.src, port)) == Some(arc.dst)
    case SwitchesAre(_) => true
    case Pop => s.phase.AtTop? && s.queue != []
    case Enqueue(neighbors) =>
      s.phase.Wrote? && forall n :: n in neighbors <==> Arc(s.phase.sw, n) in s.edges
  }

  /** One turn of the loop up to the flow write, or to the `continue` that skips it. */
  function PopStep(site: Site, s: State): State
    requires s.queue != []
  {
    var Item(sw, prev) := s.queue[0];
    var s1 := s.(queue := s.queue[1..]);
    if sw in s.visited then s1
    else
      var s2 := s1.(visited := s.visited + {sw});
      if prev.Some? && Arc(sw, prev.value) !in s.edges then s2
      else if sw !in s.connected then s2
      else
        var port := if prev.Some? then s.edges[Arc(sw, prev.value)] else site.hostPort;
        s2.(rules := s.rules[sw := port], installed := s.installed + [sw], phase := Wrote(sw))
  }

  /** The neighbours that are walked on to: not visited, connected, and with the link back. */
  function Walkable(s: State, sw: Dpid, neighbors: seq<Dpid>): seq<Item> {
    if neighbors == [] then []
    else
      var n := neighbors[0];
      var rest := Walkable(s, sw, neighbors[1..]);
      if n !in s.visited && n in s.connected && Arc(n, sw) in s.edges then [Item(n, Some(sw))] + rest else rest
  }

  function Apply(site: Site, s: State, a: Action): State
    requires Enabled(site, s, a)
  {
    match a
    case LinkDown(arc) => s.(edges := s.edges - {arc})
    case LinkUp(arc, port) => if arc in s.edges then s else s.(edges := s.edges[arc := port])
    case SwitchesAre(c) => s.(connected := c)
    case Pop => PopStep(site, s)
    case Enqueue(neighbors) => s.(queue := s.queue + Walkable(s, s.phase.sw, neighbors), phase := AtTop)
  }

  ghost predicate IsRun(site: Site, states: seq<State>, actions: seq<Action>) {
    && |states| == |actions| + 1
    && forall i | 0 <= i < |actions| ::
         Enabled(site, states[i], actions[i]) && states[i + 1] == Apply(site, states[i], actions[i])
  }

  // ---------------------------------------------------------------- the rules point backwards

  /** The rule of the `i`-th switch written hands the packet to the host, or to a switch written
      before it. */
  ghost predicate PointsBack(site: Site, s: State, i: nat)
    requires i < |s.installed|
  {
    var sw := s.installed[i];
    && sw in s.rules
    && if i == 0 then sw == site.dst && s.rules[sw] == site.hostPort
       else exists j :: 0 <= j < i && Lookup(site.wires, End(sw, s.rules[sw])) == Some(s.installed[j])
  }

  ghost predicate Invariant(site: Site, s: State) {
    && WellWired(site, s.edges)
    && (forall i | 0 <= i < |s.installed| :: s.installed[i] in s.visited)
    && (forall i, j | 0 <= i < j < |s.installed| :: s.installed[i] != s.installed[j])
    && (forall i | 0 <= i < |s.installed| :: PointsBack(site, s, i))
    && (forall i | 0 <= i < |s.queue| :: IsFrom(site, s, s.queue[i]))
    && (s.phase.Wrote? ==> s.phase.sw in s.installed)
  }

  /** A queue entry comes from a switch this walk has written; only the destination's comes from none. */
  ghost predicate IsFrom(site: Site, s: State, x: Item) {
    if x.prev.None? then x.sw == site.dst && (s.visited == {} || x.sw in s.visited) else x.prev.value in s.installed
  }

  lemma {:induction false} WalkableFrom(s: State, sw: Dpid, neighbors: seq<Dpid>)
    ensures forall x | x in Walkable(s, sw, neighbors) :: x.prev == Some(sw)
  {
    if neighbors != [] {
      WalkableFrom(s, sw, neighbors[1..]);
    }
  }

  lemma StepKeepsInvariant(site: Site, s: State, a: Action)
    requires Invariant(site, s) && Enabled(site, s, a)
    ensures Invariant(site, Apply(site, s, a))
  {
    var s' := Apply(site, s, a);
    match a {
      case Pop =>
        PopKeepsInvariant(site, s);
      case Enqueue(neighbors) =>
        WalkableFrom(s, s.phase.sw, neighbors);
        forall i | 0 <= i < |s'.installed| ensures PointsBack(site, s', i) {
          assert PointsBack(site, s, i);
        }
      case _ =>
        forall i | 0 <= i < |s'.installed| ensures PointsBack(site, s', i) {
          assert PointsBack(site, s, i);
        }
    }
  }

  lemma PopKeepsInvariant(site: Site, s: State)
    requires Invariant(site, s) && s.queue != []
    ensures Invariant(site, PopStep(site, s))
  {
    var s' := PopStep(site, s);
    var head := s.queue[0];
    assert IsFrom(site, s, head);
    forall i | 0 <= i < |s'.queue| ensures IsFrom(site, s', s'.queue[i]) {
      assert s'.queue[i] == s.queue[i + 1];
      assert IsFrom(site, s, s.queue[i + 1]);
    }
    forall i | 0 <= i < |s'.installed| ensures PointsBack(site, s', i) {
      if i < |s.installed| {
        StillPointsBack(site, s, s', i);
      } else if i > 0 {
        assert s.installed[0] in s.visited;
        var j :| 0 <= j < |s.installed| && s.installed[j] == head.prev.value;
        assert s'.installed[j] == s.installed[j] && s'.installed[i] == head.sw;
        assert Lookup(site.wires, End(head.sw, s'.rules[head.sw])) == Some(s'.installed[j]);
      }
    }
  }

  lemma StillPointsBack(site: Site, s: State, s': State, i: nat)
    requires i < |s.installed| && PointsBack(site, s, i)
    requires s.installed <= s'.installed && Lookup(s'.rules, s.installed[i]) == Lookup(s.rules, s.installed[i])
    ensures PointsBack(site, s', i)
  {
    if i > 0 {
      var sw := s.installed[i];
      var j :| 0 <= j < i && Lookup(site.wires, End(sw, s.rules[sw])) == Some(s.installed[j]);
      assert s'.installed[j] == s.installed[j];
    }
  }

  lemma {:induction false} RunKeepsInvariant(site: Site, states: seq<State>, actions: seq<Action>, n: nat)
    requires IsRun(site, states, actions) && Init(site, states[0]) && n < |states|
    ensures Invariant(site, states[n])
  {
    if n > 0 {
      RunKeepsInvariant(site, states, actions, n - 1);
      StepKeepsInvariant(site, states[n - 1], actions[n - 1]);
      assert states[n] == Apply(site, states[n - 1], actions[n - 1]);
    }
  }

  // ---------------------------------------------------------------- so packets arrive

  /** A packet at `sw` that follows the rules over the cables reaches the host after `n` switches more. */
  ghost predicate ArrivesIn(site: Site, rules: map<Dpid, Port>, sw: Dpid, n: nat)
    decreases n
  {
    && sw in rules
    && if n == 0 then sw == site.dst && rules[sw] == site.hostPort
       else
         && !(sw == site.dst && rules[sw] == site.hostPort)
         && End(sw, rules[sw]) in site.wires
         && ArrivesIn(site, rules, site.wires[End(sw, rules[sw])], n - 1)
  }

  /** From the `i`-th switch written a packet arrives within `i` hops. */
  lemma {:induction false} WrittenSwitchArrives(site: Site, s: State, i: nat) returns (n: nat)
    requires Invariant(site, s) && i < |s.installed|
    ensures n <= i && ArrivesIn(site, s.rules, s.installed[i], n)
  {
    assert PointsBack(site, s, i);
    if i == 0 {
      n := 0;
    } else {
      var sw := s.installed[i];
      var j :| 0 <= j < i && Lookup(site.wires, End(sw, s.rules[sw])) == Some(s.installed[j]);
      assert PointsBack(site, s, 0) && sw != s.installed[0];
      var m := WrittenSwitchArrives(site, s, j);
      n := m + 1;
    }
  }

  /** Whatever links and switches come and go during the walk, at every moment a packet at any switch
      this walk has written reaches the destination, through fewer hops than switches written before
      it, whatever stale rules other switches hold. */
  lemma WrittenSwitchesAlwaysDeliver(site: Site, states: seq<State>, actions: seq<Action>, k: nat, i: nat)
    requires IsRun(site, states, actions) && Init(site, states[0])
    requires k < |states| && i < |states[k].installed|
    ensures exists n: nat :: n <= i && ArrivesIn(site, states[k].rules, states[k].installed[i], n)
  {
    RunKeepsInvariant(site, states, actions, k);
    var n := WrittenSwitchArrives(site, states[k], i);
  }

  /** The walk touches no switch it does not list: every other flow entry is as it was. */
  lemma {:induction false} OthersKeepTheirRules(site: Site, states: seq<State>, actions: seq<Action>, k: nat, sw: Dpid)
    requires IsRun(site, states, actions) && k < |states| && sw !in states[k].installed
    ensures Lookup(states[k].rules, sw) == Lookup(states[0].rules, sw) && sw !in states[0].installed
  {
    if k > 0 {
      assert states[k] == Apply(site, states[k - 1], actions[k - 1]);
      assert sw !in states[k - 1].installed;
      OthersKeepTheirRules(site, states, actions, k - 1, sw);
    }
  }
}
