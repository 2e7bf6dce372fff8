/** `install_all_pair_paths` of `intelligent_router.py` on a graph that does not change: the rules it
    installs towards one destination, and the paths it reports for every pair of hosts. */
module InstallStatic {
  import opened Prelude
  import opened ShortestPaths
  import Interleaved = InstallInterleaved

  type Item = Interleaved.Item

  /** The routing graph, its directed edges with their out ports, and the connected switches. */
  datatype Net = Net(edges: map<Arc, Port>, connected: set<Dpid>)

  /** The links a route may use: present in both directions, between connected switches. */
  ghost function Mutual(net: Net): Adj {
    (a: Dpid, b: Dpid) => IsMutual(net, a, b)
  }

  predicate IsMutual(net: Net, a: Dpid, b: Dpid) {
    a in net.connected && b in net.connected && Arc(a, b) in net.edges && Arc(b, a) in net.edges
  }

  /** Each switch's neighbours, in the order the destination's hash puts them: any order. */
  type HashOrder = map<Dpid, seq<Dpid>>

  ghost predicate ListsNeighbors(order: HashOrder, net: Net) {
    forall sw | sw in net.connected :: sw in order && forall n :: n in order[sw] <==> Arc(sw, n) in net.edges
  }

  // ---------------------------------------------------------------- what holds between two turns

  type Parents = map<Dpid, Option<Dpid>>
  type Rules = map<Dpid, Port>

  /** What the walk knows: the rules written, who each switch was reached from, and how far it is. */
  datatype Walk = Walk(rules: Rules, parent: Parents, level: Levels)

  /** The rule of `d` sends the packet one level down. */
  ghost predicate RuleStepsDown(net: Net, w: Walk, d: Dpid) {
    && d in w.level && d in w.rules && d in w.parent && w.parent[d].Some?
    && var p := w.parent[d].value;
       && p in w.level && IsMutual(net, d, p)
       && w.level[d] == w.level[p] + 1 && w.rules[d] == net.edges[Arc(d, p)]
  }

  ghost predicate IsTree(net: Net, dst: Dpid, hostPort: Port, w: Walk) {
    && w.rules.Keys == w.parent.Keys == w.level.Keys
    && dst in w.level && w.level[dst] == 0 && w.rules[dst] == hostPort && w.parent[dst] == None
    && forall d | d in w.level && d != dst :: RuleStepsDown(net, w, d)
  }

  /** The level a queue entry gives its switch. */
  ghost function LevelOf(level: Levels, x: Item): nat {
    if x.prev.Some? && x.prev.value in level then level[x.prev.value] + 1 else 0
  }

  /** Entries come from switches with a rule, over usable links, in ascending levels that span at most
      two, and no switch is beyond the first entry's level. */
  ghost predicate IsQueue(net: Net, level: Levels, queue: seq<Item>) {
    && (forall i | 0 <= i < |queue| ::
          queue[i].prev.Some? && queue[i].prev.value in level && IsMutual(net, queue[i].sw, queue[i].prev.value))
    && (forall i, j | 0 <= i < j < |queue| :: LevelOf(level, queue[i]) <= LevelOf(level, queue[j]))
    && (forall i | 0 <= i < |queue| :: LevelOf(level, queue[i]) <= LevelOf(level, queue[0]) + 1)
    && (queue != [] ==> forall d | d in level :: level[d] <= LevelOf(level, queue[0]))
  }

  /** A neighbour of a switch with a rule is at most one level higher, or queued from it. */
  ghost predicate IsCovered(net: Net, level: Levels, queue: seq<Item>) {
    forall v, n | v in level && IsMutual(net, n, v) ::
      (n in level && level[n] <= level[v] + 1) || Interleaved.Item(n, Some(v)) in queue
  }

  ghost predicate InWalk(net: Net, dst: Dpid, hostPort: Port, w: Walk, queue: seq<Item>) {
    IsTree(net, dst, hostPort, w) && IsQueue(net, w.level, queue) && IsCovered(net, w.level, queue)
  }

  /** A duplicate entry is dropped. */
  lemma DroppingKeepsWalk(net: Net, dst: Dpid, hostPort: Port, w: Walk, queue: seq<Item>)
    requires InWalk(net, dst, hostPort, w, queue) && queue != [] && queue[0].sw in w.level
    ensures InWalk(net, dst, hostPort, w, queue[1..])
  {
    var rest := queue[1..];
    forall i | 0 <= i < |rest| ensures rest[i] == queue[i + 1] {
    }
    forall v, n | v in w.level && IsMutual(net, n, v)
      ensures (n in w.level && w.level[n] <= w.level[v] + 1) || Interleaved.Item(n, Some(v)) in rest
    {
      assert queue == [queue[0]] + rest;
    }
  }

  ghost function Extend(net: Net, w: Walk, sw: Dpid, prev: Dpid): Walk
    requires prev in w.level && Arc(sw, prev) in net.edges
  {
    Walk(w.rules[sw := net.edges[Arc(sw, prev)]], w.parent[sw := Some(prev)], w.level[sw := w.level[prev] + 1])
  }

  /** `added` are the entries a switch's neighbours get. */
  ghost predicate AreNeighbors(net: Net, sw: Dpid, visited: set<Dpid>, added: seq<Item>) {
    && (forall i | 0 <= i < |added| :: added[i].prev == Some(sw) && IsMutual(net, added[i].sw, sw))
    && (forall n | IsMutual(net, n, sw) && n !in visited :: Interleaved.Item(n, Some(sw)) in added)
  }

  lemma ExtendingKeepsTree(net: Net, dst: Dpid, hostPort: Port, w: Walk, sw: Dpid, prev: Dpid)
    requires IsTree(net, dst, hostPort, w) && sw !in w.level && prev in w.level && IsMutual(net, sw, prev)
    ensures IsTree(net, dst, hostPort, Extend(net, w, sw, prev))
  {
    var w' := Extend(net, w, sw, prev);
    forall d | d in w'.level && d != dst ensures RuleStepsDown(net, w', d) {
      assert d != sw ==> RuleStepsDown(net, w, d);
    }
  }

  lemma ExtendingKeepsQueue(net: Net, w: Walk, queue: seq<Item>, added: seq<Item>)
    requires queue != [] && IsQueue(net, w.level, queue) && queue[0].sw !in w.level
    requires forall i | 0 <= i < |added| ::
               added[i].prev == Some(queue[0].sw) && IsMutual(net, added[i].sw, queue[0].sw)
    ensures IsQueue(net, Extend(net, w, queue[0].sw, queue[0].prev.value).level, queue[1..] + added)
  {
    var k := LevelOf(w.level, queue[0]);
    var level' := Extend(net, w, queue[0].sw, queue[0].prev.value).level;
    var queue' := queue[1..] + added;
    forall i | 0 <= i < |queue'|
      ensures queue'[i].prev.Some? && queue'[i].prev.value in level'
      ensures IsMutual(net, queue'[i].sw, queue'[i].prev.value)
      ensures k <= LevelOf(level', queue'[i]) <= k + 1
      ensures i >= |queue| - 1 ==> LevelOf(level', queue'[i]) == k + 1
      ensures i < |queue| - 1 ==> LevelOf(level', queue'[i]) == LevelOf(w.level, queue[i + 1])
    {
      if i < |queue| - 1 {
        assert queue'[i] == queue[i + 1];
      } else {
        assert queue'[i] == added[i - (|queue| - 1)];
      }
    }
  }

  lemma ExtendingKeepsCover(net: Net, w: Walk, queue: seq<Item>, added: seq<Item>, visited: set<Dpid>)
    requires queue != [] && IsQueue(net, w.level, queue) && IsCovered(net, w.level, queue) && queue[0].sw !in w.level
    requires AreNeighbors(net, queue[0].sw, visited, added) && visited == w.level.Keys + {queue[0].sw}
    ensures IsCovered(net, Extend(net, w, queue[0].sw, queue[0].prev.value).level, queue[1..] + added)
  {
    var head := queue[0];
    var level' := Extend(net, w, head.sw, head.prev.value).level;
    assert queue == [head] + queue[1..];
    forall v, n | v in level' && IsMutual(net, n, v)
      ensures (n in level' && level'[n] <= level'[v] + 1) || Interleaved.Item(n, Some(v)) in queue[1..] + added
    {
      var x := Interleaved.Item(n, Some(v));
      if v == head.sw {
        assert n !in visited ==> x in added;
      } else if n == head.sw {
        assert x in queue && LevelOf(w.level, head) <= LevelOf(w.level, x);
      } else {
        assert x != head;
      }
    }
  }

  /** A switch reached for the first time gets its rule, and its neighbours are queued. */
  lemma ExtendingKeepsWalk(net: Net, dst: Dpid, hostPort: Port, w: Walk, queue: seq<Item>, added: seq<Item>,
                           visited: set<Dpid>)
    requires InWalk(net, dst, hostPort, w, queue) && queue != [] && queue[0].sw !in w.level
    requires AreNeighbors(net, queue[0].sw, visited, added) && visited == w.level.Keys + {queue[0].sw}
    ensures InWalk(net, dst, hostPort, Extend(net, w, queue[0].sw, queue[0].prev.value), queue[1..] + added)
  {
    ExtendingKeepsTree(net, dst, hostPort, w, queue[0].sw, queue[0].prev.value);
    ExtendingKeepsQueue(net, w, queue, added);
    ExtendingKeepsCover(net, w, queue, added, visited);
  }

  lemma StartingWalk(net: Net, dst: Dpid, hostPort: Port, added: seq<Item>)
    requires AreNeighbors(net, dst, {dst}, added)
    ensures InWalk(net, dst, hostPort, Walk(map[dst := hostPort], map[dst := None], map[dst := 0]), added)
  {
  }

  // ---------------------------------------------------------------- the walk

  method QueueNeighbors(net: Net, neighbors: seq<Dpid>, sw: Dpid, visited: set<Dpid>) returns (added: seq<Item>)
    requires sw in net.connected && sw in visited
    requires forall n :: n in neighbors <==> Arc(sw, n) in net.edges
    ensures AreNeighbors(net, sw, visited, added)
  {
    added := [];
    for i := 0 to |neighbors|
      invariant forall k | 0 <= k < |added| :: added[k].prev == Some(sw) && IsMutual(net, added[k].sw, sw)
      invariant forall n | n in neighbors[..i] && IsMutual(net, n, sw) && n !in visited ::
                  Interleaved.Item(n, Some(sw)) in added
    {
      var n := neighbors[i];
      assert neighbors[..i + 1] == neighbors[..i] + [n];
      assert n in neighbors;
      if n !in visited && n in net.connected && Arc(n, sw) in net.edges {
        added := added + [Interleaved.Item(n, Some(sw))];
      }
    }
    assert neighbors[..|neighbors|] == neighbors;
  }

  /** The rule of `d` is a hop on a shortest route to `dst`, by way of its parent. */
  ghost predicate IsShortestHop(net: Net, dst: Dpid, d: Dpid, parent: Option<Dpid>, port: Port) {
    && parent.Some? && IsMutual(net, d, parent.value) && port == net.edges[Arc(d, parent.value)]
    && exists n: nat :: Nearest(Mutual(net), dst, d, n + 1) && Nearest(Mutual(net), dst, parent.value, n)
  }

  /** What the walk leaves behind for one destination. */
  ghost predicate IsInstalled(net: Net, dst: Dpid, hostPort: Port, rules: Rules, parent: Parents) {
    if dst !in net.connected then rules == map[] && parent == map[dst := None]
    else
      && rules.Keys == parent.Keys
      && (forall d :: d in rules <==> Reaches(Mutual(net), dst, d))
      && dst in rules && rules[dst] == hostPort && parent[dst] == None
      && (forall d | d in rules && d != dst :: IsShortestHop(net, dst, d, parent[d], rules[d]))
  }

  lemma WalkIsInstalled(net: Net, dst: Dpid, hostPort: Port, w: Walk)
    requires dst in net.connected && InWalk(net, dst, hostPort, w, [])
    ensures IsInstalled(net, dst, hostPort, w.rules, w.parent)
  {
    var adj := Mutual(net);
    assert Descend(adj, dst, w.level) by {
      forall d | d in w.level && d != dst ensures HasStepDown(adj, w.level, d) {
        assert RuleStepsDown(net, w, d);
        assert adj(d, w.parent[d].value);
      }
    }
    assert AreClosed(adj, w.level);
    LevelsAreDistances(adj, dst, w.level);
    forall d | d in w.rules && d != dst ensures IsShortestHop(net, dst, d, w.parent[d], w.rules[d]) {
      assert RuleStepsDown(net, w, d);
      var p := w.parent[d].value;
      assert Nearest(adj, dst, d, w.level[p] + 1) && Nearest(adj, dst, p, w.level[p]);
    }
  }

  /** The loop's invariant: about to start, given up because the destination's switch is not connected,
      or under way. */
  ghost predicate AtLoop(net: Net, dst: Dpid, hostPort: Port, w: Walk, queue: seq<Item>, visited: set<Dpid>) {
    || (queue == [Interleaved.Item(dst, None)] && visited == {} && w == Walk(map[], map[], map[]))
    || (dst !in net.connected && queue == [] && w.rules == map[] && w.parent == map[dst := None])
    || (dst in net.connected && InWalk(net, dst, hostPort, w, queue) && visited == w.level.Keys)
  }

  /** A queue entry for an unvisited switch is good: its edge is there, and only the destination's own
      switch can be unconnected. */
  lemma EntryIsGood(net: Net, dst: Dpid, hostPort: Port, w: Walk, queue: seq<Item>, visited: set<Dpid>)
    requires AtLoop(net, dst, hostPort, w, queue, visited) && queue != []
    ensures queue[0].prev.Some? ==>
              && Arc(queue[0].sw, queue[0].prev.value) in net.edges
              && queue[0].sw in net.connected && queue[0].prev.value in w.level
    ensures queue[0].prev.None? ==>
              queue == [Interleaved.Item(dst, None)] && visited == {} && w == Walk(map[], map[], map[])
    ensures queue[0].sw in net.connected + {dst}
  {
  }

  ghost function Turn(net: Net, hostPort: Port, w: Walk, x: Item): Walk
    requires x.prev.Some? ==> Arc(x.sw, x.prev.value) in net.edges && x.prev.value in w.level
  {
    if x.prev.Some? then Extend(net, w, x.sw, x.prev.value)
    else Walk(w.rules[x.sw := hostPort], w.parent[x.sw := None], w.level[x.sw := 0])
  }

  lemma TurnKeepsLoop(net: Net, dst: Dpid, hostPort: Port, w: Walk, queue: seq<Item>, visited: set<Dpid>,
                      added: seq<Item>)
    requires AtLoop(net, dst, hostPort, w, queue, visited) && queue != []
    requires queue[0].sw !in visited && queue[0].sw in net.connected
    requires AreNeighbors(net, queue[0].sw, visited + {queue[0].sw}, added)
    ensures queue[0].prev.Some? ==> Arc(queue[0].sw, queue[0].prev.value) in net.edges && queue[0].prev.value in w.level
    ensures AtLoop(net, dst, hostPort, Turn(net, hostPort, w, queue[0]), queue[1..] + added, visited + {queue[0].sw})
  {
    EntryIsGood(net, dst, hostPort, w, queue, visited);
    if queue[0].prev.Some? {
      ExtendingKeepsWalk(net, dst, hostPort, w, queue, added, visited + {queue[0].sw});
    } else {
      assert queue[1..] + added == added && {} + {dst} == {dst};
      StartingWalk(net, dst, hostPort, added);
    }
  }

  /** The walk towards one destination: exactly the connected switches that reach the destination's
      over links present in both directions get a rule, one each, and every rule is a hop on a
      shortest route, whatever the order of the neighbours and despite duplicate queue entries. */
  method InstallToward(net: Net, order: HashOrder, dst: Dpid, hostPort: Port)
    returns (rules: Rules, parent: Parents, written: nat)
    requires ListsNeighbors(order, net)
    ensures IsInstalled(net, dst, hostPort, rules, parent)
    ensures written == |rules|
  {
    rules, parent, written := map[], map[], 0;
    var visited: set<Dpid> := {};
    var queue: seq<Item> := [Interleaved.Item(dst, None)];
    ghost var level: Levels := map[];
    while queue != []
      invariant AtLoop(net, dst, hostPort, Walk(rules, parent, level), queue, visited)
      invariant rules.Keys <= visited <= net.connected + {dst}
      invariant written == |rules|
      decreases net.connected + {dst} - visited, |queue|
    {
      var sw, prev := queue[0].sw, queue[0].prev;
      ghost var w, queued, seen := Walk(rules, parent, level), queue, visited;
      EntryIsGood(net, dst, hostPort, w, queued, seen);
      queue := queue[1..];
      if sw in visited {
        DroppingKeepsWalk(net, dst, hostPort, w, queued);
        continue;
      }
      visited := visited + {sw};
      var port := if prev.Some? then net.edges[Arc(sw, prev.value)] else hostPort;
      parent := parent[sw := prev];
      if sw !in net.connected {
        continue;
      }
      rules := rules[sw := port];
      written := written + 1;
      var added := QueueNeighbors(net, order[sw], sw, visited);
      queue := queue + added;
      level := Turn(net, hostPort, w, queued[0]).level;
      TurnKeepsLoop(net, dst, hostPort, w, queued, seen, added);
    }
    if dst in net.connected {
      WalkIsInstalled(net, dst, hostPort, Walk(rules, parent, level));
    }
  }
}
