/** The breadth-first search around a switch (`ports_toward` of
    `examples/p4_energy_saving/energy_saving.py`). */
module PortsToward {
  import opened Prelude
  import opened RouteWalk
  import opened ShortestPaths

  type PortTree = map<Dpid, Option<Port>>

  /** The order in which the search visits the switches and each switch's ports. The source sorts
      both; everything here holds for every order. */
  datatype Order = Order(switches: seq<Dpid>, ports: map<Dpid, seq<Port>>)

  ghost predicate Lists(order: Order, links: Links) {
    && (forall d :: d in order.switches <==> d in links)
    && (forall d | d in links :: d in order.ports && forall p :: p in order.ports[d] <==> p in links[d])
  }

  // ---------------------------------------------------------------- the search as functions

  /** The first of `keys` whose link leads to `here`. */
  function FirstPort(ports: map<Port, Dpid>, keys: seq<Port>, here: Dpid): (r: Option<Port>)
    ensures r.Some? ==> r.value in ports && ports[r.value] == here
    ensures r.None? ==> forall p | p in keys && p in ports :: ports[p] != here
  {
    if keys == [] then None
    else if keys[0] in ports && ports[keys[0]] == here then Some(keys[0])
    else FirstPort(ports, keys[1..], here)
  }

  /** The port switch `d` takes to reach `here`, unless it has one already or must not be entered. */
  function PortInto(links: Links, order: Order, avoid: Dpid, here: Dpid, d: Dpid, tree: PortTree): (r: Option<Port>) {
    if d == avoid || d in tree || d !in links || d !in order.ports then None
    else FirstPort(links[d], order.ports[d], here)
  }

  /** The first `n` switches of the order visited: those with a link to `here` are entered in the
      tree and queued. */
  function Expand(links: Links, order: Order, avoid: Dpid, here: Dpid, n: nat, tree: PortTree)
    : (r: (PortTree, seq<Dpid>))
    requires n <= |order.switches|
    ensures r.1 == [] ==> r.0 == tree
    ensures r.1 != [] ==> r.1[0] in links && r.1[0] !in tree && r.1[0] in r.0
    ensures tree.Keys <= r.0.Keys
  {
    if n == 0 then (tree, [])
    else
      var r := Expand(links, order, avoid, here, n - 1, tree);
      var d := order.switches[n - 1];
      var port := PortInto(links, order, avoid, here, d, r.0);
      if port.None? then r else (r.0[d := port], r.1 + [d])
  }

  function Bfs(links: Links, order: Order, avoid: Dpid, tree: PortTree, queue: seq<Dpid>): PortTree
    decreases links.Keys - tree.Keys, |queue|
  {
    if queue == [] then tree
    else
      var (tree', found) := Expand(links, order, avoid, queue[0], |order.switches|, tree);
      Bfs(links, order, avoid, tree', queue[1..] + found)
  }

  /** {dpid: egress port} along a shortest path to `target` that never enters `avoid`. */
  function Toward(links: Links, order: Order, target: Dpid, avoid: Dpid): PortTree {
    Bfs(links, order, avoid, map[target := None], [target])
  }

  // ---------------------------------------------------------------- the loops

  /** The inner loops of the search: every switch with a link to `here`. */
  method ScanLinks(links: Links, order: Order, avoid: Dpid, here: Dpid, tree: PortTree)
    returns (portOf: PortTree, found: seq<Dpid>)
    ensures (portOf, found) == Expand(links, order, avoid, here, |order.switches|, tree)
  {
    portOf, found := tree, [];
    for i := 0 to |order.switches|
      invariant (portOf, found) == Expand(links, order, avoid, here, i, tree)
    {
      var d := order.switches[i];
      var port := PortInto(links, order, avoid, here, d, portOf);
      if port.Some? {
        portOf := portOf[d := port];
        found := found + [d];
      }
    }
  }

  /** `ports_toward`, as the loops the source runs. */
  method PortsToward(links: Links, order: Order, target: Dpid, avoid: Dpid) returns (portOf: PortTree)
    requires Lists(order, links)
    ensures portOf == Toward(links, order, target, avoid)
    ensures forall d :: d in portOf <==> Reaches(Around(links, avoid), target, d)
    ensures forall d | d in portOf && d != target :: IsShortestStep(links, target, avoid, d, portOf[d])
  {
    portOf := map[target := None];
    var queue := [target];
    while queue != []
      invariant Bfs(links, order, avoid, portOf, queue) == Toward(links, order, target, avoid)
      decreases links.Keys - portOf.Keys, |queue|
    {
      var here := queue[0];
      var found;
      portOf, found := ScanLinks(links, order, avoid, here, portOf);
      queue := queue[1..] + found;
    }
    TowardIsShortest(links, order, target, avoid);
  }

  // ---------------------------------------------------------------- what it computes

  /** Port `port` of switch `d`, which is not `avoid`, leads to `here`. */
  ghost predicate IsLinkTo(links: Links, avoid: Dpid, d: Dpid, port: Option<Port>, here: Dpid) {
    d != avoid && d in links && port.Some? && port.value in links[d] && links[d][port.value] == here
  }

  /** The links, except those that leave from `avoid`. */
  ghost function Around(links: Links, avoid: Dpid): Adj {
    (d: Dpid, next: Dpid) => d != avoid && d in links && next in links[d].Values
  }

  /** `port` takes a packet at `d` one link nearer to `target`, on a shortest way round `avoid`. */
  ghost predicate IsShortestStep(links: Links, target: Dpid, avoid: Dpid, d: Dpid, port: Option<Port>) {
    exists next, n: nat ::
      && IsLinkTo(links, avoid, d, port, next)
      && Nearest(Around(links, avoid), target, d, n + 1) && Nearest(Around(links, avoid), target, next, n)
  }

  // ---------------------------------------------------------------- why it does

  /** `d` has a port that leads one level down. */
  ghost predicate StepsDown(links: Links, avoid: Dpid, tree: PortTree, level: Levels, d: Dpid)
    requires tree.Keys == level.Keys && d in tree
  {
    exists next :: IsLinkTo(links, avoid, d, tree[d], next) && next in level && level[d] == level[next] + 1
  }

  ghost predicate Leveled(links: Links, target: Dpid, avoid: Dpid, tree: PortTree, level: Levels) {
    && tree.Keys == level.Keys && target in tree && tree[target] == None && level[target] == 0
    && forall d | d in tree && d != target :: StepsDown(links, avoid, tree, level, d)
  }

  /** A link into `h` makes its switch at most one level higher. */
  ghost predicate ClosedAt(links: Links, avoid: Dpid, level: Levels, h: Dpid)
    requires h in level
  {
    forall d, p | IsLinkTo(links, avoid, d, p, h) :: d in level && level[d] <= level[h] + 1
  }

  /** The queue holds the frontier: levels ascend by at most one and nothing lies beyond. */
  ghost predicate Ordered(level: Levels, queue: seq<Dpid>) {
    && (forall i | 0 <= i < |queue| :: queue[i] in level)
    && (forall i, j | 0 <= i < j < |queue| :: level[queue[i]] <= level[queue[j]])
    && (queue != [] ==> forall d | d in level :: level[d] <= level[queue[0]] + 1)
  }

  /** Every switch that has left the queue is closed. */
  ghost predicate Closed(links: Links, avoid: Dpid, level: Levels, queue: seq<Dpid>) {
    forall d | d in level && d !in queue :: ClosedAt(links, avoid, level, d)
  }

  ghost function LevelUp(level: Levels, keys: set<Dpid>, n: nat): Levels {
    map d | d in level.Keys + keys :: if d in level then level[d] else n
  }

  /** The effect of one round: `found` are the new switches, all of them one link from `here`, and
      no switch of `keys` with a link to `here` is missing. */
  ghost predicate Expanded(links: Links, avoid: Dpid, here: Dpid, keys: seq<Dpid>, tree: PortTree, tree': PortTree,
                           found: seq<Dpid>) {
    && (forall d | d in tree :: d in tree' && tree'[d] == tree[d])
    && (forall d :: d in found <==> d in tree' && d !in tree)
    && (forall d | d in found :: IsLinkTo(links, avoid, d, tree'[d], here))
    && (forall d, p | d in keys && IsLinkTo(links, avoid, d, p, here) :: d in tree')
  }

  /** What one visit to switch `d` means. */
  lemma PortIntoEffect(links: Links, order: Order, avoid: Dpid, here: Dpid, d: Dpid, tree: PortTree)
    requires Lists(order, links) && d in links
    ensures var port := PortInto(links, order, avoid, here, d, tree);
            && (port.Some? ==> d !in tree && IsLinkTo(links, avoid, d, port, here))
            && (port.None? ==> d in tree || forall p :: !IsLinkTo(links, avoid, d, p, here))
  {
  }

  lemma ExpandOneMore(links: Links, avoid: Dpid, here: Dpid, keys: seq<Dpid>, tree: PortTree, tree': PortTree,
                      found: seq<Dpid>, d: Dpid, port: Option<Port>)
    requires Expanded(links, avoid, here, keys, tree, tree', found)
    requires port.Some? ==> d !in tree' && IsLinkTo(links, avoid, d, port, here)
    requires port.None? ==> d in tree' || forall p :: !IsLinkTo(links, avoid, d, p, here)
    ensures port.Some? ==> Expanded(links, avoid, here, keys + [d], tree, tree'[d := port], found + [d])
    ensures port.None? ==> Expanded(links, avoid, here, keys + [d], tree, tree', found)
  {
  }

  lemma {:induction false} ExpandEffect(links: Links, order: Order, avoid: Dpid, here: Dpid, n: nat, tree: PortTree)
    requires Lists(order, links) && n <= |order.switches|
    ensures var r := Expand(links, order, avoid, here, n, tree);
            Expanded(links, avoid, here, order.switches[..n], tree, r.0, r.1)
  {
    if n > 0 {
      ExpandEffect(links, order, avoid, here, n - 1, tree);
      var (tree', found) := Expand(links, order, avoid, here, n - 1, tree);
      var keys, d := order.switches[..n - 1], order.switches[n - 1];
      assert order.switches[..n] == keys + [d] && d in order.switches;
      PortIntoEffect(links, order, avoid, here, d, tree');
      ExpandOneMore(links, avoid, here, keys, tree, tree', found, d, PortInto(links, order, avoid, here, d, tree'));
    }
  }

  lemma RoundKeepsLevels(links: Links, target: Dpid, avoid: Dpid, here: Dpid, keys: seq<Dpid>, tree: PortTree,
                         level: Levels, tree': PortTree, found: seq<Dpid>, level': Levels)
    requires Leveled(links, target, avoid, tree, level) && here in level
    requires Expanded(links, avoid, here, keys, tree, tree', found)
    requires level' == LevelUp(level, tree'.Keys, level[here] + 1)
    ensures Leveled(links, target, avoid, tree', level')
  {
    forall d | d in tree' && d != target ensures StepsDown(links, avoid, tree', level', d) {
      if d in tree {
        assert StepsDown(links, avoid, tree, level, d);
      } else {
        assert IsLinkTo(links, avoid, d, tree'[d], here);
      }
    }
  }

  lemma RoundClosesHead(links: Links, avoid: Dpid, queue: seq<Dpid>, keys: seq<Dpid>, tree: PortTree, level: Levels,
                        tree': PortTree, found: seq<Dpid>, level': Levels)
    requires queue != [] && tree.Keys == level.Keys && Ordered(level, queue) && Closed(links, avoid, level, queue)
    requires Expanded(links, avoid, queue[0], keys, tree, tree', found) && forall d | d in links :: d in keys
    requires level' == LevelUp(level, tree'.Keys, level[queue[0]] + 1)
    ensures Closed(links, avoid, level', queue[1..] + found)
  {
    var here := queue[0];
    forall h | h in level' && h !in queue[1..] + found ensures ClosedAt(links, avoid, level', h) {
      assert h !in found && h in level && h !in queue[1..];
      assert h != here ==> h !in queue && ClosedAt(links, avoid, level, h);
      forall d, p | IsLinkTo(links, avoid, d, p, h) ensures d in level' && level'[d] <= level'[h] + 1 {
      }
    }
  }

  lemma RoundKeepsOrder(level: Levels, queue: seq<Dpid>, level': Levels, found: seq<Dpid>)
    requires queue != [] && Ordered(level, queue)
    requires forall d | d in level :: d in level' && level'[d] == level[d]
    requires forall d | d in found :: d in level' && level'[d] == level[queue[0]] + 1
    requires forall d | d in level' :: d in level || d in found
    ensures Ordered(level', queue[1..] + found)
  {
    var q := queue[1..] + found;
    forall i | 0 <= i < |q|
      ensures q[i] in level' && level[queue[0]] <= level'[q[i]] <= level[queue[0]] + 1
    {
      if i < |queue| - 1 {
        assert q[i] == queue[i + 1];
      } else {
        assert q[i] == found[i - (|queue| - 1)];
      }
    }
    forall i, j | 0 <= i < j < |q| ensures level'[q[i]] <= level'[q[j]] {
      if j < |queue| - 1 {
        assert q[i] == queue[i + 1] && q[j] == queue[j + 1];
      } else {
        assert q[j] == found[j - (|queue| - 1)];
      }
    }
  }

  /** What holds between two rounds of the search. */
  ghost predicate InSearch(links: Links, target: Dpid, avoid: Dpid, tree: PortTree, level: Levels, queue: seq<Dpid>) {
    Leveled(links, target, avoid, tree, level) && Ordered(level, queue) && Closed(links, avoid, level, queue)
  }

  /** One round keeps it, whatever order found the new switches. */
  lemma ExpansionKeepsSearch(links: Links, target: Dpid, avoid: Dpid, keys: seq<Dpid>, tree: PortTree, level: Levels,
                             queue: seq<Dpid>, tree': PortTree, found: seq<Dpid>)
    returns (level': Levels)
    requires InSearch(links, target, avoid, tree, level, queue) && queue != []
    requires Expanded(links, avoid, queue[0], keys, tree, tree', found) && forall d | d in links :: d in keys
    ensures InSearch(links, target, avoid, tree', level', queue[1..] + found)
  {
    level' := LevelUp(level, tree'.Keys, level[queue[0]] + 1);
    RoundKeepsLevels(links, target, avoid, queue[0], keys, tree, level, tree', found, level');
    RoundClosesHead(links, avoid, queue, keys, tree, level, tree', found, level');
    RoundKeepsOrder(level, queue, level', found);
  }

  lemma RoundKeepsSearch(links: Links, order: Order, target: Dpid, avoid: Dpid, tree: PortTree, level: Levels,
                         queue: seq<Dpid>)
    returns (level': Levels)
    requires Lists(order, links) && InSearch(links, target, avoid, tree, level, queue) && queue != []
    ensures var (tree', found) := Expand(links, order, avoid, queue[0], |order.switches|, tree);
            InSearch(links, target, avoid, tree', level', queue[1..] + found)
  {
    var keys := order.switches;
    var (tree', found) := Expand(links, order, avoid, queue[0], |keys|, tree);
    ExpandEffect(links, order, avoid, queue[0], |keys|, tree);
    assert keys[..|keys|] == keys;
    level' := ExpansionKeepsSearch(links, target, avoid, keys, tree, level, queue, tree', found);
  }

  /** The finished tree has levels, and every switch in it is closed. */
  lemma {:induction false} BfsLevels(links: Links, order: Order, target: Dpid, avoid: Dpid, tree: PortTree,
                                     level: Levels, queue: seq<Dpid>)
    returns (final: Levels)
    requires Lists(order, links) && InSearch(links, target, avoid, tree, level, queue)
    ensures InSearch(links, target, avoid, Bfs(links, order, avoid, tree, queue), final, [])
    decreases links.Keys - tree.Keys, |queue|
  {
    if queue == [] {
      final := level;
    } else {
      var (tree', found) := Expand(links, order, avoid, queue[0], |order.switches|, tree);
      var level' := RoundKeepsSearch(links, order, target, avoid, tree, level, queue);
      final := BfsLevels(links, order, target, avoid, tree', level', queue[1..] + found);
    }
  }

  lemma LevelsAreShortest(links: Links, target: Dpid, avoid: Dpid, tree: PortTree, level: Levels)
    requires InSearch(links, target, avoid, tree, level, [])
    ensures forall d :: d in tree <==> Reaches(Around(links, avoid), target, d)
    ensures forall d | d in tree && d != target :: IsShortestStep(links, target, avoid, d, tree[d])
  {
    var adj := Around(links, avoid);
    assert Descend(adj, target, level) by {
      forall d | d in level && d != target ensures HasStepDown(adj, level, d) {
        assert StepsDown(links, avoid, tree, level, d);
      }
    }
    assert AreClosed(adj, level) by {
      forall d, m | m in level && adj(d, m) ensures d in level && level[d] <= level[m] + 1 {
        assert ClosedAt(links, avoid, level, m);
        var p :| p in links[d] && links[d][p] == m;
        assert IsLinkTo(links, avoid, d, Some(p), m);
      }
    }
    LevelsAreDistances(adj, target, level);
    forall d | d in tree && d != target ensures IsShortestStep(links, target, avoid, d, tree[d]) {
      assert StepsDown(links, avoid, tree, level, d);
      var next :| IsLinkTo(links, avoid, d, tree[d], next) && next in level && level[d] == level[next] + 1;
      assert Nearest(adj, target, d, level[next] + 1) && Nearest(adj, target, next, level[next]);
    }
  }

  /** The search finds exactly the switches with a way round `avoid`, and its ports follow shortest
      ways. */
  lemma TowardIsShortest(links: Links, order: Order, target: Dpid, avoid: Dpid)
    requires Lists(order, links)
    ensures var tree := Toward(links, order, target, avoid);
            && target in tree && tree[target] == None
            && (forall d :: d in tree <==> Reaches(Around(links, avoid), target, d))
            && (forall d | d in tree && d != target :: IsShortestStep(links, target, avoid, d, tree[d]))
  {
    var level := BfsLevels(links, order, target, avoid, map[target := None], map[target := 0], [target]);
    LevelsAreShortest(links, target, avoid, Toward(links, order, target, avoid), level);
  }

  // ---------------------------------------------------------------- following the tree

  /** `path` leads from `d` to `target`, port by port of the tree. */
  ghost predicate IsTreePath(links: Links, avoid: Dpid, tree: PortTree, target: Dpid, d: Dpid, path: seq<Dpid>)
    decreases |path|
  {
    && path != [] && path[0] == d && d in tree
    && if d == target then path == [d]
       else && |path| > 1 && IsLinkTo(links, avoid, d, tree[d], path[1])
            && IsTreePath(links, avoid, tree, target, path[1], path[1..])
  }

  /** From every switch in the tree there is exactly one such path, and it has the fewest hops of all ways round
      the avoided switch. */
  lemma TreePathIsShortest(links: Links, order: Order, target: Dpid, avoid: Dpid, d: Dpid) returns (path: seq<Dpid>)
    requires Lists(order, links) && d in Toward(links, order, target, avoid)
    ensures var tree := Toward(links, order, target, avoid);
            && IsTreePath(links, avoid, tree, target, d, path)
            && Nearest(Around(links, avoid), target, d, |path| - 1)
            && forall p | IsTreePath(links, avoid, tree, target, d, p) :: p == path
  {
    var tree, adj := Toward(links, order, target, avoid), Around(links, avoid);
    TowardIsShortest(links, order, target, avoid);
    if d == target {
      assert Hops(adj, target, target, 0);
      path := [d];
    } else {
      assert IsShortestStep(links, target, avoid, d, tree[d]);
      var next, n: nat :| && IsLinkTo(links, avoid, d, tree[d], next)
                          && Nearest(adj, target, d, n + 1) && Nearest(adj, target, next, n);
      path := FollowTree(links, target, avoid, tree, d, n + 1);
    }
    forall p | IsTreePath(links, avoid, tree, target, d, p) ensures p == path {
      TreePathIsUnique(links, avoid, tree, target, d, p, path);
    }
  }

  lemma {:induction false} FollowTree(links: Links, target: Dpid, avoid: Dpid, tree: PortTree, d: Dpid, n: nat)
    returns (path: seq<Dpid>)
    requires d in tree && Nearest(Around(links, avoid), target, d, n)
    requires forall x :: x in tree <==> Reaches(Around(links, avoid), target, x)
    requires forall x | x in tree && x != target :: IsShortestStep(links, target, avoid, x, tree[x])
    ensures IsTreePath(links, avoid, tree, target, d, path) && |path| == n + 1
    decreases n
  {
    var adj := Around(links, avoid);
    assert Hops(adj, target, target, 0);
    if d == target {
      path := [d];
    } else {
      assert IsShortestStep(links, target, avoid, d, tree[d]);
      var next, m: nat :| && IsLinkTo(links, avoid, d, tree[d], next)
                          && Nearest(adj, target, d, m + 1) && Nearest(adj, target, next, m);
      assert n == m + 1 && Reaches(adj, target, next);
      var rest := FollowTree(links, target, avoid, tree, next, m);
      path := [d] + rest;
      assert path[1..] == rest;
    }
  }

  lemma {:induction false} TreePathIsUnique(links: Links, avoid: Dpid, tree: PortTree, target: Dpid, d: Dpid,
                                            p: seq<Dpid>, q: seq<Dpid>)
    requires IsTreePath(links, avoid, tree, target, d, p) && IsTreePath(links, avoid, tree, target, d, q)
    ensures p == q
    decreases |p|
  {
    if d != target {
      TreePathIsUnique(links, avoid, tree, target, p[1], p[1..], q[1..]);
      assert p == [d] + p[1..] && q == [d] + q[1..];
    }
  }
}
