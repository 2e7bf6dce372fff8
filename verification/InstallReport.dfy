/** The paths `install_all_pair_paths` (`intelligent_router.py`) reports for every pair of hosts, and
    whether they are the paths its rules make packets take. */
module InstallReport {
  import opened Prelude
  import opened ShortestPaths
  import opened RouteWalk
  import opened InstallStatic

  /** A host address, and the switch port the host is plugged into. */
  datatype Host = Host(ip: Ip, at: End)

  /** One pair of a reported path: a node and its out port. */
  datatype Hop = AtHost(ip: Ip, port: Port) | AtSwitch(sw: Dpid, port: Port)

  type Path = seq<Hop>

  const NoPort := Port(0)

  // ---------------------------------------------------------------- following the rules

  /** `path` is where a packet for `dst` goes from `sw` when every switch obeys its rule. */
  ghost predicate FollowsRules(net: Net, rules: Rules, dst: Host, sw: Dpid, path: Path)
    decreases |path|
  {
    && sw in rules && |path| >= 2 && path[0] == AtSwitch(sw, rules[sw])
    && if sw == dst.at.sw && rules[sw] == dst.at.port then path[1..] == [AtHost(dst.ip, NoPort)]
       else exists next :: && Lookup(net.edges, Arc(sw, next)) == Some(rules[sw])
                           && FollowsRules(net, rules, dst, next, path[1..])
  }

  /** No port of a switch carries two links. */
  ghost predicate HasOneLinkPerPort(net: Net) {
    forall a, b | a in net.edges && b in net.edges && a.src == b.src && net.edges[a] == net.edges[b] :: a == b
  }

  /** Then the rules determine the path. */
  lemma {:induction false} RulesFixThePath(net: Net, rules: Rules, dst: Host, sw: Dpid, p: Path, q: Path)
    requires HasOneLinkPerPort(net) && FollowsRules(net, rules, dst, sw, p) && FollowsRules(net, rules, dst, sw, q)
    ensures p == q
    decreases |p|
  {
    if !(sw == dst.at.sw && rules[sw] == dst.at.port) {
      var m :| Lookup(net.edges, Arc(sw, m)) == Some(rules[sw]) && FollowsRules(net, rules, dst, m, p[1..]);
      var n :| Lookup(net.edges, Arc(sw, n)) == Some(rules[sw]) && FollowsRules(net, rules, dst, n, q[1..]);
      assert Arc(sw, m) == Arc(sw, n);
      RulesFixThePath(net, rules, dst, m, p[1..], q[1..]);
    }
    assert p == [p[0]] + p[1..] && q == [q[0]] + q[1..];
  }

  /** One hop from `sw` to `next` comes closer to `target`. */
  ghost predicate IsCloser(adj: Adj, target: Dpid, sw: Dpid, next: Dpid) {
    exists n: nat :: Nearest(adj, target, sw, n + 1) && Nearest(adj, target, next, n)
  }

  lemma CloserByOne(adj: Adj, target: Dpid, sw: Dpid, next: Dpid, n: nat)
    requires IsCloser(adj, target, sw, next) && Nearest(adj, target, next, n)
    ensures Nearest(adj, target, sw, n + 1)
  {
    var k: nat :| Nearest(adj, target, sw, k + 1) && Nearest(adj, target, next, k);
    assert k <= n && n <= k;
  }

  ghost predicate RulesLeadCloser(net: Net, rules: Rules, dst: Dpid) {
    forall sw, next | sw in rules && sw != dst && Lookup(net.edges, Arc(sw, next)) == Some(rules[sw]) ::
      IsCloser(Mutual(net), dst, sw, next)
  }

  /** The path the rules make packets take has the fewest hops there are, over links present both ways. */
  lemma RulePathIsShortest(net: Net, rules: Rules, parent: Parents, dst: Host, sw: Dpid, path: Path)
    requires IsInstalled(net, dst.at.sw, dst.at.port, rules, parent) && dst.at.sw in net.connected
    requires HasOneLinkPerPort(net) && FollowsRules(net, rules, dst, sw, path)
    ensures Nearest(Mutual(net), dst.at.sw, sw, |path| - 2)
  {
    forall s, next | s in rules && s != dst.at.sw && Lookup(net.edges, Arc(s, next)) == Some(rules[s])
      ensures IsCloser(Mutual(net), dst.at.sw, s, next)
    {
      assert IsShortestHop(net, dst.at.sw, s, parent[s], rules[s]);
      assert Arc(s, next) == Arc(s, parent[s].value);
    }
    CloserPathIsShortest(net, rules, dst, sw, path);
  }

  lemma {:induction false} CloserPathIsShortest(net: Net, rules: Rules, dst: Host, sw: Dpid, path: Path)
    requires RulesLeadCloser(net, rules, dst.at.sw) && Lookup(rules, dst.at.sw) == Some(dst.at.port)
    requires FollowsRules(net, rules, dst, sw, path)
    ensures Nearest(Mutual(net), dst.at.sw, sw, |path| - 2)
    decreases |path|
  {
    if sw == dst.at.sw {
      assert path[1..] == [AtHost(dst.ip, NoPort)];
      NearestToItself(Mutual(net), sw);
    } else {
      var next :| Lookup(net.edges, Arc(sw, next)) == Some(rules[sw]) && FollowsRules(net, rules, dst, next, path[1..]);
      CloserPathIsShortest(net, rules, dst, next, path[1..]);
      CloserByOne(Mutual(net), dst.at.sw, sw, next, |path| - 3);
    }
  }

  // ---------------------------------------------------------------- following the parents

  /** `path` leads from `sw` to `node`, from parent to parent. */
  ghost predicate IsChain(net: Net, parent: Parents, sw: Dpid, path: Path, node: Dpid)
    decreases |path|
  {
    if path == [] then sw == node
    else
      && sw in parent && parent[sw].Some? && Arc(sw, parent[sw].value) in net.edges
      && path[0] == AtSwitch(sw, net.edges[Arc(sw, parent[sw].value)])
      && IsChain(net, parent, parent[sw].value, path[1..], node)
  }

  lemma {:induction false} ChainGrows(net: Net, parent: Parents, sw: Dpid, path: Path, node: Dpid)
    requires IsChain(net, parent, sw, path, node)
    requires node in parent && parent[node].Some? && Arc(node, parent[node].value) in net.edges
    ensures IsChain(net, parent, sw, path + [AtSwitch(node, net.edges[Arc(node, parent[node].value)])],
                    parent[node].value)
    decreases |path|
  {
    var next := AtSwitch(node, net.edges[Arc(node, parent[node].value)]);
    if path == [] {
      assert (path + [next])[1..] == [];
    } else {
      ChainGrows(net, parent, parent[sw].value, path[1..], node);
      assert (path + [next])[1..] == path[1..] + [next];
    }
  }

  /** What the report says of the route from `sw`. */
  ghost predicate IsReportedRoute(net: Net, parent: Parents, dst: Host, sw: Dpid, path: Path) {
    && |path| >= 2
    && path[|path| - 1] == AtHost(dst.ip, NoPort)
    && path[|path| - 2] == AtSwitch(dst.at.sw, dst.at.port)
    && IsChain(net, parent, sw, path[..|path| - 2], dst.at.sw)
  }

  /** Where the destination's switch is connected, the reported route is the one the rules make. */
  lemma {:induction false} ReportFollowsRules(net: Net, rules: Rules, parent: Parents, dst: Host, sw: Dpid, path: Path)
    requires IsInstalled(net, dst.at.sw, dst.at.port, rules, parent) && dst.at.sw in net.connected
    requires sw in parent && IsReportedRoute(net, parent, dst, sw, path)
    ensures FollowsRules(net, rules, dst, sw, path)
    decreases |path|
  {
    var chain := path[..|path| - 2];
    if chain == [] {
      assert path == [AtSwitch(sw, dst.at.port), AtHost(dst.ip, NoPort)];
      assert path[1..] == [AtHost(dst.ip, NoPort)];
    } else {
      var p := parent[sw].value;
      assert sw != dst.at.sw;
      assert IsShortestHop(net, dst.at.sw, sw, parent[sw], rules[sw]);
      ParentHasRule(net, rules, parent, dst, sw);
      assert path[1..][..|path[1..]| - 2] == chain[1..];
      ReportFollowsRules(net, rules, parent, dst, p, path[1..]);
      assert path[0] == chain[0];
    }
  }

  lemma ParentHasRule(net: Net, rules: Rules, parent: Parents, dst: Host, sw: Dpid)
    requires IsInstalled(net, dst.at.sw, dst.at.port, rules, parent) && dst.at.sw in net.connected
    requires sw in parent && parent[sw].Some?
    ensures parent[sw].value in parent && Arc(sw, parent[sw].value) in net.edges
  {
    assert IsShortestHop(net, dst.at.sw, sw, parent[sw], rules[sw]);
    var adj := Mutual(net);
    var n: nat :| Nearest(adj, dst.at.sw, parent[sw].value, n);
    assert Reaches(adj, dst.at.sw, parent[sw].value);
  }

  lemma DistanceExists(net: Net, rules: Rules, parent: Parents, dst: Host, sw: Dpid) returns (n: nat)
    requires IsInstalled(net, dst.at.sw, dst.at.port, rules, parent) && dst.at.sw in net.connected && sw in parent
    ensures Nearest(Mutual(net), dst.at.sw, sw, n)
  {
    if sw == dst.at.sw {
      n := 0;
    } else {
      assert IsShortestHop(net, dst.at.sw, sw, parent[sw], rules[sw]);
      var m: nat :| Nearest(Mutual(net), dst.at.sw, sw, m + 1);
      n := m + 1;
    }
  }

  lemma CloserParent(net: Net, rules: Rules, parent: Parents, dst: Host, sw: Dpid, n: nat) returns (m: nat)
    requires IsInstalled(net, dst.at.sw, dst.at.port, rules, parent) && dst.at.sw in net.connected
    requires sw in parent && parent[sw].Some? && Nearest(Mutual(net), dst.at.sw, sw, n)
    ensures m < n && Nearest(Mutual(net), dst.at.sw, parent[sw].value, m)
  {
    assert IsShortestHop(net, dst.at.sw, sw, parent[sw], rules[sw]);
    m :| 0 <= m && Nearest(Mutual(net), dst.at.sw, sw, m + 1) && Nearest(Mutual(net), dst.at.sw, parent[sw].value, m);
  }

  // ---------------------------------------------------------------- the loops

  /** The inner loop of the report: from a switch, parent by parent, to the host. */
  method RouteFrom(net: Net, ghost rules: Rules, parent: Parents, dst: Host, sw: Dpid) returns (path: Path)
    requires IsInstalled(net, dst.at.sw, dst.at.port, rules, parent) && sw in parent
    ensures IsReportedRoute(net, parent, dst, sw, path)
  {
    path := [];
    var node := sw;
    ghost var n: nat := 0;
    if dst.at.sw in net.connected {
      n := DistanceExists(net, rules, parent, dst, sw);
    }
    while parent[node].Some?
      invariant node in parent && IsChain(net, parent, sw, path, node)
      invariant dst.at.sw in net.connected ==> Nearest(Mutual(net), dst.at.sw, node, n)
      decreases n
    {
      ParentHasRule(net, rules, parent, dst, node);
      ghost var m := CloserParent(net, rules, parent, dst, node, n);
      ChainGrows(net, parent, sw, path, node);
      path := path + [AtSwitch(node, net.edges[Arc(node, parent[node].value)])];
      node := parent[node].value;
      n := m;
    }
    ghost var chain := path;
    path := path + [AtSwitch(node, dst.at.port), AtHost(dst.ip, NoPort)];
    assert path[..|path| - 2] == chain;
  }

  ghost predicate HaveUniqueIps(hosts: seq<Host>) {
    forall i, j | 0 <= i < j < |hosts| :: hosts[i].ip != hosts[j].ip
  }

  /** `path` is the report's entry for packets from `src` to `dst`. */
  ghost predicate IsEntryFor(net: Net, parent: Parents, src: Host, dst: Host, path: Path) {
    && |path| >= 3 && path[0] == AtHost(src.ip, src.at.port)
    && IsReportedRoute(net, parent, dst, src.at.sw, path[1..])
  }

  /** `src` sends to `dst` from a switch the walk reached. */
  ghost predicate IsSource(hosts: seq<Host>, reached: set<Dpid>, dst: Host, src: Host) {
    src in hosts && src.ip != dst.ip && src.at.sw in reached
  }

  /** The report towards one destination, entry for entry: `sources` says whose each entry is. */
  ghost predicate IsReport(net: Net, parent: Parents, dst: Host, sources: seq<Host>, paths: seq<Path>) {
    && |paths| == |sources| && Distinct(sources)
    && forall k | 0 <= k < |paths| :: IsEntryFor(net, parent, sources[k], dst, paths[k])
  }

  /** The report towards one destination: one entry for each host on each switch the walk reached. */
  method ReportToward(net: Net, hosts: seq<Host>, ghost rules: Rules, parent: Parents, dst: Host)
    returns (paths: seq<Path>, ghost sources: seq<Host>)
    requires HaveUniqueIps(hosts) && IsInstalled(net, dst.at.sw, dst.at.port, rules, parent)
    ensures IsReport(net, parent, dst, sources, paths)
    ensures forall src :: src in sources <==> IsSource(hosts, parent.Keys, dst, src)
  {
    paths, sources := [], [];
    var todo := parent.Keys;
    while todo != {}
      invariant todo <= parent.Keys
      invariant forall src :: src in sources <==> IsSource(hosts, parent.Keys - todo, dst, src)
      invariant IsReport(net, parent, dst, sources, paths)
      decreases todo
    {
      var sw :| sw in todo;
      var path := RouteFrom(net, rules, parent, dst, sw);
      ghost var before := sources;
      for i := 0 to |hosts|
        invariant forall src :: src in sources <==> src in before || IsSource(hosts[..i], {sw}, dst, src)
        invariant IsReport(net, parent, dst, sources, paths)
      {
        var src := hosts[i];
        assert hosts[..i + 1] == hosts[..i] + [src];
        if src.ip == dst.ip || src.at.sw != sw {
          continue;
        }
        var full := [AtHost(src.ip, src.at.port)] + path;
        assert full[1..] == path;
        assert src !in sources;
        sources := sources + [src];
        paths := paths + [full];
      }
      assert hosts[..|hosts|] == hosts;
      todo := todo - {sw};
    }
    assert parent.Keys - {} == parent.Keys;
  }

  // ---------------------------------------------------------------- all pairs

  datatype Pair = Pair(src: Host, dst: Host)

  /** Everything the method leaves behind: the rules and the parents per destination address. */
  datatype Installed = Installed(rules: map<Ip, Rules>, parents: map<Ip, Parents>)

  ghost predicate IsInstalledFor(net: Net, inst: Installed, dst: Host) {
    && dst.ip in inst.rules && dst.ip in inst.parents
    && IsInstalled(net, dst.at.sw, dst.at.port, inst.rules[dst.ip], inst.parents[dst.ip])
  }

  /** `pair` is two different hosts, and the walk towards the second reached the first's switch. */
  ghost predicate IsPair(hosts: seq<Host>, inst: Installed, dsts: seq<Host>, pair: Pair) {
    && pair.dst in dsts && pair.dst.ip in inst.parents
    && IsSource(hosts, inst.parents[pair.dst.ip].Keys, pair.dst, pair.src)
  }

  ghost predicate IsPairEntry(net: Net, inst: Installed, pair: Pair, path: Path) {
    pair.dst.ip in inst.parents && IsEntryFor(net, inst.parents[pair.dst.ip], pair.src, pair.dst, path)
  }

  /** The destinations done so far have their rules. */
  ghost predicate AreInstalled(net: Net, hosts: seq<Host>, n: nat, inst: Installed)
    requires n <= |hosts|
  {
    && (forall k | 0 <= k < n :: IsInstalledFor(net, inst, hosts[k]))
    && (forall ip | ip in inst.parents :: exists k :: 0 <= k < n && hosts[k].ip == ip)
  }

  /** The entries so far: one for each pair, and whose each entry is. */
  ghost predicate AreEntries(net: Net, hosts: seq<Host>, inst: Installed, dsts: seq<Host>, pairs: seq<Pair>,
                             paths: seq<Path>) {
    && |paths| == |pairs| && Distinct(pairs)
    && (forall k | 0 <= k < |paths| :: IsPairEntry(net, inst, pairs[k], paths[k]))
    && (forall pair :: pair in pairs <==> IsPair(hosts, inst, dsts, pair))
  }

  ghost function PairsFor(sources: seq<Host>, dst: Host): (pairs: seq<Pair>)
    ensures |pairs| == |sources| && forall k | 0 <= k < |pairs| :: pairs[k] == Pair(sources[k], dst)
  {
    seq(|sources|, k requires 0 <= k < |sources| => Pair(sources[k], dst))
  }

  function AddDestination(inst: Installed, ip: Ip, rules: Rules, parent: Parents): Installed {
    Installed(inst.rules[ip := rules], inst.parents[ip := parent])
  }

  lemma InstalledGrows(net: Net, hosts: seq<Host>, n: nat, inst: Installed, rules: Rules, parent: Parents)
    requires HaveUniqueIps(hosts) && n < |hosts| && AreInstalled(net, hosts, n, inst)
    requires IsInstalled(net, hosts[n].at.sw, hosts[n].at.port, rules, parent)
    ensures AreInstalled(net, hosts, n + 1, AddDestination(inst, hosts[n].ip, rules, parent))
    ensures hosts[n].ip !in inst.parents
  {
    var inst' := AddDestination(inst, hosts[n].ip, rules, parent);
    forall k | 0 <= k < n + 1 ensures IsInstalledFor(net, inst', hosts[k]) {
      assert k < n ==> IsInstalledFor(net, inst, hosts[k]);
    }
  }

  lemma EntriesGrow(net: Net, hosts: seq<Host>, inst: Installed, dsts: seq<Host>, pairs: seq<Pair>, paths: seq<Path>,
                    dst: Host, rules: Rules, parent: Parents, sources: seq<Host>, some: seq<Path>)
    requires AreEntries(net, hosts, inst, dsts, pairs, paths) && dst.ip !in inst.parents
    requires forall d | d in dsts :: d.ip in inst.parents
    requires IsReport(net, parent, dst, sources, some)
    requires forall src :: src in sources <==> IsSource(hosts, parent.Keys, dst, src)
    ensures AreEntries(net, hosts, AddDestination(inst, dst.ip, rules, parent), dsts + [dst],
                       pairs + PairsFor(sources, dst), paths + some)
  {
    var inst' := AddDestination(inst, dst.ip, rules, parent);
    var more := PairsFor(sources, dst);
    forall k | 0 <= k < |paths + some| ensures IsPairEntry(net, inst', (pairs + more)[k], (paths + some)[k]) {
      if k < |paths| {
        assert IsPairEntry(net, inst, pairs[k], paths[k]);
      } else {
        assert IsEntryFor(net, parent, sources[k - |paths|], dst, some[k - |paths|]);
      }
    }
    forall pair ensures pair in pairs + more <==> IsPair(hosts, inst', dsts + [dst], pair) {
      NewPairs(hosts, inst, dsts, pairs, dst, rules, parent, sources, pair);
    }
    assert forall k | 0 <= k < |pairs| :: pairs[k] in pairs && pairs[k].dst != dst;
  }

  lemma NewPairs(hosts: seq<Host>, inst: Installed, dsts: seq<Host>, pairs: seq<Pair>, dst: Host, rules: Rules,
                 parent: Parents, sources: seq<Host>, pair: Pair)
    requires forall p :: p in pairs <==> IsPair(hosts, inst, dsts, p)
    requires dst.ip !in inst.parents && forall d | d in dsts :: d.ip in inst.parents
    requires forall src :: src in sources <==> IsSource(hosts, parent.Keys, dst, src)
    ensures pair in pairs + PairsFor(sources, dst) <==>
              IsPair(hosts, AddDestination(inst, dst.ip, rules, parent), dsts + [dst], pair)
  {
    var more := PairsFor(sources, dst);
    if pair.dst == dst {
      assert pair in more <==> pair.src in sources by {
        if pair.src in sources {
          var k :| 0 <= k < |sources| && sources[k] == pair.src;
          assert more[k] == pair;
        }
      }
    }
  }

  lemma OneMoreDestination(net: Net, hosts: seq<Host>, n: nat, inst: Installed, pairs: seq<Pair>, paths: seq<Path>,
                           rules: Rules, parent: Parents, sources: seq<Host>, some: seq<Path>)
    requires HaveUniqueIps(hosts) && n < |hosts| && AreInstalled(net, hosts, n, inst)
    requires AreEntries(net, hosts, inst, hosts[..n], pairs, paths)
    requires IsInstalled(net, hosts[n].at.sw, hosts[n].at.port, rules, parent)
    requires IsReport(net, parent, hosts[n], sources, some)
    requires forall src :: src in sources <==> IsSource(hosts, parent.Keys, hosts[n], src)
    ensures var inst' := AddDestination(inst, hosts[n].ip, rules, parent);
            && AreInstalled(net, hosts, n + 1, inst')
            && AreEntries(net, hosts, inst', hosts[..n + 1], pairs + PairsFor(sources, hosts[n]), paths + some)
  {
    assert hosts[..n + 1] == hosts[..n] + [hosts[n]];
    assert forall k | 0 <= k < n :: IsInstalledFor(net, inst, hosts[k]);
    InstalledGrows(net, hosts, n, inst, rules, parent);
    EntriesGrow(net, hosts, inst, hosts[..n], pairs, paths, hosts[n], rules, parent, sources, some);
  }

  /** `install_all_pair_paths`: `paths` holds exactly one path for each ordered pair of different hosts
      whose source switch the walk towards the destination reached. */
  method InstallAllPairs(net: Net, hosts: seq<Host>, orders: map<Ip, HashOrder>)
    returns (inst: Installed, paths: seq<Path>, ghost pairs: seq<Pair>)
    requires HaveUniqueIps(hosts)
    requires forall h | h in hosts :: h.ip in orders && ListsNeighbors(orders[h.ip], net)
    ensures forall k | 0 <= k < |hosts| :: IsInstalledFor(net, inst, hosts[k])
    ensures AreEntries(net, hosts, inst, hosts, pairs, paths)
  {
    inst, paths, pairs := Installed(map[], map[]), [], [];
    for i := 0 to |hosts|
      invariant AreInstalled(net, hosts, i, inst)
      invariant AreEntries(net, hosts, inst, hosts[..i], pairs, paths)
    {
      var dst := hosts[i];
      assert dst in hosts;
      var rules, parent, written := InstallToward(net, orders[dst.ip], dst.at.sw, dst.at.port);
      var some, sources := ReportToward(net, hosts, rules, parent, dst);
      OneMoreDestination(net, hosts, i, inst, pairs, paths, rules, parent, sources, some);
      inst := AddDestination(inst, dst.ip, rules, parent);
      paths := paths + some;
      pairs := pairs + PairsFor(sources, dst);
    }
    assert hosts[..|hosts|] == hosts;
  }

  /** With the destination's switch connected, a pair is reported exactly when the source's switch has a
      rule for the destination, and the reported path is the one the rules make packets take. */
  lemma ReportIsTrue(net: Net, hosts: seq<Host>, inst: Installed, pairs: seq<Pair>, paths: seq<Path>, src: Host,
                     dst: Host)
    requires dst in hosts && src in hosts && src.ip != dst.ip && dst.at.sw in net.connected
    requires IsInstalledFor(net, inst, dst) && AreEntries(net, hosts, inst, hosts, pairs, paths)
    ensures Pair(src, dst) in pairs <==> src.at.sw in inst.rules[dst.ip]
    ensures forall k | 0 <= k < |pairs| && pairs[k] == Pair(src, dst) ::
              && |paths[k]| > 0 && paths[k][0] == AtHost(src.ip, src.at.port)
              && FollowsRules(net, inst.rules[dst.ip], dst, src.at.sw, paths[k][1..])
  {
    forall k | 0 <= k < |pairs| && pairs[k] == Pair(src, dst)
      ensures |paths[k]| > 0 && paths[k][0] == AtHost(src.ip, src.at.port)
      ensures FollowsRules(net, inst.rules[dst.ip], dst, src.at.sw, paths[k][1..])
    {
      assert IsPairEntry(net, inst, pairs[k], paths[k]) && pairs[k] in pairs;
      ReportFollowsRules(net, inst.rules[dst.ip], inst.parents[dst.ip], dst, src.at.sw, paths[k][1..]);
    }
  }

  /** With it unconnected, no switch has a rule for the destination, and yet a path is reported for every
      other host on that switch. */
  lemma ReportWithoutRules(net: Net, hosts: seq<Host>, inst: Installed, pairs: seq<Pair>, paths: seq<Path>, src: Host,
                           dst: Host)
    requires dst in hosts && src in hosts && src.ip != dst.ip && dst.at.sw !in net.connected
    requires IsInstalledFor(net, inst, dst) && AreEntries(net, hosts, inst, hosts, pairs, paths)
    ensures inst.rules[dst.ip] == map[]
    ensures Pair(src, dst) in pairs <==> src.at.sw == dst.at.sw
  {
  }
}
