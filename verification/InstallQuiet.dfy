/** The interleaved walk when nothing happens to the graph under it: it then installs what the walk of
    `install_all_pair_paths` (`intelligent_router.py`) installs on a graph that does not change. */
module InstallQuiet {
  import opened Prelude
  import opened ShortestPaths
  import opened InstallStatic
  import I = InstallInterleaved

  /** Turns of the walk only. */
  ghost predicate IsQuietRun(site: I.Site, states: seq<I.State>, actions: seq<I.Action>) {
    && I.IsRun(site, states, actions) && I.Init(site, states[0])
    && forall i | 0 <= i < |actions| :: actions[i].Pop? || actions[i].Enqueue?
  }

  function NetOf(s: I.State): Net {
    Net(s.edges, s.connected)
  }

  /** The rules this walk has written. */
  function Written(s: I.State): Rules {
    map sw | sw in s.installed && sw in s.rules :: s.rules[sw]
  }

  /** At the top of the loop the walk is where the loop on the unchanging graph would be, with the same rules.
      Back from a flow write it is in the middle of the turn that began with the entry `x`. */
  ghost predicate Tracks(site: I.Site, s: I.State, w: Walk, x: Item, seen: set<Dpid>) {
    var net := NetOf(s);
    match s.phase
    case AtTop => AtLoop(net, site.dst, site.hostPort, w, s.queue, s.visited) && w.rules == Written(s)
    case Wrote(sw) =>
      && AtLoop(net, site.dst, site.hostPort, w, [x] + s.queue, seen)
      && x.sw == sw && sw !in seen && sw in s.connected && s.visited == seen + {sw}
      && (x.prev.Some? ==> Arc(sw, x.prev.value) in s.edges && x.prev.value in w.level)
      && Turn(net, site.hostPort, w, x).rules == Written(s)
  }

  lemma {:induction false} WalkableAreNeighbors(s: I.State, sw: Dpid, neighbors: seq<Dpid>)
    requires sw in s.connected && forall n | n in neighbors :: Arc(sw, n) in s.edges
    ensures var added := I.Walkable(s, sw, neighbors);
            && (forall y | y in added :: y.prev == Some(sw) && IsMutual(NetOf(s), y.sw, sw))
            && (forall n | n in neighbors && IsMutual(NetOf(s), n, sw) && n !in s.visited ::
                  I.Item(n, Some(sw)) in added)
  {
    if neighbors != [] {
      var n, rest := neighbors[0], neighbors[1..];
      assert neighbors == [n] + rest && n in neighbors;
      WalkableAreNeighbors(s, sw, rest);
    }
  }

  /** A first entry for a switch that is not connected is the destination's own, and the walk is over. */
  lemma GivingUpTracks(site: I.Site, s: I.State, w: Walk)
    requires s.phase.AtTop? && s.queue != [] && Tracks(site, s, w, s.queue[0], s.visited)
    requires s.queue[0].sw !in s.visited && s.queue[0].sw !in s.connected
    ensures Tracks(site, I.PopStep(site, s), Walk(map[], map[site.dst := None], map[]), s.queue[0], s.visited)
  {
    EntryIsGood(NetOf(s), site.dst, site.hostPort, w, s.queue, s.visited);
    assert s.queue[0].prev.None? && I.PopStep(site, s).queue == [];
  }

  lemma WritingTracks(site: I.Site, s: I.State, w: Walk)
    requires s.phase.AtTop? && s.queue != [] && Tracks(site, s, w, s.queue[0], s.visited)
    requires s.queue[0].sw !in s.visited && s.queue[0].sw in s.connected && s.queue[0].sw !in s.installed
    ensures Tracks(site, I.PopStep(site, s), w, s.queue[0], s.visited)
  {
    var x, s' := s.queue[0], I.PopStep(site, s);
    EntryIsGood(NetOf(s), site.dst, site.hostPort, w, s.queue, s.visited);
    assert s.queue == [x] + s.queue[1..];
    assert Written(s') == Written(s)[x.sw := s'.rules[x.sw]];
  }

  lemma PopTracks(site: I.Site, s: I.State, w: Walk) returns (w': Walk, x: Item)
    requires s.phase.AtTop? && s.queue != [] && Tracks(site, s, w, s.queue[0], s.visited)
    requires forall sw | sw in s.installed :: sw in s.visited
    ensures Tracks(site, I.PopStep(site, s), w', x, s.visited)
  {
    x, w' := s.queue[0], w;
    if x.sw in s.visited {
      EntryIsGood(NetOf(s), site.dst, site.hostPort, w, s.queue, s.visited);
      DroppingKeepsWalk(NetOf(s), site.dst, site.hostPort, w, s.queue);
    } else if x.sw !in s.connected {
      GivingUpTracks(site, s, w);
      w' := Walk(map[], map[site.dst := None], map[]);
    } else {
      WritingTracks(site, s, w);
    }
  }

  lemma EnqueueTracks(site: I.Site, s: I.State, w: Walk, x: Item, seen: set<Dpid>, neighbors: seq<Dpid>)
    returns (w': Walk)
    requires s.phase.Wrote? && Tracks(site, s, w, x, seen)
    requires forall n :: n in neighbors <==> Arc(s.phase.sw, n) in s.edges
    ensures Tracks(site, I.Apply(site, s, I.Enqueue(neighbors)), w', x, seen)
  {
    var net, added := NetOf(s), I.Walkable(s, s.phase.sw, neighbors);
    WalkableAreNeighbors(s, s.phase.sw, neighbors);
    assert forall i | 0 <= i < |added| :: added[i] in added;
    assert AreNeighbors(net, x.sw, seen + {x.sw}, added);
    assert ([x] + s.queue)[1..] == s.queue;
    TurnKeepsLoop(net, site.dst, site.hostPort, w, [x] + s.queue, seen, added);
    w' := Turn(net, site.hostPort, w, x);
  }

  lemma {:induction false} QuietRunTracks(site: I.Site, states: seq<I.State>, actions: seq<I.Action>, k: nat)
    returns (w: Walk, x: Item, seen: set<Dpid>)
    requires IsQuietRun(site, states, actions) && k < |states|
    ensures Tracks(site, states[k], w, x, seen) && NetOf(states[k]) == NetOf(states[0])
  {
    if k == 0 {
      w, x, seen := Walk(map[], map[], map[]), states[0].queue[0], {};
    } else {
      w, x, seen := QuietRunTracks(site, states, actions, k - 1);
      var s, a := states[k - 1], actions[k - 1];
      assert I.Enabled(site, s, a) && states[k] == I.Apply(site, s, a);
      I.RunKeepsInvariant(site, states, actions, k - 1);
      if a.Pop? {
        seen := s.visited;
        w, x := PopTracks(site, s, w);
      } else {
        w := EnqueueTracks(site, s, w, x, seen, a.neighbors);
      }
    }
  }

  /** A walk into which no event falls, once its queue is empty, has written exactly the switches the walk on the
      unchanging graph gives a rule, once each, and with such rules. */
  lemma QuietWalkInstallsAll(site: I.Site, states: seq<I.State>, actions: seq<I.Action>, k: nat)
    returns (parent: Parents)
    requires IsQuietRun(site, states, actions) && k < |states|
    requires states[k].phase.AtTop? && states[k].queue == []
    ensures IsInstalled(NetOf(states[0]), site.dst, site.hostPort, Written(states[k]), parent)
    ensures forall sw :: sw in states[k].installed <==> sw in Written(states[k])
    ensures forall i, j | 0 <= i < j < |states[k].installed| :: states[k].installed[i] != states[k].installed[j]
  {
    var w, x, seen := QuietRunTracks(site, states, actions, k);
    I.RunKeepsInvariant(site, states, actions, k);
    parent := w.parent;
    var s := states[k];
    forall i | 0 <= i < |s.installed| ensures s.installed[i] in s.rules {
      assert I.PointsBack(site, s, i);
    }
    if site.dst in s.connected {
      WalkIsInstalled(NetOf(s), site.dst, site.hostPort, w);
    }
  }
}
