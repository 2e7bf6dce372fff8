/** The network while planned rewrites are being written: any of them may be in effect, the switch to
    be turned off is still on (`apply_and_verify` and the claim made where it fails, in
    `examples/p4_energy_saving/energy_saving.py`). */
module ConsistentUpdate {
  import opened Prelude
  import opened RouteWalk
  import opened EnergyPlan
  import PT = PortsToward
  import opened ShortestPaths

  // ---------------------------------------------------------------- plans and the states between

  /** Entry by entry, `now` differs from `was` only where the egress port led to the victim, and no
      longer leads there. */
  ghost predicate IsDetour(links: Links, victim: Dpid, d: Dpid, was: seq<Entry>, now: seq<Entry>) {
    && |now| == |was|
    && forall i | 0 <= i < |was| ::
         if LeadsTo(links, d, was[i].port, victim)
         then SameKey(now[i], was[i]) && !LeadsTo(links, d, now[i].port, victim)
         else now[i] == was[i]
  }

  ghost predicate IsDetourPlan(links: Links, victim: Dpid, was: Tables, now: Tables) {
    && victim !in now
    && forall d | d in now :: d in was && IsDetour(links, victim, d, was[d], now[d])
  }

  /** Each entry is the old one or the planned one; switches outside the plan are untouched. */
  ghost predicate IsMixture(was: Tables, now: Tables, mix: Tables) {
    && mix.Keys == was.Keys
    && (forall d | d in was && d !in now :: mix[d] == was[d])
    && (forall d | d in was && d in now :: IsMixedTable(was[d], now[d], mix[d]))
  }

  ghost predicate IsMixedTable(was: seq<Entry>, now: seq<Entry>, mix: seq<Entry>) {
    |mix| == |was| == |now| && forall i | 0 <= i < |was| :: mix[i] == was[i] || mix[i] == now[i]
  }

  /** Two entries that a write addresses alike: same match, same priority. */
  predicate SameKey(a: Entry, b: Entry) {
    a.dst == b.dst && a.priority == b.priority
  }

  /** An accepted plan is a detour plan. */
  lemma PlanIsDetour(s: Scene, tables: map<Dpid, Table>, was: Tables, now: Tables)
    requires PT.Lists(s.order, s.links) && forall ip | ip in s.hosts :: s.hosts[ip].sw != s.victim
    requires s.victim !in now
    requires forall d | d in now :: d in tables && d in was && was[d] == tables[d].entries
    requires forall d | d in now :: IsRewrittenTable(s, d, tables[d].entries, now[d])
    ensures IsDetourPlan(s.links, s.victim, was, now)
  {
    forall d | d in now ensures IsDetour(s.links, s.victim, d, was[d], now[d]) {
      assert IsRewrittenTable(s, d, was[d], now[d]);
      forall i | 0 <= i < |was[d]|
        ensures if LeadsTo(s.links, d, was[d][i].port, s.victim)
                then SameKey(now[d][i], was[d][i]) && !LeadsTo(s.links, d, now[d][i].port, s.victim)
                else now[d][i] == was[d][i]
      {
        PlanMovesOffVictim(s, d, was[d], now[d], i);
        assert IsRewriteOf(s, d, was[d][i], now[d][i]);
      }
    }
  }

  // ---------------------------------------------------------------- writing

  /** One write: the entry with the same match and priority is modified. */
  function Write(t: Tables, r: Rewrite): (t': Tables)
    ensures t'.Keys == t.Keys
  {
    if r.dpid !in t then t
    else t[r.dpid := seq(|t[r.dpid]|, i requires 0 <= i < |t[r.dpid]| =>
                           if SameKey(t[r.dpid][i], r.now) then r.now else t[r.dpid][i])]
  }

  function WriteAll(t: Tables, rs: seq<Rewrite>): (t': Tables)
    ensures t'.Keys == t.Keys
  {
    if rs == [] then t else Write(WriteAll(t, rs[..|rs| - 1]), rs[|rs| - 1])
  }

  /** No two entries of a table have the same match and priority. */
  ghost predicate HasUniqueKeys(t: Tables) {
    forall d, i, j | d in t && 0 <= i < j < |t[d]| ::
      t[d][i].dst != t[d][j].dst || t[d][i].priority != t[d][j].priority
  }

  ghost predicate IsPlanned(was: Tables, now: Tables, r: Rewrite) {
    && r.dpid in now && r.dpid in was && |now[r.dpid]| == |was[r.dpid]|
    && exists i | 0 <= i < |was[r.dpid]| :: r.was == was[r.dpid][i] && r.now == now[r.dpid][i]
  }

  /** Whatever planned rewrites have landed, in whatever order and however often, every entry is the
      old one or, where its rewrite landed, the planned one. */
  lemma {:induction false} WritesMix(links: Links, victim: Dpid, was: Tables, now: Tables, rs: seq<Rewrite>)
    requires IsDetourPlan(links, victim, was, now) && HasUniqueKeys(was)
    requires forall r | r in rs :: IsPlanned(was, now, r)
    ensures IsMixture(was, now, WriteAll(was, rs))
    ensures forall d, i | d in now && 0 <= i < |was[d]| ::
              Rewrite(d, was[d][i], now[d][i]) in rs ==> WriteAll(was, rs)[d][i] == now[d][i]
  {
    if rs != [] {
      var r := rs[|rs| - 1];
      var rest := rs[..|rs| - 1];
      assert rs == rest + [r];
      WritesMix(links, victim, was, now, rest);
      assert IsPlanned(was, now, r);
      OneWriteMixes(links, victim, was, now, WriteAll(was, rest), r);
    }
  }

  lemma EntriesDiffer(t: Tables, d: Dpid, i: nat, j: nat)
    requires HasUniqueKeys(t) && d in t && i < |t[d]| && j < |t[d]|
    ensures SameKey(t[d][i], t[d][j]) <==> i == j
  {
  }

  lemma OneWriteMixes(links: Links, victim: Dpid, was: Tables, now: Tables, mix: Tables, r: Rewrite)
    requires IsDetourPlan(links, victim, was, now) && HasUniqueKeys(was)
    requires IsMixture(was, now, mix) && IsPlanned(was, now, r)
    ensures var mix' := Write(mix, r);
            && IsMixture(was, now, mix')
            && (forall d, i | d in now && 0 <= i < |was[d]| ::
                  mix[d][i] == now[d][i] || (r.dpid == d && r.was == was[d][i]) ==> mix'[d][i] == now[d][i])
  {
    var d := r.dpid;
    var k :| 0 <= k < |was[d]| && r.was == was[d][k] && r.now == now[d][k];
    var mix' := Write(mix, r);
    assert IsDetour(links, victim, d, was[d], now[d]) && IsMixedTable(was[d], now[d], mix[d]);
    forall i | 0 <= i < |was[d]| ensures mix'[d][i] == if i == k then now[d][k] else mix[d][i] {
      assert SameKey(mix[d][i], was[d][i]) && SameKey(r.now, was[d][k]);
      EntriesDiffer(was, d, i, k);
    }
    forall i | 0 <= i < |was[d]| && r.was == was[d][i] ensures i == k {
      EntriesDiffer(was, d, i, k);
    }
  }

  // ---------------------------------------------------------------- forwarding in between

  /** On a switch whose selected entry does not lead to the victim, every mixture forwards alike. */
  lemma UntouchedHop(links: Links, hosts: Hosts, victim: Dpid, was: Tables, now: Tables, mix: Tables, d: Dpid, dst: Ip)
    requires IsDetourPlan(links, victim, was, now) && IsMixture(was, now, mix) && d in now
    requires !LeadsTo(links, d, PortFor(was[d], dst), victim)
    ensures PortFor(mix[d], dst) == PortFor(was[d], dst) == PortFor(now[d], dst)
    ensures NextHop(Fabric(mix, links, hosts), d, dst) == NextHop(Fabric(was, links, hosts), d, dst)
            == NextHop(Fabric(now, links, hosts), d, dst)
  {
    MixedSelection(links, victim, was[d], now[d], mix[d], d, dst);
  }

  lemma MixedSelection(links: Links, victim: Dpid, was: seq<Entry>, now: seq<Entry>, mix: seq<Entry>, d: Dpid, dst: Ip)
    requires IsDetour(links, victim, d, was, now) && IsMixedTable(was, now, mix)
    ensures Best(was, dst) == Best(now, dst) == Best(mix, dst)
    ensures PortFor(mix, dst) == PortFor(was, dst) || PortFor(mix, dst) == PortFor(now, dst)
    ensures LeadsTo(links, d, PortFor(was, dst), victim) ==> !LeadsTo(links, d, PortFor(now, dst), victim)
    ensures !LeadsTo(links, d, PortFor(was, dst), victim) ==>
              PortFor(mix, dst) == PortFor(was, dst) && PortFor(now, dst) == PortFor(was, dst)
  {
    SelectionIgnoresPorts(was, now, dst);
    SelectionIgnoresPorts(was, mix, dst);
  }

  /** Where the planned tables deliver, the port they deliver on does not lead to the victim, so the
      old entry there is no detour. */
  lemma {:induction false} DeliveryPortIsOld(links: Links, hosts: Hosts, victim: Dpid, was: Tables, now: Tables,
                                             s: Dpid, dst: Ip, n: nat, d: Dpid)
    requires IsDetourPlan(links, victim, was, now)
    requires DeliversIn(Fabric(now, links, hosts), s, dst, n)
    requires d in now && NextHop(Fabric(was, links, hosts), d, dst).Deliver?
    ensures !LeadsTo(links, d, PortFor(was[d], dst), victim)
    decreases n
  {
    if n == 0 {
      assert IsDetour(links, victim, d, was[d], now[d]);
      MixedSelection(links, victim, was[d], now[d], was[d], d, dst);
    } else {
      DeliveryPortIsOld(links, hosts, victim, was, now, NextHop(Fabric(now, links, hosts), s, dst).next, dst, n - 1, d);
    }
  }

  /** From the victim, every mixture follows the old route. */
  lemma {:induction false} VictimStillDelivers(links: Links, hosts: Hosts, victim: Dpid, was: Tables, now: Tables,
                                               mix: Tables, dst: Ip, s: Dpid, n: nat, here: Dpid, m: nat, total: nat)
    requires IsDetourPlan(links, victim, was, now) && IsMixture(was, now, mix)
    requires DeliversIn(Fabric(now, links, hosts), s, dst, n)
    requires DeliversIn(Fabric(was, links, hosts), here, dst, m)
    requires DeliversIn(Fabric(was, links, hosts), victim, dst, total)
    requires m <= total && (here == victim || m < total)
    ensures DeliversIn(Fabric(mix, links, hosts), here, dst, m)
    decreases m
  {
    var f, g := Fabric(was, links, hosts), Fabric(mix, links, hosts);
    var hop := NextHop(f, here, dst);
    if here in now {
      if hop.Deliver? {
        DeliveryPortIsOld(links, hosts, victim, was, now, s, dst, n, here);
      } else if LeadsTo(links, here, PortFor(was[here], dst), victim) {
        HopCountUnique(f, victim, dst, m - 1, total);
        assert false;
      }
      UntouchedHop(links, hosts, victim, was, now, mix, here, dst);
    }
    assert NextHop(g, here, dst) == hop;
    if m > 0 {
      VictimStillDelivers(links, hosts, victim, was, now, mix, dst, s, n, hop.next, m - 1, total);
    }
  }

  /** If the planned tables deliver from `src` and the old tables deliver from the victim, every
      mixture delivers from `src`. */
  lemma {:induction false} MixtureDelivers(links: Links, hosts: Hosts, victim: Dpid, was: Tables, now: Tables,
                                           mix: Tables, src: Dpid, dst: Ip, n: nat, total: nat)
    requires IsDetourPlan(links, victim, was, now) && IsMixture(was, now, mix)
    requires DeliversIn(Fabric(now, links, hosts), src, dst, n)
    requires DeliversIn(Fabric(was, links, hosts), victim, dst, total)
    ensures Delivers(Fabric(mix, links, hosts), src, dst)
    decreases n
  {
    var f, g := Fabric(now, links, hosts), Fabric(mix, links, hosts);
    var hop := NextHop(f, src, dst);
    MixedSelection(links, victim, was[src], now[src], mix[src], src, dst);
    if PortFor(mix[src], dst) == PortFor(now[src], dst) {
      assert NextHop(g, src, dst) == hop;
      if n > 0 {
        MixtureDelivers(links, hosts, victim, was, now, mix, hop.next, dst, n - 1, total);
        var k: nat :| DeliversIn(g, hop.next, dst, k);
        assert DeliversIn(g, src, dst, k + 1);
      } else {
        assert DeliversIn(g, src, dst, 0);
      }
    } else {
      VictimStillDelivers(links, hosts, victim, was, now, mix, dst, src, n, victim, total, total);
      assert NextHop(g, src, dst).Deliver? || NextHop(g, src, dst) == Forward(victim);
      assert DeliversIn(g, src, dst, 0) || DeliversIn(g, src, dst, total + 1);
    }
  }

  /** If both the planned and the old tables deliver from `src`, so does every mixture. */
  lemma {:induction false} MixtureDeliversPair(links: Links, hosts: Hosts, victim: Dpid, was: Tables, now: Tables,
                                               mix: Tables, src: Dpid, dst: Ip, n: nat, m: nat)
    requires IsDetourPlan(links, victim, was, now) && IsMixture(was, now, mix)
    requires DeliversIn(Fabric(now, links, hosts), src, dst, n)
    requires DeliversIn(Fabric(was, links, hosts), src, dst, m)
    ensures Delivers(Fabric(mix, links, hosts), src, dst)
    decreases n
  {
    var f, g := Fabric(now, links, hosts), Fabric(mix, links, hosts);
    var old_ := Fabric(was, links, hosts);
    if LeadsTo(links, src, PortFor(was[src], dst), victim) {
      if NextHop(old_, src, dst).Deliver? {
        DeliveryPortIsOld(links, hosts, victim, was, now, src, dst, n, src);
        assert false;
      }
      MixtureDelivers(links, hosts, victim, was, now, mix, src, dst, n, m - 1);
    } else {
      UntouchedHop(links, hosts, victim, was, now, mix, src, dst);
      if n == 0 {
        assert DeliversIn(g, src, dst, 0);
      } else {
        var next := NextHop(f, src, dst).next;
        MixtureDeliversPair(links, hosts, victim, was, now, mix, next, dst, n - 1, m - 1);
        var k: nat :| DeliversIn(g, next, dst, k);
        assert DeliversIn(g, src, dst, k + 1);
      }
    }
  }

  /** Every state the writes can leave behind delivers from `src` to `dst`. */
  ghost predicate AlwaysDelivers(links: Links, hosts: Hosts, was: Tables, now: Tables, src: Dpid, dst: Ip) {
    forall mix | IsMixture(was, now, mix) :: Delivers(Fabric(mix, links, hosts), src, dst)
  }

  /** A route "still works while the switch stays on, rewritten or not" exactly when it worked before:
      the check of the planned tables alone does not give it. */
  lemma WorksThroughoutIffItWorked(links: Links, hosts: Hosts, victim: Dpid, was: Tables, now: Tables, src: Dpid,
                                   dst: Ip)
    requires IsDetourPlan(links, victim, was, now)
    requires RouteAvoids(Fabric(now, links, hosts), src, dst, victim)
    ensures AlwaysDelivers(links, hosts, was, now, src, dst) <==> Delivers(Fabric(was, links, hosts), src, dst)
  {
    var path :| IsDeliveryPath(Fabric(now, links, hosts), src, dst, path);
    PathDelivers(Fabric(now, links, hosts), dst, path);
    if m: nat :| DeliversIn(Fabric(was, links, hosts), src, dst, m) {
      forall mix | IsMixture(was, now, mix) ensures Delivers(Fabric(mix, links, hosts), src, dst) {
        MixtureDeliversPair(links, hosts, victim, was, now, mix, src, dst, |path| - 1, m);
      }
    }
    assert forall d | d in was && d in now :: IsDetour(links, victim, d, was[d], now[d]);
    assert IsMixture(was, now, was);
  }

  /** The same for all pairs at once, over every sequence of planned writes that may have landed. */
  lemma EveryWritePrefixDelivers(links: Links, hosts: Hosts, victim: Dpid, was: Tables, now: Tables, rs: seq<Rewrite>)
    requires IsDetourPlan(links, victim, was, now) && HasUniqueKeys(was)
    requires forall r | r in rs :: IsPlanned(was, now, r)
    requires AllRoutesAvoid(Fabric(now, links, hosts), victim)
    ensures forall s, d | s in hosts && d in hosts && s != d && Delivers(Fabric(was, links, hosts), hosts[s].sw, d) ::
              Delivers(Fabric(WriteAll(was, rs), links, hosts), hosts[s].sw, d)
  {
    WritesMix(links, victim, was, now, rs);
    forall s, d | s in hosts && d in hosts && s != d && Delivers(Fabric(was, links, hosts), hosts[s].sw, d)
      ensures Delivers(Fabric(WriteAll(was, rs), links, hosts), hosts[s].sw, d)
    {
      assert RouteAvoids(Fabric(now, links, hosts), hosts[s].sw, d, victim);
      WorksThroughoutIffItWorked(links, hosts, victim, was, now, hosts[s].sw, d);
    }
  }

  // ---------------------------------------------------------------- the whole plan, then the power-off

  /** Once every planned rewrite has landed, the planned switches hold the planned tables. */
  lemma AllWritten(links: Links, victim: Dpid, was: Tables, now: Tables, rs: seq<Rewrite>, d: Dpid)
    requires IsDetourPlan(links, victim, was, now) && HasUniqueKeys(was) && d in now
    requires forall r | r in rs :: IsPlanned(was, now, r)
    requires forall i | 0 <= i < |was[d]| && LeadsTo(links, d, was[d][i].port, victim) ::
               Rewrite(d, was[d][i], now[d][i]) in rs
    ensures WriteAll(was, rs)[d] == now[d]
  {
    WritesMix(links, victim, was, now, rs);
    assert IsDetour(links, victim, d, was[d], now[d]) && IsMixedTable(was[d], now[d], WriteAll(was, rs)[d]);
  }

  /** The delivery paths of the planned tables are paths of any tables that agree with them. */
  lemma {:induction false} AgreeingTablesKeepPath(links: Links, hosts: Hosts, now: Tables, t: Tables, src: Dpid,
                                                  dst: Ip, path: seq<Dpid>)
    requires forall d | d in now :: d in t && t[d] == now[d]
    requires IsDeliveryPath(Fabric(now, links, hosts), src, dst, path)
    ensures IsDeliveryPath(Fabric(t, links, hosts), src, dst, path)
  {
    var f, g := Fabric(now, links, hosts), Fabric(t, links, hosts);
    forall i | 0 <= i < |path| - 1 ensures NextHop(g, path[i], dst) == Forward(path[i + 1]) {
      assert NextHop(f, path[i], dst) == Forward(path[i + 1]);
      assert path[i] in now;
    }
    assert path[|path| - 1] in now;
  }

  /** The pass from end to end: a plan whose tables pass the route check, all of it written, and the
      switch turned off leave every host reaching every other, over the very paths the check walked. */
  lemma PassEndsWithEveryRoute(links: Links, hosts: Hosts, victim: Dpid, was: Tables, now: Tables, rs: seq<Rewrite>)
    requires IsDetourPlan(links, victim, was, now) && HasUniqueKeys(was)
    requires forall r | r in rs :: IsPlanned(was, now, r)
    requires forall d, i | d in now && 0 <= i < |was[d]| && LeadsTo(links, d, was[d][i].port, victim) ::
               Rewrite(d, was[d][i], now[d][i]) in rs
    requires AllRoutesAvoid(Fabric(now, links, hosts), victim)
    ensures AllRoutesAvoid(PoweredOff(Fabric(WriteAll(was, rs), links, hosts), victim), victim)
  {
    var t := WriteAll(was, rs);
    WritesMix(links, victim, was, now, rs);
    forall d | d in now ensures d in t && t[d] == now[d] {
      AllWritten(links, victim, was, now, rs, d);
    }
    forall s, d | s in hosts && d in hosts && s != d
      ensures RouteAvoids(Fabric(t, links, hosts), hosts[s].sw, d, victim)
    {
      assert RouteAvoids(Fabric(now, links, hosts), hosts[s].sw, d, victim);
      var path :| IsDeliveryPath(Fabric(now, links, hosts), hosts[s].sw, d, path) && victim !in path;
      AgreeingTablesKeepPath(links, hosts, now, t, hosts[s].sw, d, path);
    }
    PowerOffKeepsAllRoutes(Fabric(t, links, hosts), victim);
  }

  // ---------------------------------------------------------------- a plan that passes over a broken network

  const S1 := Dpid(1)
  const S2 := Dpid(2)
  const V := Dpid(3)
  const A := Ip(1)
  const B := Ip(2)

  function To(ip: Ip, port: int): Entry {
    Entry(Some(Exact(ip)), None, Some(Port(port)))
  }

  const TriangleLinks: Links :=
    map[S1 := map[Port(1) := S2, Port(2) := V], S2 := map[Port(1) := S1], V := map[Port(1) := S1]]
  const TriangleHosts: Hosts := map[A := End(S1, Port(9)), B := End(S2, Port(9))]
  const TriangleWas: Tables := map[S1 := [To(A, 9), To(B, 2)], S2 := [To(A, 1), To(B, 9)], V := []]
  const TriangleNow: Tables := map[S1 := [To(A, 9), To(B, 1)], S2 := [To(A, 1), To(B, 9)]]

  lemma TwoEntries(a: int, b: int)
    ensures PortFor([To(A, a), To(B, b)], A) == Some(Port(a))
    ensures PortFor([To(A, a), To(B, b)], B) == Some(Port(b))
  {
    var t := [To(A, a), To(B, b)];
    assert t[..1] == [To(A, a)] && t[..1][..0] == [];
    assert Best(t[..1], A) == Some(0) && Best(t[..1], B) == None;
    assert Best(t, A) == Some(0) && Best(t, B) == Some(1);
  }

  lemma TriangleHops()
    ensures var f := Fabric(TriangleNow, TriangleLinks, TriangleHosts);
            && NextHop(f, S1, B) == Forward(S2) && NextHop(f, S2, B).Deliver?
            && NextHop(f, S2, A) == Forward(S1) && NextHop(f, S1, A).Deliver?
    ensures var g := Fabric(TriangleWas, TriangleLinks, TriangleHosts);
            NextHop(g, S1, B) == Forward(V) && NextHop(g, V, B).Drop?
  {
    TwoEntries(9, 2);
    TwoEntries(9, 1);
    TwoEntries(1, 9);
  }

  lemma TrianglePasses()
    ensures AllRoutesAvoid(Fabric(TriangleNow, TriangleLinks, TriangleHosts), V)
  {
    TriangleHops();
    var f := Fabric(TriangleNow, TriangleLinks, TriangleHosts);
    assert IsDeliveryPath(f, S1, B, [S1, S2]) && V !in [S1, S2];
    assert IsDeliveryPath(f, S2, A, [S2, S1]) && V !in [S2, S1];
  }

  lemma TriangleIsDetour()
    ensures IsDetourPlan(TriangleLinks, V, TriangleWas, TriangleNow)
  {
    assert IsDetour(TriangleLinks, V, S1, TriangleWas[S1], TriangleNow[S1]);
    assert IsDetour(TriangleLinks, V, S2, TriangleWas[S2], TriangleNow[S2]);
  }

  /** Round the victim there is one way from the first switch to the second, whatever the search order. */
  lemma TriangleWay(order: PT.Order)
    requires PT.Lists(order, TriangleLinks)
    ensures var tree := PT.Toward(TriangleLinks, order, S2, V); S1 in tree && tree[S1] == Some(Port(1))
  {
    var adj, tree := PT.Around(TriangleLinks, V), PT.Toward(TriangleLinks, order, S2, V);
    PT.TowardIsShortest(TriangleLinks, order, S2, V);
    assert TriangleLinks[S1][Port(1)] == S2;
    assert adj(S1, S2) && Hops(adj, S2, S2, 0) && Hops(adj, S2, S1, 1);
    assert Reaches(adj, S2, S1);
    assert PT.IsShortestStep(TriangleLinks, S2, V, S1, tree[S1]);
    var next, n: nat :| PT.IsLinkTo(TriangleLinks, V, S1, tree[S1], next) && Nearest(adj, S2, next, n);
    if next == V {
      NoWayFromAvoided(TriangleLinks, V, S2, n);
    }
  }

  /** Planning makes this plan, whatever the search order. */
  lemma TriangleIsPlanned(order: PT.Order)
    requires PT.Lists(order, TriangleLinks)
    ensures forall d | d in TriangleNow ::
              IsRewrittenTable(Scene(TriangleLinks, order, TriangleHosts, V), d, TriangleWas[d], TriangleNow[d])
  {
    var s := Scene(TriangleLinks, order, TriangleHosts, V);
    TriangleWay(order);
    assert Covers(To(B, 2), B) && IsSingleWay(s, S1, To(B, 2), Port(1));
    assert IsRewriteOf(s, S1, To(A, 9), To(A, 9)) && IsRewriteOf(s, S1, To(B, 2), To(B, 1));
    assert IsRewriteOf(s, S2, To(A, 1), To(A, 1)) && IsRewriteOf(s, S2, To(B, 9), To(B, 9));
  }

  /** Planning makes, and the route check accepts, a plan although a packet is lost before the first write: the
      old tables are never checked. */
  lemma CheckIgnoresOldRoutes(order: PT.Order)
    requires PT.Lists(order, TriangleLinks)
    ensures forall d | d in TriangleNow ::
              IsRewrittenTable(Scene(TriangleLinks, order, TriangleHosts, V), d, TriangleWas[d], TriangleNow[d])
    ensures AllRoutesAvoid(Fabric(TriangleNow, TriangleLinks, TriangleHosts), V)
    ensures !AlwaysDelivers(TriangleLinks, TriangleHosts, TriangleWas, TriangleNow, S1, B)
  {
    TriangleIsPlanned(order);
    TriangleIsDetour();
    TrianglePasses();
    TriangleHops();
    var g := Fabric(TriangleWas, TriangleLinks, TriangleHosts);
    DeadEndNeverDelivers(g, B, [S1, V]);
    assert RouteAvoids(Fabric(TriangleNow, TriangleLinks, TriangleHosts), TriangleHosts[A].sw, B, V);
    WorksThroughoutIffItWorked(TriangleLinks, TriangleHosts, V, TriangleWas, TriangleNow, S1, B);
  }
}
