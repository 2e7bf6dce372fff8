/** Planning the rewrites that move every route off a switch (`plan_rewrites` of
    `examples/p4_energy_saving/energy_saving.py`). */
module EnergyPlan {
  import opened Prelude
  import opened RouteWalk
  import opened PortsToward
  import opened ShortestPaths

  /** A forwarding table as read: its entries, and its default entry if it has one. */
  datatype Table = Table(entries: seq<Entry>, fallback: Option<Entry>)

  datatype Rewrite = Rewrite(dpid: Dpid, was: Entry, now: Entry)

  datatype Refusal = DefaultLeadsThere(dpid: Dpid) | NoSingleWay(dpid: Dpid, entry: Entry)

  datatype PlanResult = Refused(why: Refusal) | Planned(plans: seq<Rewrite>, tables: Tables)

  /** What planning reads besides the tables: the links, the order they are searched in, the hosts,
      and the switch to be turned off. */
  datatype Scene = Scene(links: Links, order: Order, hosts: Hosts, victim: Dpid)

  /** The egress port of `e` on switch `d` leads to the victim. */
  predicate LeadsTo(links: Links, d: Dpid, port: Option<Port>, victim: Dpid) {
    d in links && port.Some? && port.value in links[d] && links[d][port.value] == victim
  }

  function PortAt(tree: PortTree, d: Dpid): Option<Port> {
    if d in tree then tree[d] else None
  }

  function PortToward(s: Scene, d: Dpid, ip: Ip): Option<Port>
    requires ip in s.hosts
  {
    PortAt(Toward(s.links, s.order, s.hosts[ip].sw, s.victim), d)
  }

  /** `p` is the one port every host that `e` covers is reached by, and it covers a host. */
  ghost predicate IsSingleWay(s: Scene, d: Dpid, e: Entry, p: Port) {
    && (exists ip :: ip in s.hosts && Covers(e, ip))
    && (forall ip | ip in s.hosts && Covers(e, ip) :: PortToward(s, d, ip) == Some(p))
  }

  ghost predicate IsPortFor(s: Scene, d: Dpid, e: Entry, ip: Ip, port: Option<Port>) {
    ip in s.hosts && Covers(e, ip) && PortToward(s, d, ip) == port
  }

  method SearchPort(s: Scene, d: Dpid, ip: Ip) returns (port: Option<Port>)
    requires Lists(s.order, s.links) && ip in s.hosts
    ensures port == PortToward(s, d, ip)
  {
    var tree := PortsToward.PortsToward(s.links, s.order, s.hosts[ip].sw, s.victim);
    port := PortAt(tree, d);
  }

  /** The set of new ports the source collects for one entry. */
  method CollectPorts(s: Scene, d: Dpid, e: Entry) returns (ports: set<Option<Port>>)
    requires Lists(s.order, s.links)
    ensures forall port :: port in ports <==> exists ip :: IsPortFor(s, d, e, ip, port)
  {
    var todo := s.hosts.Keys;
    ports := {};
    while todo != {}
      invariant todo <= s.hosts.Keys
      invariant forall ip, port | IsPortFor(s, d, e, ip, port) && ip !in todo :: port in ports
      invariant forall port | port in ports :: exists ip :: IsPortFor(s, d, e, ip, port)
      decreases todo
    {
      var ip :| ip in todo;
      todo := todo - {ip};
      if Covers(e, ip) {
        var port := SearchPort(s, d, ip);
        assert IsPortFor(s, d, e, ip, port);
        ports := ports + {port};
      }
    }
  }

  /** The one new port of an entry, when there is exactly one. */
  method FindSingleWay(s: Scene, d: Dpid, e: Entry) returns (port: Option<Port>)
    requires Lists(s.order, s.links)
    ensures port.Some? ==> IsSingleWay(s, d, e, port.value)
    ensures port.None? ==> forall p :: !IsSingleWay(s, d, e, p)
  {
    var ports := CollectPorts(s, d, e);
    forall p | IsSingleWay(s, d, e, p) ensures ports == {Some(p)} {
      var ip :| ip in s.hosts && Covers(e, ip);
      assert IsPortFor(s, d, e, ip, Some(p));
    }
    if |ports| != 1 || None in ports {
      port := None;
    } else {
      var q :| q in ports;
      assert ports == {q} by { assert |ports - {q}| == 0; }
      port := q;
      forall ip | ip in s.hosts && Covers(e, ip) ensures PortToward(s, d, ip) == q {
        assert IsPortFor(s, d, e, ip, PortToward(s, d, ip));
        assert PortToward(s, d, ip) in ports;
      }
    }
  }

  /** `e'` is what planning makes of entry `e` of switch `d`. */
  ghost predicate IsRewriteOf(s: Scene, d: Dpid, e: Entry, e': Entry) {
    if LeadsTo(s.links, d, e.port, s.victim)
    then e'.port.Some? && e' == e.(port := e'.port) && IsSingleWay(s, d, e, e'.port.value)
    else e' == e
  }

  ghost predicate IsRewrittenTable(s: Scene, d: Dpid, was: seq<Entry>, now: seq<Entry>) {
    |now| == |was| && forall i | 0 <= i < |was| :: IsRewriteOf(s, d, was[i], now[i])
  }

  /** `r` is the rewrite of an entry of `was` that led to the victim. */
  ghost predicate IsPlanFor(s: Scene, d: Dpid, was: seq<Entry>, now: seq<Entry>, r: Rewrite) {
    && |now| == |was|
    && exists i | 0 <= i < |was| :: LeadsTo(s.links, d, was[i].port, s.victim) && r == Rewrite(d, was[i], now[i])
  }

  ghost predicate IsStuck(s: Scene, d: Dpid, e: Entry) {
    LeadsTo(s.links, d, e.port, s.victim) && forall p :: !IsSingleWay(s, d, e, p)
  }

  /** One switch: the loop over its entries. */
  method PlanTable(s: Scene, d: Dpid, entries: seq<Entry>)
    returns (stuck: Option<Entry>, plans: seq<Rewrite>, now: seq<Entry>)
    requires Lists(s.order, s.links)
    ensures stuck.Some? ==> stuck.value in entries && IsStuck(s, d, stuck.value)
    ensures stuck.None? ==> IsRewrittenTable(s, d, entries, now)
    ensures stuck.None? ==> forall r :: r in plans <==> IsPlanFor(s, d, entries, now, r)
  {
    plans, now := [], [];
    for i := 0 to |entries|
      invariant IsRewrittenTable(s, d, entries[..i], now)
      invariant forall r :: r in plans <==> IsPlanFor(s, d, entries[..i], now, r)
    {
      var e := entries[i];
      ghost var done, done' := entries[..i], entries[..i + 1];
      assert done' == done + [e];
      ghost var newBefore, plansBefore := now, plans;
      if !LeadsTo(s.links, d, e.port, s.victim) {
        now := now + [e];
      } else {
        var port := FindSingleWay(s, d, e);
        if port.None? {
          return Some(e), plans, now;
        }
        var e' := e.(port := port);
        plans := plans + [Rewrite(d, e, e')];
        now := now + [e'];
      }
      PlanGrows(s, d, done, newBefore, e, now[i], plansBefore, plans);
      assert newBefore + [now[i]] == now;
    }
    assert entries[..|entries|] == entries;
    stuck := None;
  }

  lemma PlanGrows(s: Scene, d: Dpid, was: seq<Entry>, now: seq<Entry>, e: Entry, e': Entry, plans: seq<Rewrite>,
                  plans': seq<Rewrite>)
    requires |was| == |now|
    requires forall r :: r in plans <==> IsPlanFor(s, d, was, now, r)
    requires plans' == if LeadsTo(s.links, d, e.port, s.victim) then plans + [Rewrite(d, e, e')] else plans
    ensures forall r :: r in plans' <==> IsPlanFor(s, d, was + [e], now + [e'], r)
  {
    forall r ensures r in plans' <==> IsPlanFor(s, d, was + [e], now + [e'], r) {
      if IsPlanFor(s, d, was, now, r) {
        var i :| 0 <= i < |was| && LeadsTo(s.links, d, was[i].port, s.victim) && r == Rewrite(d, was[i], now[i]);
        assert (was + [e])[i] == was[i] && (now + [e'])[i] == now[i];
      }
      if LeadsTo(s.links, d, e.port, s.victim) && r == Rewrite(d, e, e') {
        assert (was + [e])[|was|] == e && (now + [e'])[|was|] == e';
      }
      if IsPlanFor(s, d, was + [e], now + [e'], r) {
        var i :| 0 <= i < |was| + 1 && LeadsTo(s.links, d, (was + [e])[i].port, s.victim)
                 && r == Rewrite(d, (was + [e])[i], (now + [e'])[i]);
        assert i < |was| ==> IsPlanFor(s, d, was, now, r);
      }
    }
  }

  /** A reason the switch cannot be turned off: a table's default entry leads to it (the default is
      not rewritten), or an entry has no single way round it. */
  ghost predicate IsReason(s: Scene, tables: map<Dpid, Table>, switches: seq<Dpid>, why: Refusal) {
    && why.dpid in switches && why.dpid != s.victim && why.dpid in tables
    && match why
       case DefaultLeadsThere(d) =>
         tables[d].fallback.Some? && LeadsTo(s.links, d, tables[d].fallback.value.port, s.victim)
       case NoSingleWay(d, e) => e in tables[d].entries && IsStuck(s, d, e)
  }

  /** `plan_rewrites`: refuses for a reason that holds, or rewrites exactly the entries that lead to
      the victim, in place, on every other switch. */
  method PlanRewrites(s: Scene, tables: map<Dpid, Table>, switches: seq<Dpid>) returns (res: PlanResult)
    requires Lists(s.order, s.links)
    requires forall d | d in switches :: d in tables
    ensures res.Refused? ==> IsReason(s, tables, switches, res.why)
    ensures res.Planned? ==> forall why :: !IsReason(s, tables, switches, why)
    ensures res.Planned? ==>
              && (forall d :: d in res.tables <==> d in switches && d != s.victim)
              && (forall d | d in res.tables :: IsRewrittenTable(s, d, tables[d].entries, res.tables[d]))
              && (forall r :: r in res.plans <==>
                    r.dpid in res.tables && IsPlanFor(s, r.dpid, tables[r.dpid].entries, res.tables[r.dpid], r))
  {
    var plans: seq<Rewrite>, after: Tables := [], map[];
    for k := 0 to |switches|
      invariant forall d :: d in after <==> d in switches[..k] && d != s.victim
      invariant forall d | d in after :: IsRewrittenTable(s, d, tables[d].entries, after[d])
      invariant forall r | r in plans ::
                  r.dpid in after && IsPlanFor(s, r.dpid, tables[r.dpid].entries, after[r.dpid], r)
      invariant forall d, r | d in after && IsPlanFor(s, d, tables[d].entries, after[d], r) :: r in plans
      invariant forall d | d in after && tables[d].fallback.Some? ::
                  !LeadsTo(s.links, d, tables[d].fallback.value.port, s.victim)
    {
      var d := switches[k];
      assert switches[..k + 1] == switches[..k] + [d];
      if d == s.victim || d in after {
        continue;
      }
      var t := tables[d];
      if t.fallback.Some? && LeadsTo(s.links, d, t.fallback.value.port, s.victim) {
        return Refused(DefaultLeadsThere(d));
      }
      var stuck, some, rows := PlanTable(s, d, t.entries);
      if stuck.Some? {
        return Refused(NoSingleWay(d, stuck.value));
      }
      plans := plans + some;
      after := after[d := rows];
    }
    assert switches[..|switches|] == switches;
    res := Planned(plans, after);
    forall why ensures !IsReason(s, tables, switches, why) {
      if IsReason(s, tables, switches, why) {
        NothingStuck(s, tables, after, why);
      }
    }
  }

  lemma NothingStuck(s: Scene, tables: map<Dpid, Table>, after: Tables, why: Refusal)
    requires why.dpid in after && why.dpid in tables
    requires forall d | d in after :: d in tables && IsRewrittenTable(s, d, tables[d].entries, after[d])
    ensures why.NoSingleWay? && why.entry in tables[why.dpid].entries ==> !IsStuck(s, why.dpid, why.entry)
  {
    if why.NoSingleWay? && why.entry in tables[why.dpid].entries {
      var i :| 0 <= i < |tables[why.dpid].entries| && tables[why.dpid].entries[i] == why.entry;
      assert IsRewriteOf(s, why.dpid, why.entry, after[why.dpid][i]);
    }
  }

  /** An accepted plan leaves no entry that leads to the victim, and every rewritten entry starts a
      shortest way round it to each host the entry covers. */
  lemma PlanMovesOffVictim(s: Scene, d: Dpid, was: seq<Entry>, now: seq<Entry>, i: nat)
    requires Lists(s.order, s.links) && d != s.victim && forall ip | ip in s.hosts :: s.hosts[ip].sw != s.victim
    requires IsRewrittenTable(s, d, was, now) && i < |was|
    ensures now[i].dst == was[i].dst && now[i].priority == was[i].priority
    ensures !LeadsTo(s.links, d, now[i].port, s.victim)
    ensures LeadsTo(s.links, d, was[i].port, s.victim) ==>
              forall ip | ip in s.hosts && Covers(was[i], ip) ::
                IsShortestStep(s.links, s.hosts[ip].sw, s.victim, d, now[i].port)
  {
    assert IsRewriteOf(s, d, was[i], now[i]);
    if LeadsTo(s.links, d, was[i].port, s.victim) {
      forall ip | ip in s.hosts && Covers(was[i], ip)
        ensures IsShortestStep(s.links, s.hosts[ip].sw, s.victim, d, now[i].port)
        ensures !LeadsTo(s.links, d, now[i].port, s.victim)
      {
        NewPortIsShortest(s, d, ip, now[i].port.value);
      }
    }
  }

  /** So under the planned tables no switch hands the victim a packet. */
  lemma PlanForwardsPastVictim(s: Scene, d: Dpid, was: seq<Entry>, tables: Tables, hosts: Hosts, dst: Ip)
    requires Lists(s.order, s.links) && d != s.victim && forall ip | ip in s.hosts :: s.hosts[ip].sw != s.victim
    requires d in tables && IsRewrittenTable(s, d, was, tables[d])
    ensures NextHop(Fabric(tables, s.links, hosts), d, dst) != Forward(s.victim)
  {
    var f := Fabric(tables, s.links, hosts);
    if NextHop(f, d, dst) == Forward(s.victim) {
      HopFollowsTable(f, d, dst);
      var p :| LeavesBy(f, d, dst, p) && d in f.links && Lookup(f.links[d], p) == Some(s.victim);
      var i: nat :| Selects(tables[d], dst, i) && tables[d][i].port == Some(p);
      PlanMovesOffVictim(s, d, was, tables[d], i);
    }
  }

  /** And only entries that would hand it one are rewritten. */
  lemma OnlyLeadingEntriesChange(s: Scene, d: Dpid, was: seq<Entry>, now: seq<Entry>, i: nat)
    requires IsRewrittenTable(s, d, was, now) && i < |was|
    requires d in s.links ==> was[i].port.None? || Lookup(s.links[d], was[i].port.value) != Some(s.victim)
    ensures now[i] == was[i]
  {
    assert IsRewriteOf(s, d, was[i], now[i]);
  }

  lemma NewPortIsShortest(s: Scene, d: Dpid, ip: Ip, p: Port)
    requires Lists(s.order, s.links) && ip in s.hosts && s.hosts[ip].sw != s.victim
    requires PortToward(s, d, ip) == Some(p)
    ensures IsShortestStep(s.links, s.hosts[ip].sw, s.victim, d, Some(p))
    ensures !LeadsTo(s.links, d, Some(p), s.victim)
  {
    var target := s.hosts[ip].sw;
    TowardIsShortest(s.links, s.order, target, s.victim);
    var adj := Around(s.links, s.victim);
    var next, n: nat :| IsLinkTo(s.links, s.victim, d, Some(p), next) && Nearest(adj, target, next, n);
    NoWayFromAvoided(s.links, s.victim, target, n);
  }

  lemma NoWayFromAvoided(links: Links, avoid: Dpid, target: Dpid, n: nat)
    requires target != avoid
    ensures !Hops(Around(links, avoid), target, avoid, n)
  {
    var adj := Around(links, avoid);
    assert forall m :: !adj(avoid, m);
  }
}
