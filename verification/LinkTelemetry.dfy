/** Which switch ports are to be sampled (`plan` of `p4_proxy/mininet/link_telemetry.py`). */
module LinkTelemetry {
  import opened Prelude

  datatype Ifname = Ifname(name: string)

  /** The sixteen bits of an interface index that a sample reports. */
  datatype Key = Key(bits: int)

  const IFINDEX_RANGE := 0x1_0000

  function KeyOf(ifindex: int): Key {
    Key(ifindex % IFINDEX_RANGE)
  }

  /** Two numbers agree in their low sixteen bits. */
  predicate AgreeInBits(i: int, j: int) {
    (i - j) % 0x1_0000 == 0
  }

  /** Indices have the same key exactly when they agree in sixteen bits, and the key is those bits. */
  lemma KeyIsBits(i: int, j: int)
    ensures KeyOf(i) == KeyOf(j) <==> AgreeInBits(i, j)
    ensures 0 <= KeyOf(i).bits < 0x1_0000 && AgreeInBits(KeyOf(i).bits, i)
  {
  }

  /** A switch of the built fabric: whether its telemetry source is the link path, whether it sits in a
      namespace of its own, and its interfaces. */
  datatype Switch = Switch(dpid: Dpid, onLinkPath: bool, inNamespace: bool, intfs: map<Port, Ifname>)

  /** A cable between two switches. */
  datatype Cable = Cable(a: End, b: End)

  /** The topology model: cables, where hosts are plugged in, and the switches' agent addresses. */
  datatype Model = Model(cables: seq<Cable>, hostEnds: seq<End>, agents: map<Dpid, string>)

  datatype PortPlan = PortPlan(port: Port, ifname: Ifname, ifindex: int, key: Key, ingress: bool, egress: bool)

  datatype SwitchPlan = SwitchPlan(dpid: Dpid, agent: string, ports: seq<PortPlan>)

  datatype Refusal =
    OwnNamespace(dpid: Dpid) | NoAgent(dpid: Dpid) | NoInterface(at: End) | NoIfindex(at: End) | Collision(at: End)

  datatype PlanResult = Refused(why: Refusal) | Planned(switches: seq<SwitchPlan>)

  // ---------------------------------------------------------------- what a plan is

  ghost predicate IsCabled(m: Model, e: End) {
    e in m.hostEnds || exists c :: c in m.cables && (c.a == e || c.b == e)
  }

  /** The ports the model gives a switch. */
  function PortsOf(m: Model, d: Dpid): (ports: set<Port>)
    ensures forall p :: p in ports <==> IsCabled(m, End(d, p))
  {
    (set e | e in m.hostEnds && e.sw == d :: e.port)
    + (set c | c in m.cables && c.a.sw == d :: c.a.port)
    + (set c | c in m.cables && c.b.sw == d :: c.b.port)
  }

  /** The plan of one port: its interface, the bits a sample will report for it, an ingress filter, and
      an egress filter where a host is attached. */
  ghost predicate IsPortPlan(m: Model, sw: Switch, ifindexOf: map<Ifname, int>, p: PortPlan) {
    && p.port in sw.intfs && p.ifname == sw.intfs[p.port]
    && p.ifname in ifindexOf && p.ifindex == ifindexOf[p.ifname] && p.key == KeyOf(p.ifindex)
    && p.ingress && p.egress == (End(sw.dpid, p.port) in m.hostEnds)
  }

  ghost predicate IsSwitchPlan(m: Model, sw: Switch, ifindexOf: map<Ifname, int>, s: SwitchPlan) {
    && s.dpid == sw.dpid && Lookup(m.agents, s.dpid) == Some(s.agent)
    && (forall k | 0 <= k < |s.ports| :: IsPortPlan(m, sw, ifindexOf, s.ports[k]))
    && ListsOnce(s.ports, PortsOf(m, sw.dpid))
  }

  /** The interface names used so far, by the bits they report. */
  type ByKey = map<Key, Ifname>

  ghost predicate AreKeyed(byKey: ByKey, ports: seq<PortPlan>) {
    forall k | 0 <= k < |ports| :: Lookup(byKey, ports[k].key) == Some(ports[k].ifname)
  }

  ghost predicate AreAllKeyed(byKey: ByKey, planned: seq<SwitchPlan>) {
    forall s | 0 <= s < |planned| :: AreKeyed(byKey, planned[s].ports)
  }

  ghost predicate Grows(byKey: ByKey, byKey': ByKey) {
    forall k | k in byKey :: Lookup(byKey', k) == Some(byKey[k])
  }

  /** `name` is the interface of a cabled port of a switch on the link path, and reports `key`. */
  ghost predicate IsSampledName(m: Model, switches: seq<Switch>, ifindexOf: map<Ifname, int>, name: Ifname, key: Key) {
    && name in ifindexOf && KeyOf(ifindexOf[name]) == key
    && exists sw, port :: && sw in switches && sw.onLinkPath && IsCabled(m, End(sw.dpid, port))
                          && Lookup(sw.intfs, port) == Some(name)
  }

  ghost predicate AreSampledNames(m: Model, switches: seq<Switch>, ifindexOf: map<Ifname, int>, byKey: ByKey) {
    forall k | k in byKey :: IsSampledName(m, switches, ifindexOf, byKey[k], k)
  }

  /** What a refusal says of a switch on the link path is so. */
  ghost predicate IsReason(m: Model, switches: seq<Switch>, ifindexOf: map<Ifname, int>, sw: Switch, why: Refusal) {
    && sw in switches && sw.onLinkPath
    && match why
       case OwnNamespace(d) => d == sw.dpid && sw.inNamespace
       case NoAgent(d) => d == sw.dpid && d !in m.agents
       case NoInterface(at) => at.sw == sw.dpid && IsCabled(m, at) && at.port !in sw.intfs
       case NoIfindex(at) =>
         at.sw == sw.dpid && IsCabled(m, at) && at.port in sw.intfs && sw.intfs[at.port] !in ifindexOf
       case Collision(at) =>
         && at.sw == sw.dpid && IsCabled(m, at) && at.port in sw.intfs && sw.intfs[at.port] in ifindexOf
         && exists other :: other != sw.intfs[at.port]
                            && IsSampledName(m, switches, ifindexOf, other, KeyOf(ifindexOf[sw.intfs[at.port]]))
  }

  // ---------------------------------------------------------------- the loops

  /** One port. A collision in the sixteen bits is refused, not resolved. */
  method PlanPort(m: Model, ghost switches: seq<Switch>, sw: Switch, ifindexOf: map<Ifname, int>, byKey: ByKey,
                  port: Port)
    returns (why: Option<Refusal>, p: PortPlan, byKey': ByKey)
    requires sw in switches && sw.onLinkPath && IsCabled(m, End(sw.dpid, port))
    requires AreSampledNames(m, switches, ifindexOf, byKey)
    ensures why.Some? ==> IsReason(m, switches, ifindexOf, sw, why.value)
    ensures AreSampledNames(m, switches, ifindexOf, byKey')
    ensures why.None? ==>
              && p.port == port && IsPortPlan(m, sw, ifindexOf, p)
              && Grows(byKey, byKey') && Lookup(byKey', p.key) == Some(p.ifname)
  {
    p, byKey' := PortPlan(port, Ifname(""), 0, KeyOf(0), true, false), byKey;
    if port !in sw.intfs {
      return Some(NoInterface(End(sw.dpid, port))), p, byKey';
    }
    var ifname := sw.intfs[port];
    if ifname !in ifindexOf {
      return Some(NoIfindex(End(sw.dpid, port))), p, byKey';
    }
    var key := KeyOf(ifindexOf[ifname]);
    assert IsSampledName(m, switches, ifindexOf, ifname, key);
    if key in byKey && byKey[key] != ifname {
      return Some(Collision(End(sw.dpid, port))), p, byKey';
    }
    byKey' := byKey[key := ifname];
    return None, PortPlan(port, ifname, ifindexOf[ifname], key, true, End(sw.dpid, port) in m.hostEnds), byKey';
  }

  /** The list holds each of the ports `done` once. */
  ghost predicate ListsOnce(ports: seq<PortPlan>, done: set<Port>) {
    && (forall port :: (exists k :: 0 <= k < |ports| && ports[k].port == port) <==> port in done)
    && (forall j, k | 0 <= j < k < |ports| :: ports[j].port != ports[k].port)
  }

  lemma ListOneMore(ports: seq<PortPlan>, done: set<Port>, p: PortPlan)
    requires ListsOnce(ports, done) && p.port !in done
    ensures ListsOnce(ports + [p], done + {p.port})
  {
    var ports' := ports + [p];
    assert ports'[|ports|] == p && forall k | 0 <= k < |ports| :: ports'[k] == ports[k];
    forall port ensures (exists k :: 0 <= k < |ports'| && ports'[k].port == port) <==> port in done + {p.port} {
      if port in done {
        var k :| 0 <= k < |ports| && ports[k].port == port;
        assert ports'[k].port == port;
      }
    }
  }

  /** The plan of the ports `done` of one switch. */
  ghost predicate IsPartialPlan(m: Model, sw: Switch, ifindexOf: map<Ifname, int>, byKey: ByKey, ports: seq<PortPlan>,
                                done: set<Port>) {
    && AreKeyed(byKey, ports) && ListsOnce(ports, done)
    && forall k | 0 <= k < |ports| :: IsPortPlan(m, sw, ifindexOf, ports[k])
  }

  lemma PlanOneMore(m: Model, sw: Switch, ifindexOf: map<Ifname, int>, byKey: ByKey, byKey': ByKey,
                    ports: seq<PortPlan>, done: set<Port>, p: PortPlan)
    requires IsPartialPlan(m, sw, ifindexOf, byKey, ports, done) && p.port !in done
    requires IsPortPlan(m, sw, ifindexOf, p) && Grows(byKey, byKey') && Lookup(byKey', p.key) == Some(p.ifname)
    ensures IsPartialPlan(m, sw, ifindexOf, byKey', ports + [p], done + {p.port})
  {
    ListOneMore(ports, done, p);
    forall k | 0 <= k < |ports| ensures Lookup(byKey', ports[k].key) == Some(ports[k].ifname) {
      assert Lookup(byKey, ports[k].key) == Some(ports[k].ifname);
    }
  }

  /** The ports of one switch. */
  method PlanPorts(m: Model, ghost switches: seq<Switch>, sw: Switch, ifindexOf: map<Ifname, int>, byKey: ByKey)
    returns (why: Option<Refusal>, ports: seq<PortPlan>, byKey': ByKey)
    requires sw in switches && sw.onLinkPath && AreSampledNames(m, switches, ifindexOf, byKey)
    ensures why.Some? ==> IsReason(m, switches, ifindexOf, sw, why.value)
    ensures AreSampledNames(m, switches, ifindexOf, byKey')
    ensures why.None? ==> Grows(byKey, byKey') && IsPartialPlan(m, sw, ifindexOf, byKey', ports, PortsOf(m, sw.dpid))
  {
    ports, byKey' := [], byKey;
    var all := PortsOf(m, sw.dpid);
    var todo := all;
    while todo != {}
      invariant todo <= all && AreSampledNames(m, switches, ifindexOf, byKey') && Grows(byKey, byKey')
      invariant IsPartialPlan(m, sw, ifindexOf, byKey', ports, all - todo)
      decreases todo
    {
      var port :| port in todo;
      ghost var before := byKey';
      var p;
      why, p, byKey' := PlanPort(m, switches, sw, ifindexOf, byKey', port);
      if why.Some? {
        return;
      }
      PlanOneMore(m, sw, ifindexOf, before, byKey', ports, all - todo, p);
      assert all - todo + {port} == all - (todo - {port});
      ports := ports + [p];
      todo := todo - {port};
    }
    assert all - {} == all;
    why := None;
  }

  /** The switches on the link path, in order. */
  function OnLinkPath(switches: seq<Switch>): seq<Switch> {
    if switches == [] then []
    else
      var rest := OnLinkPath(switches[..|switches| - 1]);
      var sw := switches[|switches| - 1];
      if sw.onLinkPath then rest + [sw] else rest
  }

  /** The plan of the whole fabric: exactly the switches on the link path, and no two interfaces that
      report the same bits. */
  ghost predicate IsPlan(m: Model, switches: seq<Switch>, ifindexOf: map<Ifname, int>, planned: seq<SwitchPlan>) {
    var sampled := OnLinkPath(switches);
    && |planned| == |sampled|
    && (forall i | 0 <= i < |planned| :: IsSwitchPlan(m, sampled[i], ifindexOf, planned[i]))
    && exists byKey :: AreAllKeyed(byKey, planned)
  }

  lemma KeyingGrows(byKey: ByKey, byKey': ByKey, planned: seq<SwitchPlan>, s: SwitchPlan)
    requires AreAllKeyed(byKey, planned) && Grows(byKey, byKey') && AreKeyed(byKey', s.ports)
    ensures AreAllKeyed(byKey', planned + [s])
  {
    forall i | 0 <= i < |planned + [s]| ensures AreKeyed(byKey', (planned + [s])[i].ports) {
      if i < |planned| {
        assert AreKeyed(byKey, planned[i].ports);
        forall k | 0 <= k < |planned[i].ports|
          ensures Lookup(byKey', planned[i].ports[k].key) == Some(planned[i].ports[k].ifname)
        {
          assert Lookup(byKey, planned[i].ports[k].key) == Some(planned[i].ports[k].ifname);
        }
      }
    }
  }

  /** `plan`. An interface index that cannot be read is missing from `ifindexOf`. */
  method PlanTelemetry(m: Model, switches: seq<Switch>, ifindexOf: map<Ifname, int>) returns (res: PlanResult)
    ensures res.Planned? ==> IsPlan(m, switches, ifindexOf, res.switches)
    ensures res.Refused? ==> exists sw :: IsReason(m, switches, ifindexOf, sw, res.why)
    ensures res.Planned? ==> forall i | 0 <= i < |switches| && switches[i].onLinkPath :: !switches[i].inNamespace
  {
    var planned: seq<SwitchPlan>, byKey: ByKey := [], map[];
    for i := 0 to |switches|
      invariant |planned| == |OnLinkPath(switches[..i])|
      invariant forall k | 0 <= k < |planned| :: IsSwitchPlan(m, OnLinkPath(switches[..i])[k], ifindexOf, planned[k])
      invariant AreAllKeyed(byKey, planned) && AreSampledNames(m, switches, ifindexOf, byKey)
      invariant forall k | 0 <= k < i && switches[k].onLinkPath :: !switches[k].inNamespace
    {
      var sw := switches[i];
      assert switches[..i + 1][..i] == switches[..i];
      if !sw.onLinkPath {
        continue;
      }
      assert sw in switches;
      if sw.inNamespace {
        assert IsReason(m, switches, ifindexOf, sw, OwnNamespace(sw.dpid));
        return Refused(OwnNamespace(sw.dpid));
      }
      if sw.dpid !in m.agents {
        assert IsReason(m, switches, ifindexOf, sw, NoAgent(sw.dpid));
        return Refused(NoAgent(sw.dpid));
      }
      var why, ports, byKey' := PlanPorts(m, switches, sw, ifindexOf, byKey);
      if why.Some? {
        return Refused(why.value);
      }
      var s := SwitchPlan(sw.dpid, m.agents[sw.dpid], ports);
      KeyingGrows(byKey, byKey', planned, s);
      planned := planned + [s];
      byKey := byKey';
    }
    assert switches[..|switches|] == switches;
    res := Planned(planned);
  }

  // ---------------------------------------------------------------- filters and what they see

  /** A filter of the plan: on which port, and on which side. */
  datatype Filter = Filter(at: End, ingress: bool)

  ghost predicate HasPort(planned: seq<SwitchPlan>, at: End, p: PortPlan) {
    exists s, k :: 0 <= s < |planned| && 0 <= k < |planned[s].ports|
                   && planned[s].dpid == at.sw && planned[s].ports[k] == p && p.port == at.port
  }

  /** The plan installs this filter. */
  ghost predicate Installs(planned: seq<SwitchPlan>, f: Filter) {
    exists p :: HasPort(planned, f.at, p) && (if f.ingress then p.ingress else p.egress)
  }

  /** One direction of a cable. */
  datatype Directed = BetweenSwitches(src: End, dst: End) | FromHost(at: End) | ToHost(at: End)

  /** A frame in this direction passes the egress hook of the port it leaves by and the ingress hook of
      the port it enters by. */
  ghost predicate Passes(d: Directed, f: Filter) {
    match d
    case BetweenSwitches(src, dst) => f == Filter(src, false) || f == Filter(dst, true)
    case FromHost(at) => f == Filter(at, true)
    case ToHost(at) => f == Filter(at, false)
  }

  /** The direction belongs to a cable of the model, and its switches are all on the link path. */
  ghost predicate IsSampled(m: Model, switches: seq<Switch>, d: Directed) {
    match d
    case BetweenSwitches(src, dst) =>
      && (Cable(src, dst) in m.cables || Cable(dst, src) in m.cables)
      && IsOnPath(switches, src.sw) && IsOnPath(switches, dst.sw)
    case FromHost(at) => at in m.hostEnds && IsOnPath(switches, at.sw)
    case ToHost(at) => at in m.hostEnds && IsOnPath(switches, at.sw)
  }

  ghost predicate IsOnPath(switches: seq<Switch>, d: Dpid) {
    exists sw :: sw in OnLinkPath(switches) && sw.dpid == d
  }

  /** No port has both a host and a cable to a switch, and no cable has both its ends in one port. */
  ghost predicate KeepsHostsOffCables(m: Model) {
    forall c | c in m.cables :: c.a !in m.hostEnds && c.b !in m.hostEnds && c.a != c.b
  }

  lemma PortIsPlanned(m: Model, switches: seq<Switch>, ifindexOf: map<Ifname, int>, planned: seq<SwitchPlan>, at: End)
    returns (p: PortPlan)
    requires IsPlan(m, switches, ifindexOf, planned) && IsOnPath(switches, at.sw) && IsCabled(m, at)
    ensures HasPort(planned, at, p) && p.ingress && p.egress == (at in m.hostEnds)
  {
    var sampled := OnLinkPath(switches);
    var sw :| sw in sampled && sw.dpid == at.sw;
    var s :| 0 <= s < |sampled| && sampled[s] == sw;
    assert IsSwitchPlan(m, sampled[s], ifindexOf, planned[s]);
    assert End(sw.dpid, at.port) == at;
    var k :| 0 <= k < |planned[s].ports| && planned[s].ports[k].port == at.port;
    p := planned[s].ports[k];
    assert IsPortPlan(m, sw, ifindexOf, p);
  }

  lemma PlannedPortSides(m: Model, switches: seq<Switch>, ifindexOf: map<Ifname, int>, planned: seq<SwitchPlan>,
                         at: End, p: PortPlan)
    requires IsPlan(m, switches, ifindexOf, planned) && HasPort(planned, at, p)
    ensures p.ingress && p.egress == (at in m.hostEnds)
  {
    var s, k :| 0 <= s < |planned| && 0 <= k < |planned[s].ports|
                && planned[s].dpid == at.sw && planned[s].ports[k] == p && p.port == at.port;
    assert IsSwitchPlan(m, OnLinkPath(switches)[s], ifindexOf, planned[s]);
    assert IsPortPlan(m, OnLinkPath(switches)[s], ifindexOf, planned[s].ports[k]);
    assert End(at.sw, p.port) == at;
  }

  /** An egress filter is installed only where a host is attached. */
  lemma EgressOnlyAtHosts(m: Model, switches: seq<Switch>, ifindexOf: map<Ifname, int>, planned: seq<SwitchPlan>,
                          at: End)
    requires IsPlan(m, switches, ifindexOf, planned) && Installs(planned, Filter(at, false))
    ensures at in m.hostEnds
  {
    var p :| HasPort(planned, at, p) && p.egress;
    PlannedPortSides(m, switches, ifindexOf, planned, at, p);
  }

  /** Every direction of every cable between sampled switches, or between one and its host, is to be seen by
      exactly one side of one port. */
  lemma EveryDirectionHasOneSide(m: Model, switches: seq<Switch>, ifindexOf: map<Ifname, int>, planned: seq<SwitchPlan>,
                                 d: Directed)
    returns (f: Filter)
    requires IsPlan(m, switches, ifindexOf, planned) && KeepsHostsOffCables(m) && IsSampled(m, switches, d)
    ensures Installs(planned, f) && Passes(d, f) && forall g | Installs(planned, g) && Passes(d, g) :: g == f
  {
    var at := if d.BetweenSwitches? then d.dst else d.at;
    assert IsCabled(m, at);
    var p := PortIsPlanned(m, switches, ifindexOf, planned, at);
    f := Filter(at, !d.ToHost?);
    assert Installs(planned, f) && Passes(d, f);
    forall g | Installs(planned, g) && Passes(d, g) ensures g == f {
      if d.BetweenSwitches? && g == Filter(d.src, false) {
        EgressOnlyAtHosts(m, switches, ifindexOf, planned, d.src);
        assert false;
      }
    }
  }

  // ---------------------------------------------------------------- ports and their names

  /** No switch is planned twice, and no two planned ports have the same interface. */
  ghost predicate HasDistinctNames(planned: seq<SwitchPlan>) {
    && (forall i, j | 0 <= i < j < |planned| :: planned[i].dpid != planned[j].dpid)
    && forall s, k, s', k' | IsPlannedAt(planned, s, k) && IsPlannedAt(planned, s', k')
                          && planned[s].ports[k].ifname == planned[s'].ports[k'].ifname :: s == s' && k == k'
  }

  predicate IsPlannedAt(planned: seq<SwitchPlan>, s: int, k: int) {
    0 <= s < |planned| && 0 <= k < |planned[s].ports|
  }

  lemma SamePortSameName(planned: seq<SwitchPlan>, at: End, p: PortPlan, at': End, p': PortPlan)
    requires HasDistinctNames(planned) && HasPort(planned, at, p) && HasPort(planned, at', p') && p.ifname == p'.ifname
    ensures at == at' && p == p'
  {
    var s, k :| 0 <= s < |planned| && 0 <= k < |planned[s].ports|
                && planned[s].dpid == at.sw && planned[s].ports[k] == p && p.port == at.port;
    var s', k' :| 0 <= s' < |planned| && 0 <= k' < |planned[s'].ports|
                  && planned[s'].dpid == at'.sw && planned[s'].ports[k'] == p' && p'.port == at'.port;
    assert IsPlannedAt(planned, s, k) && IsPlannedAt(planned, s', k');
  }

  lemma OnePlanPerPort(m: Model, switches: seq<Switch>, ifindexOf: map<Ifname, int>, planned: seq<SwitchPlan>, at: End,
                       p: PortPlan, q: PortPlan)
    requires IsPlan(m, switches, ifindexOf, planned) && HasDistinctNames(planned)
    requires HasPort(planned, at, p) && HasPort(planned, at, q)
    ensures p == q
  {
    var s, k :| 0 <= s < |planned| && 0 <= k < |planned[s].ports|
                && planned[s].dpid == at.sw && planned[s].ports[k] == p && p.port == at.port;
    var s', k' :| 0 <= s' < |planned| && 0 <= k' < |planned[s'].ports|
                  && planned[s'].dpid == at.sw && planned[s'].ports[k'] == q && q.port == at.port;
    assert s == s' && IsSwitchPlan(m, OnLinkPath(switches)[s], ifindexOf, planned[s]);
  }
}
