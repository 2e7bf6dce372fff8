/** The commands that install the sampling filters of a plan (`_commands` of
    `p4_proxy/mininet/link_telemetry.py`), and what their filters see. */
module TelemetryCommands {
  import opened Prelude
  import opened LinkTelemetry

  // ---------------------------------------------------------------- the commands

  /** A `tc` command: the hook of an interface, or a sampling filter on one side of it. */
  datatype TcCommand = AddHook(ifname: Ifname) | AddFilter(ifname: Ifname, ingress: bool)

  function PortCommands(p: PortPlan): seq<TcCommand> {
    [AddHook(p.ifname)] + (if p.ingress then [AddFilter(p.ifname, true)] else [])
    + (if p.egress then [AddFilter(p.ifname, false)] else [])
  }

  function PortsCommands(ports: seq<PortPlan>): seq<TcCommand> {
    if ports == [] then [] else PortsCommands(ports[..|ports| - 1]) + PortCommands(ports[|ports| - 1])
  }

  function AllCommands(planned: seq<SwitchPlan>): seq<TcCommand> {
    if planned == [] then [] else AllCommands(planned[..|planned| - 1]) + PortsCommands(planned[|planned| - 1].ports)
  }

  /** `_commands`: switch by switch, port by port, the hook and then the filters. */
  method Commands(planned: seq<SwitchPlan>) returns (out: seq<TcCommand>)
    ensures out == AllCommands(planned)
  {
    out := [];
    for i := 0 to |planned|
      invariant out == AllCommands(planned[..i])
    {
      assert planned[..i + 1][..i] == planned[..i];
      var some := SwitchCommands(planned[i].ports);
      out := out + some;
    }
    assert planned[..|planned|] == planned;
  }

  method SwitchCommands(ports: seq<PortPlan>) returns (out: seq<TcCommand>)
    ensures out == PortsCommands(ports)
  {
    out := [];
    for k := 0 to |ports|
      invariant out == PortsCommands(ports[..k])
    {
      var p := ports[k];
      assert ports[..k + 1][..k] == ports[..k];
      ghost var before := out;
      out := out + [AddHook(p.ifname)];
      if p.ingress {
        out := out + [AddFilter(p.ifname, true)];
      }
      if p.egress {
        out := out + [AddFilter(p.ifname, false)];
      }
      assert out == before + PortCommands(p);
    }
    assert ports[..|ports|] == ports;
  }

  /** The port asks for this command. */
  predicate AsksFor(p: PortPlan, c: TcCommand) {
    c.ifname == p.ifname && (c.AddFilter? ==> if c.ingress then p.ingress else p.egress)
  }

  lemma PortCommandsAre(p: PortPlan, c: TcCommand)
    ensures c in PortCommands(p) <==> AsksFor(p, c)
  {
  }

  lemma {:induction false} AskedForInSwitch(ports: seq<PortPlan>, c: TcCommand) returns (k: nat)
    requires c in PortsCommands(ports)
    ensures k < |ports| && AsksFor(ports[k], c)
  {
    var before, p := ports[..|ports| - 1], ports[|ports| - 1];
    if c in PortsCommands(before) {
      k := AskedForInSwitch(before, c);
    } else {
      k := |ports| - 1;
      PortCommandsAre(p, c);
    }
  }

  lemma {:induction false} IssuedForSwitch(ports: seq<PortPlan>, k: nat, c: TcCommand)
    requires k < |ports| && AsksFor(ports[k], c)
    ensures c in PortsCommands(ports)
  {
    if k == |ports| - 1 {
      PortCommandsAre(ports[k], c);
    } else {
      IssuedForSwitch(ports[..|ports| - 1], k, c);
    }
  }

  /** Every command issued is asked for by a planned port ... */
  lemma {:induction false} IssuedIsAskedFor(planned: seq<SwitchPlan>, c: TcCommand) returns (s: nat, k: nat)
    requires c in AllCommands(planned)
    ensures IsPlannedAt(planned, s, k) && AsksFor(planned[s].ports[k], c)
  {
    var before, last := planned[..|planned| - 1], planned[|planned| - 1];
    if c in AllCommands(before) {
      s, k := IssuedIsAskedFor(before, c);
    } else {
      s := |planned| - 1;
      k := AskedForInSwitch(last.ports, c);
    }
  }

  /** ... and every command a planned port asks for is issued. */
  lemma {:induction false} AskedForIsIssued(planned: seq<SwitchPlan>, s: nat, k: nat, c: TcCommand)
    requires IsPlannedAt(planned, s, k) && AsksFor(planned[s].ports[k], c)
    ensures c in AllCommands(planned)
  {
    if s == |planned| - 1 {
      IssuedForSwitch(planned[s].ports, k, c);
    } else {
      AskedForIsIssued(planned[..|planned| - 1], s, k, c);
    }
  }

  ghost predicate HasNoRepeats(cs: seq<TcCommand>) {
    forall i, j | 0 <= i < j < |cs| :: cs[i] != cs[j]
  }

  lemma JoinHasNoRepeats(a: seq<TcCommand>, b: seq<TcCommand>)
    requires HasNoRepeats(a) && HasNoRepeats(b) && forall c | c in b :: c !in a
    ensures HasNoRepeats(a + b)
  {
    var cs := a + b;
    forall i, j | 0 <= i < j < |cs| ensures cs[i] != cs[j] {
      if i < |a| && j >= |a| {
        assert cs[i] in a && cs[j] == b[j - |a|] && b[j - |a|] in b;
      }
    }
  }

  /** No command is issued twice. */
  lemma {:induction false} CommandsAreDistinct(planned: seq<SwitchPlan>)
    requires HasDistinctNames(planned)
    ensures HasNoRepeats(AllCommands(planned))
  {
    if planned != [] {
      var n := |planned| - 1;
      var before, last := planned[..n], planned[n].ports;
      assert forall s, k | IsPlannedAt(before, s, k) :: IsPlannedAt(planned, s, k) && before[s] == planned[s];
      CommandsAreDistinct(before);
      forall j, k | 0 <= j < k < |last| ensures last[j].ifname != last[k].ifname {
        assert IsPlannedAt(planned, n, j) && IsPlannedAt(planned, n, k);
      }
      PortsCommandsAreDistinct(last);
      forall c | c in PortsCommands(last) ensures c !in AllCommands(before) {
        var k := AskedForInSwitch(last, c);
        assert IsPlannedAt(planned, n, k);
        if c in AllCommands(before) {
          var s, k' := IssuedIsAskedFor(before, c);
          assert false;
        }
      }
      JoinHasNoRepeats(AllCommands(before), PortsCommands(last));
    }
  }

  lemma {:induction false} PortsCommandsAreDistinct(ports: seq<PortPlan>)
    requires forall j, k | 0 <= j < k < |ports| :: ports[j].ifname != ports[k].ifname
    ensures HasNoRepeats(PortsCommands(ports))
  {
    if ports != [] {
      var n := |ports| - 1;
      PortsCommandsAreDistinct(ports[..n]);
      forall c | c in PortCommands(ports[n]) ensures c !in PortsCommands(ports[..n]) {
        PortCommandsAre(ports[n], c);
        if c in PortsCommands(ports[..n]) {
          var k := AskedForInSwitch(ports[..n], c);
          assert false;
        }
      }
      JoinHasNoRepeats(PortsCommands(ports[..n]), PortCommands(ports[n]));
    }
  }

  /** Before a filter comes the hook it needs. */
  lemma {:induction false} HookComesFirst(planned: seq<SwitchPlan>, i: nat)
    requires i < |AllCommands(planned)| && AllCommands(planned)[i].AddFilter?
    ensures exists j :: 0 <= j < i && AllCommands(planned)[j] == AddHook(AllCommands(planned)[i].ifname)
  {
    var n := |planned| - 1;
    var before, last := AllCommands(planned[..n]), PortsCommands(planned[n].ports);
    assert AllCommands(planned) == before + last;
    if i < |before| {
      HookComesFirst(planned[..n], i);
      var j :| 0 <= j < i && before[j] == AddHook(before[i].ifname);
      assert AllCommands(planned)[j] == before[j];
    } else {
      var j := HookInSwitch(planned[n].ports, i - |before|);
      assert AllCommands(planned)[|before| + j] == last[j];
    }
  }

  lemma {:induction false} HookInSwitch(ports: seq<PortPlan>, i: nat) returns (j: nat)
    requires i < |PortsCommands(ports)| && PortsCommands(ports)[i].AddFilter?
    ensures j < i && PortsCommands(ports)[j] == AddHook(PortsCommands(ports)[i].ifname)
  {
    var n := |ports| - 1;
    var before, last := PortsCommands(ports[..n]), PortCommands(ports[n]);
    assert PortsCommands(ports) == before + last;
    if i < |before| {
      j := HookInSwitch(ports[..n], i);
    } else {
      j := |before|;
      assert last[0] == AddHook(ports[n].ifname) && last[i - |before|].ifname == ports[n].ifname;
    }
  }

  /** A frame in this direction passes the filter this command adds. */
  ghost predicate IsSeenBy(planned: seq<SwitchPlan>, d: Directed, c: TcCommand) {
    c.AddFilter? && exists at, p :: HasPort(planned, at, p) && p.ifname == c.ifname && Passes(d, Filter(at, c.ingress))
  }

  /** Of all commands issued exactly one adds a filter that a frame in this direction passes: no direction is
      missed and none is counted twice. */
  lemma EveryDirectionIsSeenOnce(m: Model, switches: seq<Switch>, ifindexOf: map<Ifname, int>, planned: seq<SwitchPlan>,
                                 d: Directed)
    requires IsPlan(m, switches, ifindexOf, planned) && HasDistinctNames(planned)
    requires KeepsHostsOffCables(m) && IsSampled(m, switches, d)
    ensures exists i :: IsOnlySighting(planned, d, AllCommands(planned), i)
  {
    var cs := AllCommands(planned);
    var f := EveryDirectionHasOneSide(m, switches, ifindexOf, planned, d);
    var p, i := FilterIsIssued(planned, f);
    assert IsSeenBy(planned, d, cs[i]);
    forall j | 0 <= j < |cs| && IsSeenBy(planned, d, cs[j]) ensures j == i {
      assert cs[j] in cs;
      SeenByItsOwn(m, switches, ifindexOf, planned, d, f, p, cs[j]);
    }
    assert IsOnlySighting(planned, d, cs, i);
  }

  /** A filter of the plan is issued, once. */
  lemma FilterIsIssued(planned: seq<SwitchPlan>, f: Filter) returns (p: PortPlan, i: nat)
    requires HasDistinctNames(planned) && Installs(planned, f)
    ensures HasPort(planned, f.at, p)
    ensures i < |AllCommands(planned)| && AllCommands(planned)[i] == AddFilter(p.ifname, f.ingress)
    ensures forall j | 0 <= j < |AllCommands(planned)| ::
              AllCommands(planned)[j] == AddFilter(p.ifname, f.ingress) ==> j == i
  {
    p :| HasPort(planned, f.at, p) && (if f.ingress then p.ingress else p.egress);
    var s, k :| 0 <= s < |planned| && 0 <= k < |planned[s].ports|
                && planned[s].dpid == f.at.sw && planned[s].ports[k] == p && p.port == f.at.port;
    var c := AddFilter(p.ifname, f.ingress);
    assert IsPlannedAt(planned, s, k) && AsksFor(planned[s].ports[k], c);
    AskedForIsIssued(planned, s, k, c);
    CommandsAreDistinct(planned);
    i :| 0 <= i < |AllCommands(planned)| && AllCommands(planned)[i] == c;
  }

  ghost predicate IsOnlySighting(planned: seq<SwitchPlan>, d: Directed, cs: seq<TcCommand>, i: int) {
    0 <= i < |cs| && IsSeenBy(planned, d, cs[i]) && forall j | 0 <= j < |cs| && IsSeenBy(planned, d, cs[j]) :: j == i
  }

  /** A command whose filter sees the direction is the one of the one side that does. */
  lemma SeenByItsOwn(m: Model, switches: seq<Switch>, ifindexOf: map<Ifname, int>, planned: seq<SwitchPlan>,
                     d: Directed, f: Filter, p: PortPlan, c: TcCommand)
    requires IsPlan(m, switches, ifindexOf, planned) && HasDistinctNames(planned) && HasPort(planned, f.at, p)
    requires c in AllCommands(planned) && IsSeenBy(planned, d, c)
    requires forall g | Installs(planned, g) && Passes(d, g) :: g == f
    ensures c == AddFilter(p.ifname, f.ingress)
  {
    var at, q :| HasPort(planned, at, q) && q.ifname == c.ifname && Passes(d, Filter(at, c.ingress));
    var s, k := IssuedIsAskedFor(planned, c);
    var own := planned[s].ports[k];
    assert HasPort(planned, End(planned[s].dpid, own.port), own);
    SamePortSameName(planned, at, q, End(planned[s].dpid, own.port), own);
    assert Installs(planned, Filter(at, c.ingress));
    OnePlanPerPort(m, switches, ifindexOf, planned, f.at, p, q);
  }
}
