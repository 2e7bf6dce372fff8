/** The emitter's side of link telemetry: the port map read back from the manifest, and what becomes of
    each kernel sample (`PortMap`, `sample_for` and `run` of `p4_proxy/mininet/psample_sflow_emitter.py`;
    `manifest_document` of `p4_proxy/mininet/link_telemetry.py`). */
module TelemetryEmitter {
  import opened Prelude
  import opened LinkTelemetry

  // ---------------------------------------------------------------- the manifest

  datatype ManifestPort = ManifestPort(ifindex: int, key: Key, ingress: bool, egress: bool)

  datatype ManifestSwitch = ManifestSwitch(dpid: Dpid, agent: string, ports: map<Port, ManifestPort>)

  function PortDict(ports: seq<PortPlan>): map<Port, ManifestPort> {
    if ports == [] then map[]
    else
      var p := ports[|ports| - 1];
      PortDict(ports[..|ports| - 1])[p.port := ManifestPort(p.ifindex, p.key, p.ingress, p.egress)]
  }

  /** `manifest_document`, the part the emitter reads. */
  function Document(planned: seq<SwitchPlan>): (doc: seq<ManifestSwitch>)
    ensures |doc| == |planned|
  {
    seq(|planned|, i requires 0 <= i < |planned| =>
          ManifestSwitch(planned[i].dpid, planned[i].agent, PortDict(planned[i].ports)))
  }

  /** The manifest lists port `at` with these properties. */
  ghost predicate Lists(doc: seq<ManifestSwitch>, at: End, p: ManifestPort) {
    exists i :: 0 <= i < |doc| && doc[i].dpid == at.sw && Lookup(doc[i].ports, at.port) == Some(p)
  }

  // ---------------------------------------------------------------- the port map

  /** Where a sample with these bits was taken, per direction. */
  datatype PortMap = PortMap(ingress: map<Key, End>, egress: map<Key, End>)

  /** Every listed side of a port has an entry, and every entry is a listed side of a port. */
  ghost predicate IsMapOf(doc: seq<ManifestSwitch>, m: PortMap) {
    && (forall at, p | Lists(doc, at, p) :: Holds(m, p))
    && HoldsOnlyListed(doc, m)
  }

  ghost predicate HoldsOnlyListed(doc: seq<ManifestSwitch>, m: PortMap) {
    && (forall k | k in m.ingress :: exists p :: Lists(doc, m.ingress[k], p) && p.key == k && p.ingress)
    && (forall k | k in m.egress :: exists p :: Lists(doc, m.egress[k], p) && p.key == k && p.egress)
  }

  ghost predicate Holds(m: PortMap, p: ManifestPort) {
    (p.ingress ==> p.key in m.ingress) && (p.egress ==> p.key in m.egress)
  }

  /** `PortMap.__init__`. Of two ports that report the same bits, the later one stays. */
  method BuildPortMap(doc: seq<ManifestSwitch>) returns (m: PortMap)
    ensures IsMapOf(doc, m)
  {
    m := PortMap(map[], map[]);
    for i := 0 to |doc|
      invariant HoldsOnlyListed(doc, m)
      invariant forall k, port | 0 <= k < i && port in doc[k].ports :: Holds(m, doc[k].ports[port])
    {
      var todo := doc[i].ports.Keys;
      while todo != {}
        invariant todo <= doc[i].ports.Keys && HoldsOnlyListed(doc, m)
        invariant forall k, port | 0 <= k < i && port in doc[k].ports :: Holds(m, doc[k].ports[port])
        invariant forall port | port in doc[i].ports && port !in todo :: Holds(m, doc[i].ports[port])
        decreases todo
      {
        var port :| port in todo;
        var at, p := End(doc[i].dpid, port), doc[i].ports[port];
        assert Lists(doc, at, p);
        m := PortMap(if p.ingress then m.ingress[p.key := at] else m.ingress,
                     if p.egress then m.egress[p.key := at] else m.egress);
        todo := todo - {port};
      }
    }
    forall at, p | Lists(doc, at, p) ensures Holds(m, p) {
      var i :| 0 <= i < |doc| && doc[i].dpid == at.sw && Lookup(doc[i].ports, at.port) == Some(p);
    }
  }

  // ---------------------------------------------------------------- one sample

  /** A decoded kernel sample: an ingress filter reports `iif`, an egress filter `oif`. */
  datatype Decoded =
    Decoded(iif: Option<int>, oif: Option<int>, origSize: Option<int>, rate: Option<int>, group: Option<int>)

  /** Zero stands for "no port" on the side the sample was not taken. */
  datatype Sample = Sample(ingressPort: Port, egressPort: Port, frameLength: int, rate: int)

  const NO_PORT := Port(0)

  datatype Outcome = Made(dpid: Dpid, sample: Sample) | Ambiguous | NoDirection | UnknownIfindex | NoSize

  /** What the emitter read from the manifest; without a group it takes samples of any. */
  datatype Config = Config(ports: PortMap, rate: int, group: Option<int>)

  /** The sample was taken by a filter of this port: it reports the side, and the interface's index or at least
      its low sixteen bits. */
  ghost predicate IsTakenBy(d: Decoded, p: PortPlan) {
    || (d.iif.Some? && d.oif.None? && p.ingress && AgreeInBits(d.iif.value, p.ifindex))
    || (d.oif.Some? && d.iif.None? && p.egress && AgreeInBits(d.oif.value, p.ifindex))
  }

  /** What a sample should become. */
  ghost function SampleFor(d: Decoded, c: Config): Outcome {
    if d.iif.Some? && d.oif.Some? then Ambiguous
    else if d.iif.None? && d.oif.None? then NoDirection
    else
      var ingress := d.iif.Some?;
      var at := if ingress then Lookup(c.ports.ingress, KeyOf(d.iif.value))
                else Lookup(c.ports.egress, KeyOf(d.oif.value));
      if at.None? then UnknownIfindex
      else if d.origSize.None? || d.origSize.value == 0 then NoSize
      else
        Made(at.value.sw, Sample(
          if ingress then at.value.port else NO_PORT,
          if ingress then NO_PORT else at.value.port,
          d.origSize.value,
          if d.rate.Some? && d.rate.value != 0 then d.rate.value else c.rate))
  }

  // ---------------------------------------------------------------- there and back

  function Entry(p: PortPlan): ManifestPort {
    ManifestPort(p.ifindex, p.key, p.ingress, p.egress)
  }

  lemma {:induction false} DictHolds(ports: seq<PortPlan>, port: Port)
    requires forall j, k | 0 <= j < k < |ports| :: ports[j].port != ports[k].port
    ensures port in PortDict(ports) ==>
              exists k :: 0 <= k < |ports| && ports[k].port == port && PortDict(ports)[port] == Entry(ports[k])
    ensures forall k | 0 <= k < |ports| && ports[k].port == port ::
              Lookup(PortDict(ports), port) == Some(Entry(ports[k]))
  {
    if ports != [] {
      var rest := ports[..|ports| - 1];
      DictHolds(rest, port);
      assert forall k | 0 <= k < |rest| :: rest[k] == ports[k];
    }
  }

  ghost predicate HasDistinctPorts(planned: seq<SwitchPlan>) {
    forall i | 0 <= i < |planned| ::
      forall j, k | 0 <= j < k < |planned[i].ports| :: planned[i].ports[j].port != planned[i].ports[k].port
  }

  lemma PlanHasDistinctPorts(m: Model, switches: seq<Switch>, ifindexOf: map<Ifname, int>, planned: seq<SwitchPlan>)
    requires IsPlan(m, switches, ifindexOf, planned)
    ensures HasDistinctPorts(planned)
  {
    forall i | 0 <= i < |planned|
      ensures forall j, k | 0 <= j < k < |planned[i].ports| :: planned[i].ports[j].port != planned[i].ports[k].port
    {
      assert IsSwitchPlan(m, OnLinkPath(switches)[i], ifindexOf, planned[i]);
    }
  }

  /** The manifest lists every planned port. */
  lemma PlannedIsListed(planned: seq<SwitchPlan>, at: End, p: PortPlan)
    requires HasDistinctPorts(planned) && HasPort(planned, at, p)
    ensures Lists(Document(planned), at, Entry(p))
  {
    var s, k :| 0 <= s < |planned| && 0 <= k < |planned[s].ports|
                && planned[s].dpid == at.sw && planned[s].ports[k] == p && p.port == at.port;
    DictHolds(planned[s].ports, at.port);
    assert Document(planned)[s].dpid == at.sw && Lookup(Document(planned)[s].ports, at.port) == Some(Entry(p));
  }

  /** The manifest lists nothing else. */
  lemma ListedIsPlanned(planned: seq<SwitchPlan>, at: End, q: ManifestPort) returns (p: PortPlan)
    requires HasDistinctPorts(planned) && Lists(Document(planned), at, q)
    ensures HasPort(planned, at, p) && q == Entry(p)
  {
    var doc := Document(planned);
    var i :| 0 <= i < |doc| && doc[i].dpid == at.sw && Lookup(doc[i].ports, at.port) == Some(q);
    DictHolds(planned[i].ports, at.port);
    var k :| 0 <= k < |planned[i].ports| && planned[i].ports[k].port == at.port && q == Entry(planned[i].ports[k]);
    p := planned[i].ports[k];
  }

  lemma SameKeySameName(m: Model, switches: seq<Switch>, ifindexOf: map<Ifname, int>, planned: seq<SwitchPlan>,
                        at: End, p: PortPlan, at': End, p': PortPlan)
    requires IsPlan(m, switches, ifindexOf, planned)
    requires HasPort(planned, at, p) && HasPort(planned, at', p') && p.key == p'.key
    ensures p.ifname == p'.ifname
  {
    var byKey :| AreAllKeyed(byKey, planned);
    var s, k :| 0 <= s < |planned| && 0 <= k < |planned[s].ports| && planned[s].ports[k] == p;
    var s', k' :| 0 <= s' < |planned| && 0 <= k' < |planned[s'].ports| && planned[s'].ports[k'] == p';
    assert AreKeyed(byKey, planned[s].ports) && AreKeyed(byKey, planned[s'].ports);
  }

  /** Through plan, manifest and port map, the bits of a planned port lead back to that port. */
  lemma KeyLeadsBack(m: Model, switches: seq<Switch>, ifindexOf: map<Ifname, int>, planned: seq<SwitchPlan>,
                     ports: PortMap, at: End, p: PortPlan)
    requires IsPlan(m, switches, ifindexOf, planned) && HasDistinctNames(planned) && IsMapOf(Document(planned), ports)
    requires HasPort(planned, at, p)
    ensures p.ingress ==> Lookup(ports.ingress, p.key) == Some(at)
    ensures p.egress ==> Lookup(ports.egress, p.key) == Some(at)
  {
    PlanHasDistinctPorts(m, switches, ifindexOf, planned);
    PlannedIsListed(planned, at, p);
    if p.ingress {
      var q :| Lists(Document(planned), ports.ingress[p.key], q) && q.key == p.key;
      var p' := ListedIsPlanned(planned, ports.ingress[p.key], q);
      SameKeySameName(m, switches, ifindexOf, planned, at, p, ports.ingress[p.key], p');
      SamePortSameName(planned, at, p, ports.ingress[p.key], p');
    }
    if p.egress {
      var q :| Lists(Document(planned), ports.egress[p.key], q) && q.key == p.key;
      var p' := ListedIsPlanned(planned, ports.egress[p.key], q);
      SameKeySameName(m, switches, ifindexOf, planned, at, p, ports.egress[p.key], p');
      SamePortSameName(planned, at, p, ports.egress[p.key], p');
    }
  }

  /** The manifest lists the switches on the link path, in order, each with the agent address the model gives it. */
  lemma AgentsAreListed(m: Model, switches: seq<Switch>, ifindexOf: map<Ifname, int>, planned: seq<SwitchPlan>, i: nat)
    requires IsPlan(m, switches, ifindexOf, planned) && i < |planned|
    ensures |Document(planned)| == |OnLinkPath(switches)|
    ensures Document(planned)[i].dpid == OnLinkPath(switches)[i].dpid
    ensures Lookup(m.agents, Document(planned)[i].dpid) == Some(Document(planned)[i].agent)
  {
    assert IsSwitchPlan(m, OnLinkPath(switches)[i], ifindexOf, planned[i]);
  }

  /** An entry of the port map belongs to a planned filter with those bits. */
  lemma EntryIsPlanned(planned: seq<SwitchPlan>, ports: PortMap, key: Key, ingress: bool, at: End) returns (p: PortPlan)
    requires HasDistinctPorts(planned) && IsMapOf(Document(planned), ports)
    requires Lookup(if ingress then ports.ingress else ports.egress, key) == Some(at)
    ensures HasPort(planned, at, p) && p.key == key && (if ingress then p.ingress else p.egress)
  {
    var q :| Lists(Document(planned), at, q) && q.key == key && (if ingress then q.ingress else q.egress);
    p := ListedIsPlanned(planned, at, q);
  }

  /** The attribution of a sample names the side it was taken on and nothing on the other. */
  ghost predicate IsAttributedTo(o: Outcome, at: End, ingress: bool) {
    && o.Made? && o.dpid == at.sw
    && o.sample.ingressPort == (if ingress then at.port else NO_PORT)
    && o.sample.egressPort == (if ingress then NO_PORT else at.port)
  }

  /** The sample says how long the frame was, and how often one is taken: as the kernel states it, and as planned
      where it does not. */
  ghost predicate IsMeasuredBy(o: Outcome, d: Decoded, c: Config) {
    && o.Made? && d.origSize == Some(o.sample.frameLength)
    && (d.rate.None? || d.rate == Some(0) ==> o.sample.rate == c.rate)
    && (d.rate.Some? && d.rate != Some(0) ==> d.rate == Some(o.sample.rate))
  }

  lemma AttributionFollowsMap(d: Decoded, c: Config, at: End, p: PortPlan)
    requires IsTakenBy(d, p) && p.key == KeyOf(p.ifindex)
    requires Lookup(if d.iif.Some? then c.ports.ingress else c.ports.egress, p.key) == Some(at)
    ensures d.origSize.None? || d.origSize == Some(0) ==> SampleFor(d, c) == NoSize
    ensures d.origSize.Some? && d.origSize != Some(0) ==>
              IsAttributedTo(SampleFor(d, c), at, d.iif.Some?) && IsMeasuredBy(SampleFor(d, c), d, c)
  {
    KeyIsBits(if d.iif.Some? then d.iif.value else d.oif.value, p.ifindex);
  }

  lemma PlannedKey(m: Model, switches: seq<Switch>, ifindexOf: map<Ifname, int>, planned: seq<SwitchPlan>, at: End,
                   p: PortPlan)
    requires IsPlan(m, switches, ifindexOf, planned) && HasPort(planned, at, p)
    ensures p.key == KeyOf(p.ifindex)
  {
  }

  /** A sample taken by a planned filter, whatever the upper bits of the interface index, is attributed to
      exactly its switch, its port and its direction, with the length the frame had on the wire and the rate it
      was taken at. */
  lemma SampleComesBack(m: Model, switches: seq<Switch>, ifindexOf: map<Ifname, int>, planned: seq<SwitchPlan>,
                        c: Config, at: End, p: PortPlan, d: Decoded)
    requires IsPlan(m, switches, ifindexOf, planned) && HasDistinctNames(planned) && IsMapOf(Document(planned), c.ports)
    requires HasPort(planned, at, p) && IsTakenBy(d, p) && d.origSize.Some? && d.origSize.value != 0
    ensures IsAttributedTo(SampleFor(d, c), at, d.iif.Some?) && IsMeasuredBy(SampleFor(d, c), d, c)
  {
    KeyLeadsBack(m, switches, ifindexOf, planned, c.ports, at, p);
    PlannedKey(m, switches, ifindexOf, planned, at, p);
    AttributionFollowsMap(d, c, at, p);
  }

  lemma MadeFromMap(d: Decoded, c: Config) returns (key: Key, at: End)
    requires SampleFor(d, c).Made?
    ensures d.iif.Some? != d.oif.Some? && key == KeyOf(if d.iif.Some? then d.iif.value else d.oif.value)
    ensures Lookup(if d.iif.Some? then c.ports.ingress else c.ports.egress, key) == Some(at)
    ensures IsAttributedTo(SampleFor(d, c), at, d.iif.Some?)
  {
    key := KeyOf(if d.iif.Some? then d.iif.value else d.oif.value);
    at := if d.iif.Some? then c.ports.ingress[key] else c.ports.egress[key];
  }

  /** A sample is attributed to a port only if a planned filter of that port took it. */
  lemma OnlyPlannedFiltersCount(m: Model, switches: seq<Switch>, ifindexOf: map<Ifname, int>, planned: seq<SwitchPlan>,
                                c: Config, d: Decoded)
    requires IsPlan(m, switches, ifindexOf, planned) && IsMapOf(Document(planned), c.ports) && SampleFor(d, c).Made?
    ensures exists at, p :: && HasPort(planned, at, p) && IsTakenBy(d, p)
                            && IsAttributedTo(SampleFor(d, c), at, d.iif.Some?)
  {
    PlanHasDistinctPorts(m, switches, ifindexOf, planned);
    var key, at := MadeFromMap(d, c);
    var p := EntryIsPlanned(planned, c.ports, key, d.iif.Some?, at);
    PlannedKey(m, switches, ifindexOf, planned, at, p);
    KeyIsBits(if d.iif.Some? then d.iif.value else d.oif.value, p.ifindex);
  }

  /** A planned filter took the sample. */
  ghost predicate IsPlanned(planned: seq<SwitchPlan>, d: Decoded) {
    exists at, p :: HasPort(planned, at, p) && IsTakenBy(d, p)
  }

  /** A sample is dropped for exactly one reason, and that is the right one: it reports both sides, or none, or
      no planned filter took it, or it does not say how long the frame was. */
  lemma DropsForTheReason(m: Model, switches: seq<Switch>, ifindexOf: map<Ifname, int>, planned: seq<SwitchPlan>,
                          c: Config, d: Decoded)
    requires IsPlan(m, switches, ifindexOf, planned) && HasDistinctNames(planned) && IsMapOf(Document(planned), c.ports)
    ensures SampleFor(d, c) == Ambiguous <==> d.iif.Some? && d.oif.Some?
    ensures SampleFor(d, c) == NoDirection <==> d.iif.None? && d.oif.None?
    ensures SampleFor(d, c) == UnknownIfindex <==> d.iif.Some? != d.oif.Some? && !IsPlanned(planned, d)
    ensures SampleFor(d, c) == NoSize <==> IsPlanned(planned, d) && (d.origSize.None? || d.origSize == Some(0))
  {
    if IsPlanned(planned, d) {
      var at, p :| HasPort(planned, at, p) && IsTakenBy(d, p);
      KeyLeadsBack(m, switches, ifindexOf, planned, c.ports, at, p);
      PlannedKey(m, switches, ifindexOf, planned, at, p);
      AttributionFollowsMap(d, c, at, p);
    } else if d.iif.Some? != d.oif.Some? {
      var i, side := if d.iif.Some? then d.iif.value else d.oif.value,
                     if d.iif.Some? then c.ports.ingress else c.ports.egress;
      if KeyOf(i) in side {
        PlanHasDistinctPorts(m, switches, ifindexOf, planned);
        var p := EntryIsPlanned(planned, c.ports, KeyOf(i), d.iif.Some?, side[KeyOf(i)]);
        PlannedKey(m, switches, ifindexOf, planned, side[KeyOf(i)], p);
        KeyIsBits(i, p.ifindex);
      }
    }
  }

  // ---------------------------------------------------------------- the counters

  /** What the socket delivers: no sample at all, a sample that cannot be decoded, or one that can. */
  datatype Message = OtherTraffic | Garbled | Psample(decoded: Decoded)

  /** What should become of a message. */
  datatype Fate =
    NotASample | Undecodable | OfOtherGroup | IsAmbiguous | HasNoDirection | IsUnknown | HasNoSize | IsSent

  ghost function FateOf(m: Message, c: Config): Fate {
    match m
    case OtherTraffic => NotASample
    case Garbled => Undecodable
    case Psample(d) =>
      if c.group.Some? && d.group != c.group then OfOtherGroup
      else
        match SampleFor(d, c)
        case Made(_, _) => IsSent
        case Ambiguous => IsAmbiguous
        case NoDirection => HasNoDirection
        case UnknownIfindex => IsUnknown
        case NoSize => HasNoSize
  }

  /** A message leads to an emission exactly when it is a sample of the right group, taken by a planned filter,
      that says how long the frame was. */
  lemma SentWhenPlanned(m: Model, switches: seq<Switch>, ifindexOf: map<Ifname, int>, planned: seq<SwitchPlan>,
                        c: Config, message: Message)
    requires IsPlan(m, switches, ifindexOf, planned) && HasDistinctNames(planned) && IsMapOf(Document(planned), c.ports)
    ensures FateOf(message, c).IsSent? <==>
              && message.Psample? && (c.group.None? || message.decoded.group == c.group)
              && IsPlanned(planned, message.decoded)
              && message.decoded.origSize.Some? && message.decoded.origSize != Some(0)
  {
    if message.Psample? {
      DropsForTheReason(m, switches, ifindexOf, planned, c, message.decoded);
    }
  }

  /** What should have been sent so far, and how often each fate has befallen a message. */
  datatype Account = Account(sent: seq<Outcome>, fates: multiset<Fate>)

  ghost function Entered(a: Account, m: Message, c: Config): Account {
    Account(a.sent + (if FateOf(m, c).IsSent? then [SampleFor(m.decoded, c)] else []), a.fates + multiset{FateOf(m, c)})
  }

  ghost predicate IsStep(messages: seq<Message>, accounts: seq<Account>, c: Config, k: nat)
    requires k < |messages| && |accounts| == |messages| + 1
  {
    accounts[k + 1] == Entered(accounts[k], messages[k], c)
  }

  /** `accounts[k]` is the account of the first `k` messages. */
  ghost predicate IsRecord(messages: seq<Message>, accounts: seq<Account>, c: Config) {
    && |accounts| == |messages| + 1 && accounts[0] == Account([], multiset{})
    && forall k | 0 <= k < |messages| :: IsStep(messages, accounts, c, k)
  }

  lemma RecordGrows(messages: seq<Message>, accounts: seq<Account>, c: Config, m: Message)
    requires IsRecord(messages, accounts, c)
    ensures IsRecord(messages + [m], accounts + [Entered(accounts[|messages|], m, c)], c)
  {
    var messages', accounts' := messages + [m], accounts + [Entered(accounts[|messages|], m, c)];
    forall k | 0 <= k < |messages'| ensures IsStep(messages', accounts', c, k) {
      assert k < |messages| ==> IsStep(messages, accounts, c, k);
    }
  }

  /** Every message has exactly one fate, and as many samples are sent as have that fate. */
  ghost predicate AddsUp(a: Account, messages: nat) {
    var n := a.fates;
    && messages == n[NotASample] + n[Undecodable] + n[OfOtherGroup] + n[IsAmbiguous] + n[HasNoDirection] + n[IsUnknown]
                   + n[HasNoSize] + n[IsSent]
    && |a.sent| == n[IsSent]
  }

  lemma OneMoreFate(a: Account, f: Fate, more: seq<Outcome>, n: nat)
    requires AddsUp(a, n) && |more| == if f.IsSent? then 1 else 0
    ensures AddsUp(Account(a.sent + more, a.fates + multiset{f}), n + 1)
  {
  }

  lemma EnteredAddsUp(a: Account, m: Message, c: Config, n: nat)
    requires AddsUp(a, n)
    ensures AddsUp(Entered(a, m, c), n + 1)
  {
    OneMoreFate(a, FateOf(m, c), if FateOf(m, c).IsSent? then [SampleFor(m.decoded, c)] else [], n);
  }

  lemma {:induction false} EveryMessageHasOneFate(messages: seq<Message>, accounts: seq<Account>, c: Config, n: nat)
    requires IsRecord(messages, accounts, c) && n <= |messages|
    ensures AddsUp(accounts[n], n)
  {
    if n > 0 {
      EveryMessageHasOneFate(messages, accounts, c, n - 1);
      EnteredAddsUp(accounts[n - 1], messages[n - 1], c, n - 1);
      assert IsStep(messages, accounts, c, n - 1);
    }
  }

  /** What one turn of the loop receives: messages, the news that the kernel dropped some, or nothing. */
  datatype Received = Batch(messages: seq<Message>) | NoBuffers | Interrupted

  ghost function Messages(received: seq<Received>): seq<Message> {
    if received == [] then []
    else
      var r := received[|received| - 1];
      Messages(received[..|received| - 1]) + (if r.Batch? then r.messages else [])
  }

  ghost function CountNoBuffers(received: seq<Received>): nat {
    if received == [] then 0
    else CountNoBuffers(received[..|received| - 1]) + (if received[|received| - 1].NoBuffers? then 1 else 0)
  }

  /** The switches whose samples went out, when `goes(k)` says whether the `k`-th one did. */
  ghost function WentOut(sent: seq<Outcome>, goes: nat -> bool): seq<Dpid> {
    if sent == [] then []
    else
      var n := |sent| - 1;
      WentOut(sent[..n], goes) + (if goes(n) && sent[n].Made? then [sent[n].dpid] else [])
  }

  function Credit(credits: map<Dpid, int>, d: Dpid): int {
    if d in credits then credits[d] else 0
  }

  /** The loop's counters (`Stats`) and the switches' port map. */
  class Emitter {
    const c: Config
    /** Whether the k-th sample handed to the sender goes out: any sequence at all. */
    const goes: nat -> bool
    var samples: int
    var emitted: int
    var emitFailed: int
    var droppedUnknownIfindex: int
    var droppedNoDirection: int
    var droppedAmbiguous: int
    var droppedNoSize: int
    var droppedOtherGroup: int
    var droppedDecodeError: int
    var noBuffers: int
    var credits: map<Dpid, int>
    /** Every message received and every sample handed to the sender, in order. */
    ghost var seen: seq<Message>
    ghost var sent: seq<Outcome>
    ghost var accounts: seq<Account>

    /** The counters are right, and what was sent is what should have been. */
    ghost predicate Valid()
      reads this
    {
      && IsRecord(seen, accounts, c) && IsCounted(|seen|, accounts[|seen|].fates)
      && IsSendingCounted() && sent == accounts[|seen|].sent
    }

    /** Each counter counts its own kind, of this many messages. */
    ghost predicate IsCounted(messages: nat, n: multiset<Fate>)
      reads this`samples, this`droppedUnknownIfindex, this`droppedNoDirection, this`droppedAmbiguous,
            this`droppedNoSize, this`droppedOtherGroup, this`droppedDecodeError
    {
      && samples == messages - n[NotASample] - n[Undecodable] - n[OfOtherGroup]
      && droppedUnknownIfindex == n[IsUnknown] && droppedNoDirection == n[HasNoDirection]
      && droppedAmbiguous == n[IsAmbiguous] && droppedNoSize == n[HasNoSize]
      && droppedOtherGroup == n[OfOtherGroup] && droppedDecodeError == n[Undecodable]
    }

    /** The samples that went out are counted, in all and for each switch, and so are those that did not. */
    ghost predicate IsSendingCounted()
      reads this`emitted, this`emitFailed, this`credits, this`sent
    {
      && emitted == |WentOut(sent, goes)| && emitted + emitFailed == |sent|
      && forall d :: Credit(credits, d) == multiset(WentOut(sent, goes))[d]
    }

    constructor (c: Config, goes: nat -> bool)
      ensures Valid() && this.c == c && this.goes == goes && seen == [] && noBuffers == 0
    {
      this.c, this.goes := c, goes;
      samples, emitted, emitFailed := 0, 0, 0;
      droppedUnknownIfindex, droppedNoDirection, droppedAmbiguous, droppedNoSize := 0, 0, 0, 0;
      droppedOtherGroup, droppedDecodeError, noBuffers, credits := 0, 0, 0, map[];
      seen, sent, accounts := [], [], [Account([], multiset{})];
    }

    /** `sample_for`: a sample, or none and one counter credited. */
    method Convert(d: Decoded) returns (made: Option<Outcome>)
      modifies this`droppedAmbiguous, this`droppedNoDirection, this`droppedUnknownIfindex, this`droppedNoSize
      ensures made == (if SampleFor(d, c).Made? then Some(SampleFor(d, c)) else None)
      ensures droppedAmbiguous == old(droppedAmbiguous) + (if SampleFor(d, c) == Ambiguous then 1 else 0)
      ensures droppedNoDirection == old(droppedNoDirection) + (if SampleFor(d, c) == NoDirection then 1 else 0)
      ensures droppedUnknownIfindex == old(droppedUnknownIfindex) + (if SampleFor(d, c) == UnknownIfindex then 1 else 0)
      ensures droppedNoSize == old(droppedNoSize) + (if SampleFor(d, c) == NoSize then 1 else 0)
    {
      if d.iif.Some? && d.oif.Some? {
        droppedAmbiguous := droppedAmbiguous + 1;
        return None;
      }
      var at: Option<End>, ingress;
      if d.iif.Some? {
        at, ingress := Lookup(c.ports.ingress, KeyOf(d.iif.value)), true;
      } else if d.oif.Some? {
        at, ingress := Lookup(c.ports.egress, KeyOf(d.oif.value)), false;
      } else {
        droppedNoDirection := droppedNoDirection + 1;
        return None;
      }
      if at.None? {
        droppedUnknownIfindex := droppedUnknownIfindex + 1;
        return None;
      }
      if d.origSize.None? || d.origSize.value == 0 {
        droppedNoSize := droppedNoSize + 1;
        return None;
      }
      var rate := if d.rate.Some? && d.rate.value != 0 then d.rate.value else c.rate;
      var port := at.value.port;
      return Some(Made(at.value.sw, Sample(if ingress then port else NO_PORT, if ingress then NO_PORT else port,
                                           d.origSize.value, rate)));
    }

    /** A sample is handed to the sender. */
    method Emit(made: Outcome, ghost n: nat)
      requires IsSendingCounted() && made.Made? && n == |sent|
      modifies this`emitted, this`emitFailed, this`credits, this`sent
      ensures IsSendingCounted() && sent == old(sent) + [made]
    {
      assert (sent + [made])[..n] == sent;
      var ok := goes(emitted + emitFailed);
      sent := sent + [made];
      if ok {
        emitted := emitted + 1;
        credits := credits[made.dpid := Credit(credits, made.dpid) + 1];
      } else {
        emitFailed := emitFailed + 1;
      }
    }

    /** What becomes of a message, up to the sender. */
    method Tally(message: Message, ghost messages: nat, ghost fates: multiset<Fate>) returns (made: Option<Outcome>)
      requires IsCounted(messages, fates)
      modifies this`samples, this`droppedUnknownIfindex, this`droppedNoDirection, this`droppedAmbiguous,
               this`droppedNoSize, this`droppedOtherGroup, this`droppedDecodeError
      ensures IsCounted(messages + 1, fates + multiset{FateOf(message, c)})
      ensures made.Some? <==> FateOf(message, c).IsSent?
      ensures made.Some? ==> made.value.Made? && made.value == SampleFor(message.decoded, c)
    {
      if message.OtherTraffic? {
        return None;
      }
      if message.Garbled? {
        droppedDecodeError := droppedDecodeError + 1;
        return None;
      }
      if c.group.Some? && message.decoded.group != c.group {
        droppedOtherGroup := droppedOtherGroup + 1;
        return None;
      }
      samples := samples + 1;
      made := Convert(message.decoded);
    }

    /** One message. */
    method Handle(message: Message)
      requires Valid()
      modifies this
      ensures Valid() && seen == old(seen) + [message] && noBuffers == old(noBuffers)
    {
      ghost var a := accounts[|seen|];
      var made := Tally(message, |seen|, a.fates);
      RecordGrows(seen, accounts, c, message);
      seen, accounts := seen + [message], accounts + [Entered(a, message, c)];
      if made.Some? {
        Emit(made.value, |sent|);
      }
    }

    method HandleAll(messages: seq<Message>)
      requires Valid()
      modifies this
      ensures Valid() && seen == old(seen) + messages && noBuffers == old(noBuffers)
    {
      for i := 0 to |messages|
        invariant Valid() && seen == old(seen) + messages[..i] && noBuffers == old(noBuffers)
      {
        Handle(messages[i]);
      }
    }

    /** One turn of the loop. */
    method Take(r: Received)
      requires Valid()
      modifies this
      ensures Valid() && seen == old(seen) + (if r.Batch? then r.messages else [])
      ensures noBuffers == old(noBuffers) + (if r.NoBuffers? then 1 else 0)
    {
      match r {
        case Batch(messages) => HandleAll(messages);
        case NoBuffers => noBuffers := noBuffers + 1;
        case Interrupted =>
      }
    }

    /** The loop: whatever arrives, every message is accounted for, and no sample is in two counters. */
    method Run(received: seq<Received>)
      requires Valid()
      modifies this
      ensures Valid() && seen == old(seen) + Messages(received)
      ensures noBuffers == old(noBuffers) + CountNoBuffers(received)
      ensures samples == emitted + emitFailed
                         + droppedUnknownIfindex + droppedNoDirection + droppedAmbiguous + droppedNoSize
    {
      for i := 0 to |received|
        invariant Valid() && seen == old(seen) + Messages(received[..i])
        invariant noBuffers == old(noBuffers) + CountNoBuffers(received[..i])
      {
        assert received[..i + 1][..i] == received[..i] && received[..i + 1][i] == received[i];
        Take(received[i]);
      }
      assert received[..|received|] == received;
      CountersBalance();
    }

    /** Every sample is emitted, fails to be emitted, or is dropped for one of four reasons. */
    lemma CountersBalance()
      requires Valid()
      ensures samples == emitted + emitFailed
                         + droppedUnknownIfindex + droppedNoDirection + droppedAmbiguous + droppedNoSize
    {
      EveryMessageHasOneFate(seen, accounts, c, |seen|);
    }
  }
}
