/** Following the forwarding tables one switch at a time (`examples/p4_energy_saving/route_walk.py`). */
module RouteWalk {
  import opened Prelude

  /** An IPv4 address, as the number its four octets denote. */
  datatype Ip = Ip(addr: int)

  type PrefixLen = n: nat | n <= 32

  /** A destination match: `[value, prefix_len]` for lpm, the address itself for exact. */
  datatype Match = Lpm(value: Ip, plen: PrefixLen) | Exact(ip: Ip)

  /** A table entry. `dst` is None when the entry's match does not hold the destination field,
      `port` is None when its action has no egress-port parameter. */
  datatype Entry = Entry(dst: Option<Match>, priority: Option<int>, port: Option<Port>)

  type Tables = map<Dpid, seq<Entry>>
  type Links = map<Dpid, map<Port, Dpid>>

  /** Where each host is attached: the switch and its port. */
  type Hosts = map<Ip, End>

  function Pow2(n: nat): (p: nat)
    ensures p > 0
  {
    if n == 0 then 1 else 2 * Pow2(n - 1)
  }

  /** How specifically a match holds `ip`, or None when it does not hold it. */
  function PrefixLength(m: Match, ip: Ip): (r: Option<nat>) {
    match m
    case Lpm(value, plen) =>
      var block := Pow2(32 - plen);
      if ip.addr / block == value.addr / block then Some(plen) else None
    case Exact(value) => if value == ip then Some(32) else None
  }

  function EntryLength(e: Entry, ip: Ip): Option<nat> {
    if e.dst.None? then None else PrefixLength(e.dst.value, ip)
  }

  predicate Covers(e: Entry, ip: Ip) {
    EntryLength(e, ip).Some?
  }

  /** Entry `i` is the one longest-prefix matching selects: no entry that holds `ip` is more
      specific, and no earlier one is as specific. */
  ghost predicate Selects(entries: seq<Entry>, ip: Ip, i: nat) {
    && i < |entries|
    && Covers(entries[i], ip)
    && (forall j | 0 <= j < |entries| && Covers(entries[j], ip) ::
          EntryLength(entries[j], ip).value <= EntryLength(entries[i], ip).value)
    && (forall j | 0 <= j < i && Covers(entries[j], ip) ::
          EntryLength(entries[j], ip).value < EntryLength(entries[i], ip).value)
  }

  /** The index the scan settles on. */
  function Best(entries: seq<Entry>, ip: Ip): (r: Option<nat>)
    ensures r.Some? ==> r.value < |entries| && Covers(entries[r.value], ip)
  {
    if entries == [] then None
    else
      var last := |entries| - 1;
      var sofar := Best(entries[..last], ip);
      if !Covers(entries[last], ip) then sofar
      else if sofar.None? || EntryLength(entries[sofar.value], ip).value < EntryLength(entries[last], ip).value
      then Some(last)
      else sofar
  }

  /** The scan settles on the entry longest-prefix matching selects, the first among equals. */
  lemma {:induction false} BestSelects(entries: seq<Entry>, ip: Ip)
    ensures var r := Best(entries, ip);
            && (r.Some? ==> Selects(entries, ip, r.value))
            && (r.None? ==> forall j | 0 <= j < |entries| :: !Covers(entries[j], ip))
  {
    if entries != [] {
      var last := |entries| - 1;
      BestSelects(entries[..last], ip);
      assert forall j | 0 <= j < last :: entries[..last][j] == entries[j];
    }
  }

  function PortFor(entries: seq<Entry>, ip: Ip): Option<Port> {
    var b := Best(entries, ip);
    if b.None? then None else entries[b.value].port
  }

  /** The scan of `next_port`: the egress port of the first most specific entry. */
  method NextPort(entries: seq<Entry>, ip: Ip) returns (port: Option<Port>)
    ensures port == PortFor(entries, ip)
    ensures forall i: nat | Selects(entries, ip, i) :: port == entries[i].port
    ensures (forall e | e in entries :: !Covers(e, ip)) ==> port == None
  {
    var bestLen: int, best := -1, None;
    for i := 0 to |entries|
      invariant best == Best(entries[..i], ip)
      invariant bestLen == if best.None? then -1 else EntryLength(entries[best.value], ip).value
    {
      assert entries[..i + 1][..i] == entries[..i];
      var length := EntryLength(entries[i], ip);
      if length.Some? && length.value > bestLen {
        bestLen, best := length.value, Some(i);
      }
    }
    assert entries[..|entries|] == entries;
    BestSelects(entries, ip);
    port := if best.None? then None else entries[best.value].port;
  }

  /** Longest-prefix selection depends on the matches only, never on the ports. */
  lemma {:induction false} SelectionIgnoresPorts(a: seq<Entry>, b: seq<Entry>, ip: Ip)
    requires |a| == |b|
    requires forall i | 0 <= i < |a| :: a[i].dst == b[i].dst
    ensures Best(a, ip) == Best(b, ip)
  {
    if a != [] {
      SelectionIgnoresPorts(a[..|a| - 1], b[..|b| - 1], ip);
    }
  }

  // ---------------------------------------------------------------- one hop

  /** What a switch does with a packet. */
  datatype Hop = Drop | Deliver | Forward(next: Dpid)

  /** The fabric a packet crosses. */
  datatype Fabric = Fabric(tables: Tables, links: Links, hosts: Hosts)

  function NextHop(f: Fabric, here: Dpid, dst: Ip): Hop {
    if here !in f.tables then Drop
    else
      var port := PortFor(f.tables[here], dst);
      if port.None? then Drop
      else if Lookup(f.hosts, dst) == Some(End(here, port.value)) then Deliver
      else if here in f.links && port.value in f.links[here] then Forward(f.links[here][port.value])
      else Drop
  }

  /** The entry that longest-prefix matching selects sends the packet out of `port`. */
  ghost predicate LeavesBy(f: Fabric, here: Dpid, dst: Ip, port: Port) {
    here in f.tables && exists i: nat :: Selects(f.tables[here], dst, i) && f.tables[here][i].port == Some(port)
  }

  lemma SelectsOne(entries: seq<Entry>, ip: Ip, i: nat, j: nat)
    requires Selects(entries, ip, i) && Selects(entries, ip, j)
    ensures i == j
  {
  }

  /** A packet goes where the selected entry's port leads: to the host if that is plugged in there, else along the
      link if there is one, and nowhere if there is neither, no port, or no entry. */
  lemma HopFollowsTable(f: Fabric, here: Dpid, dst: Ip)
    ensures NextHop(f, here, dst) == Deliver <==>
              exists p :: LeavesBy(f, here, dst, p) && Lookup(f.hosts, dst) == Some(End(here, p))
    ensures forall next :: NextHop(f, here, dst) == Forward(next) <==>
              exists p :: && LeavesBy(f, here, dst, p) && Lookup(f.hosts, dst) != Some(End(here, p))
                          && here in f.links && Lookup(f.links[here], p) == Some(next)
  {
    if here in f.tables {
      var entries := f.tables[here];
      BestSelects(entries, dst);
      forall i: nat | Selects(entries, dst, i) ensures Best(entries, dst) == Some(i) {
        if Best(entries, dst).Some? {
          SelectsOne(entries, dst, i, Best(entries, dst).value);
        }
      }
      forall p ensures LeavesBy(f, here, dst, p) <==> PortFor(entries, dst) == Some(p) {
        if PortFor(entries, dst) == Some(p) {
          assert Selects(entries, dst, Best(entries, dst).value);
        }
      }
    }
  }

  /** A packet at `here` is delivered after exactly `n` forwardings. */
  ghost predicate DeliversIn(f: Fabric, here: Dpid, dst: Ip, n: nat)
    decreases n
  {
    var hop := NextHop(f, here, dst);
    if n == 0 then hop.Deliver?
    else hop.Forward? && DeliversIn(f, hop.next, dst, n - 1)
  }

  ghost predicate Delivers(f: Fabric, here: Dpid, dst: Ip) {
    exists n: nat :: DeliversIn(f, here, dst, n)
  }

  /** `path` is the sequence of switches a packet visits, each forwarding to the next. */
  ghost predicate IsTrace(f: Fabric, dst: Ip, path: seq<Dpid>) {
    forall i | 0 <= i < |path| - 1 :: NextHop(f, path[i], dst) == Forward(path[i + 1])
  }

  ghost predicate Distinct<T>(s: seq<T>) {
    forall i, j | 0 <= i < j < |s| :: s[i] != s[j]
  }

  /** The loop-free path of a delivered packet: from `src` to the switch that hands it to the host. */
  ghost predicate IsDeliveryPath(f: Fabric, src: Dpid, dst: Ip, path: seq<Dpid>) {
    && |path| > 0 && path[0] == src
    && IsTrace(f, dst, path)
    && NextHop(f, path[|path| - 1], dst).Deliver?
  }

  /** Forwarding is deterministic, so the number of hops to delivery is unique. */
  lemma {:induction false} HopCountUnique(f: Fabric, here: Dpid, dst: Ip, m: nat, n: nat)
    requires DeliversIn(f, here, dst, m) && DeliversIn(f, here, dst, n)
    ensures m == n
    decreases m
  {
    if m > 0 && n > 0 {
      HopCountUnique(f, NextHop(f, here, dst).next, dst, m - 1, n - 1);
    }
  }

  /** Delivery from the start of a trace is delivery from its end, that many hops later. */
  lemma {:induction false} AlongTrace(f: Fabric, dst: Ip, path: seq<Dpid>, k: nat, n: nat)
    requires k < |path| && IsTrace(f, dst, path)
    requires DeliversIn(f, path[0], dst, n)
    ensures n >= k && DeliversIn(f, path[k], dst, n - k)
  {
    if k > 0 {
      AlongTrace(f, dst, path, k - 1, n);
      assert NextHop(f, path[k - 1], dst) == Forward(path[k]);
    }
  }

  /** A packet that comes back to a switch it has visited is never delivered. */
  lemma {:induction false} LoopNeverDelivers(f: Fabric, dst: Ip, path: seq<Dpid>, k: nat)
    requires k < |path| - 1 && IsTrace(f, dst, path) && path[k] == path[|path| - 1]
    ensures !Delivers(f, path[0], dst)
  {
    if n: nat :| DeliversIn(f, path[0], dst, n) {
      AlongTrace(f, dst, path, k, n);
      AlongTrace(f, dst, path, |path| - 1, n);
      HopCountUnique(f, path[k], dst, n - k, n - (|path| - 1));
      assert false;
    }
  }

  lemma {:induction false} PathDelivers(f: Fabric, dst: Ip, path: seq<Dpid>)
    requires |path| > 0 && IsTrace(f, dst, path) && NextHop(f, path[|path| - 1], dst).Deliver?
    ensures DeliversIn(f, path[0], dst, |path| - 1)
  {
    if |path| > 1 {
      assert NextHop(f, path[0], dst) == Forward(path[1]);
      forall i | 0 <= i < |path[1..]| - 1
        ensures NextHop(f, path[1..][i], dst) == Forward(path[1..][i + 1])
      {
        assert NextHop(f, path[i + 1], dst) == Forward(path[i + 2]);
      }
      PathDelivers(f, dst, path[1..]);
    }
  }

  /** A packet that stops at the end of a trace is never delivered. */
  lemma {:induction false} DeadEndNeverDelivers(f: Fabric, dst: Ip, path: seq<Dpid>)
    requires |path| > 0 && IsTrace(f, dst, path) && NextHop(f, path[|path| - 1], dst).Drop?
    ensures !Delivers(f, path[0], dst)
  {
    if n: nat :| DeliversIn(f, path[0], dst, n) {
      AlongTrace(f, dst, path, |path| - 1, n);
      assert false;
    }
  }

  // ---------------------------------------------------------------- the walk

  /** One turn of `walk`. */
  method TakeHop(f: Fabric, here: Dpid, dst: Ip) returns (hop: Hop)
    ensures hop == NextHop(f, here, dst) && (!hop.Drop? ==> here in f.tables)
  {
    if here !in f.tables {
      return Drop;
    }
    var port := NextPort(f.tables[here], dst);
    if port.None? {
      return Drop;
    }
    if Lookup(f.hosts, dst) == Some(End(here, port.value)) {
      return Deliver;
    }
    if here !in f.links || port.value !in f.links[here] {
      return Drop;
    }
    hop := Forward(f.links[here][port.value]);
  }

  /** `walk`: the switches visited from `src`, and whether the packet reaches the host. It always
      ends, and its verdict is the verdict of forwarding for ever. */
  method Walk(f: Fabric, src: Dpid, dst: Ip) returns (path: seq<Dpid>, delivered: bool)
    ensures |path| > 0 && path[0] == src && IsTrace(f, dst, path)
    ensures delivered <==> Delivers(f, src, dst)
    ensures delivered ==> IsDeliveryPath(f, src, dst, path) && Distinct(path)
    ensures !delivered && !Distinct(path) ==>
              Distinct(path[..|path| - 1]) && path[|path| - 1] in path[..|path| - 1]
    ensures !delivered && Distinct(path) ==> NextHop(f, path[|path| - 1], dst).Drop?
  {
    var here := src;
    var seen: seq<Dpid> := [];
    while here !in seen
      invariant IsTrace(f, dst, seen + [here])
      invariant (seen + [here])[0] == src
      invariant Distinct(seen)
      invariant forall d | d in seen :: d in f.tables
      decreases f.tables.Keys - (set d | d in seen)
    {
      ghost var before := seen;
      seen := seen + [here];
      assert seen[|seen| - 1] == here;
      var hop := TakeHop(f, here, dst);
      match hop {
        case Drop =>
          DeadEndNeverDelivers(f, dst, seen);
          return seen, false;
        case Deliver =>
          PathDelivers(f, dst, seen);
          return seen, true;
        case Forward(next) =>
          assert here in f.tables.Keys - (set d | d in before);
          here := next;
      }
    }
    path, delivered := seen + [here], false;
    var k: nat :| k < |seen| && seen[k] == here;
    assert path[k] == path[|path| - 1];
    assert path[..|path| - 1] == seen;
    LoopNeverDelivers(f, dst, path, k);
  }

  /** The delivery path of a pair is unique. */
  lemma {:induction false} DeliveryPathUnique(f: Fabric, src: Dpid, dst: Ip, p: seq<Dpid>, q: seq<Dpid>)
    requires IsDeliveryPath(f, src, dst, p) && IsDeliveryPath(f, src, dst, q)
    ensures p == q
  {
    PathDelivers(f, dst, p);
    PathDelivers(f, dst, q);
    HopCountUnique(f, src, dst, |p| - 1, |q| - 1);
    SameTraces(f, dst, p, q, |p| - 1);
  }

  lemma {:induction false} SameTraces(f: Fabric, dst: Ip, p: seq<Dpid>, q: seq<Dpid>, k: nat)
    requires k < |p| && k < |q| && p[0] == q[0] && IsTrace(f, dst, p) && IsTrace(f, dst, q)
    ensures forall i | 0 <= i <= k :: p[i] == q[i]
  {
    if k > 0 {
      SameTraces(f, dst, p, q, k - 1);
      assert NextHop(f, p[k - 1], dst) == Forward(p[k]);
      assert NextHop(f, q[k - 1], dst) == Forward(q[k]);
    }
  }

  // ---------------------------------------------------------------- every pair of hosts

  /** The pair is delivered without passing `avoid`. */
  ghost predicate RouteAvoids(f: Fabric, src: Dpid, dst: Ip, avoid: Dpid) {
    exists path: seq<Dpid> :: IsDeliveryPath(f, src, dst, path) && avoid !in path
  }

  /** Every host reaches every other host without passing `avoid`. */
  ghost predicate AllRoutesAvoid(f: Fabric, avoid: Dpid) {
    forall s, d | s in f.hosts && d in f.hosts && s != d :: RouteAvoids(f, f.hosts[s].sw, d, avoid)
  }

  datatype Broken = Broken(src: Ip, dst: Ip, path: seq<Dpid>, passes: bool)

  /** The pairs from host number `i` to the first `upto` hosts of the order are all good. */
  ghost predicate RowIsGood(f: Fabric, order: seq<Ip>, avoid: Dpid, i: nat, upto: nat)
    requires i < |order| && upto <= |order| && order[i] in f.hosts
  {
    forall j | 0 <= j < upto && order[j] != order[i] :: RouteAvoids(f, f.hosts[order[i]].sw, order[j], avoid)
  }

  /** `b` is the broken pair (number `i`, number `j`) and every pair before it is good. */
  ghost predicate IsFirstBroken(f: Fabric, order: seq<Ip>, avoid: Dpid, b: Broken, i: nat, j: nat)
    requires forall ip | ip in order :: ip in f.hosts
  {
    && i < |order| && j < |order|
    && b.src == order[i] && b.dst == order[j] && b.src != b.dst
    && !RouteAvoids(f, f.hosts[b.src].sw, b.dst, avoid)
    && (b.passes <==> Delivers(f, f.hosts[b.src].sw, b.dst))
    && |b.path| > 0 && b.path[0] == f.hosts[b.src].sw && IsTrace(f, b.dst, b.path)
    && (forall i' | 0 <= i' < i :: RowIsGood(f, order, avoid, i', |order|))
    && RowIsGood(f, order, avoid, i, j)
  }

  /** `first_broken_route`: None exactly when every host reaches every other without passing
      `avoid`, otherwise the first pair, in the order given, that does not. `order` lists the hosts
      as sorting their addresses does. */
  method FirstBrokenRoute(f: Fabric, order: seq<Ip>, avoid: Dpid) returns (broken: Option<Broken>)
    requires forall ip :: ip in order <==> ip in f.hosts
    ensures broken.None? <==> AllRoutesAvoid(f, avoid)
    ensures broken.Some? ==> exists i: nat, j: nat :: IsFirstBroken(f, order, avoid, broken.value, i, j)
  {
    for i := 0 to |order|
      invariant forall i' | 0 <= i' < i :: RowIsGood(f, order, avoid, i', |order|)
    {
      var src := f.hosts[order[i]].sw;
      for j := 0 to |order|
        invariant RowIsGood(f, order, avoid, i, j)
      {
        if order[j] == order[i] {
          continue;
        }
        var path, delivered := Walk(f, src, order[j]);
        if !delivered || avoid in path {
          NoOtherRoute(f, src, order[j], avoid, path, delivered);
          broken := Some(Broken(order[i], order[j], path, delivered));
          assert IsFirstBroken(f, order, avoid, broken.value, i, j);
          assert order[i] in f.hosts && order[j] in f.hosts;
          return;
        }
      }
    }
    AllRowsGood(f, order, avoid);
    return None;
  }

  lemma AllRowsGood(f: Fabric, order: seq<Ip>, avoid: Dpid)
    requires forall ip :: ip in order <==> ip in f.hosts
    requires forall i | 0 <= i < |order| :: RowIsGood(f, order, avoid, i, |order|)
    ensures AllRoutesAvoid(f, avoid)
  {
    forall s, d | s in f.hosts && d in f.hosts && s != d
      ensures RouteAvoids(f, f.hosts[s].sw, d, avoid)
    {
      assert s in order && d in order;
      var i :| 0 <= i < |order| && order[i] == s;
      var j :| 0 <= j < |order| && order[j] == d;
      assert RowIsGood(f, order, avoid, i, |order|);
    }
  }

  lemma NoOtherRoute(f: Fabric, src: Dpid, dst: Ip, avoid: Dpid, path: seq<Dpid>, delivered: bool)
    requires delivered <==> Delivers(f, src, dst)
    requires delivered ==> IsDeliveryPath(f, src, dst, path)
    requires !delivered || avoid in path
    ensures !RouteAvoids(f, src, dst, avoid)
  {
    forall q | IsDeliveryPath(f, src, dst, q) ensures avoid in q {
      PathDelivers(f, dst, q);
      assert Delivers(f, src, dst);
      DeliveryPathUnique(f, src, dst, path, q);
    }
  }

  // ---------------------------------------------------------------- powering the switch off

  /** The links left when switch `v` is off: none from it and none to it. */
  function LinksWithout(links: Links, v: Dpid): Links {
    map d | d in links && d != v :: (map p | p in links[d] && links[d][p] != v :: links[d][p])
  }

  function PoweredOff(f: Fabric, v: Dpid): Fabric {
    Fabric(f.tables - {v}, LinksWithout(f.links, v), f.hosts)
  }

  /** A switch that is off forwards nothing and is sent nothing. */
  lemma OffTakesNoPart(f: Fabric, v: Dpid, here: Dpid, dst: Ip)
    ensures NextHop(PoweredOff(f, v), v, dst) == Drop
    ensures NextHop(PoweredOff(f, v), here, dst) != Forward(v)
  {
  }

  /** Turning off a switch that no route passes changes no route: every pair keeps its very path. */
  lemma PowerOffKeepsRoute(f: Fabric, src: Dpid, dst: Ip, v: Dpid, path: seq<Dpid>)
    requires IsDeliveryPath(f, src, dst, path) && v !in path
    ensures IsDeliveryPath(PoweredOff(f, v), src, dst, path)
  {
    var g := PoweredOff(f, v);
    forall i | 0 <= i < |path| - 1 ensures NextHop(g, path[i], dst) == Forward(path[i + 1]) {
      assert NextHop(f, path[i], dst) == Forward(path[i + 1]);
      assert path[i] != v && path[i + 1] != v;
    }
    assert path[|path| - 1] != v;
  }

  /** A check that finds no broken route licenses the power-off. */
  lemma PowerOffKeepsAllRoutes(f: Fabric, v: Dpid)
    requires AllRoutesAvoid(f, v)
    ensures AllRoutesAvoid(PoweredOff(f, v), v)
    ensures forall s, d, path | s in f.hosts && d in f.hosts && s != d ::
              IsDeliveryPath(f, f.hosts[s].sw, d, path)
              <==> IsDeliveryPath(PoweredOff(f, v), f.hosts[s].sw, d, path)
  {
    var g := PoweredOff(f, v);
    forall s, d | s in f.hosts && d in f.hosts && s != d
      ensures RouteAvoids(g, f.hosts[s].sw, d, v)
      ensures forall path :: IsDeliveryPath(f, f.hosts[s].sw, d, path) <==> IsDeliveryPath(g, f.hosts[s].sw, d, path)
    {
      var src := f.hosts[s].sw;
      assert RouteAvoids(f, src, d, v);
      var p :| IsDeliveryPath(f, src, d, p) && v !in p;
      PowerOffKeepsRoute(f, src, d, v, p);
      forall path | IsDeliveryPath(f, src, d, path) || IsDeliveryPath(g, src, d, path) ensures path == p {
        if IsDeliveryPath(f, src, d, path) {
          DeliveryPathUnique(f, src, d, p, path);
        } else {
          DeliveryPathUnique(g, src, d, p, path);
        }
      }
    }
  }
}
