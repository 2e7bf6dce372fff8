/** The flow key of a sampled Ethernet frame (`identifyFrame` of `include/common_types/SFlowType.hpp`).
    A frame is exactly the bytes that are present, so every read below is a read inside its length. */
module FrameIdentity {
  import opened Prelude

  type Byte = b: int | 0 <= b < 256
  type Frame = seq<Byte>

  datatype Family = L2 | IPv4 | IPv6

  /** `srcIP` and `dstIP` are the address bytes as a little-endian host reads them, network order. */
  datatype FlowKey = FlowKey(
    family: Family,
    srcIP: int, dstIP: int,
    srcPort: int, dstPort: int,
    protocol: int,
    ethType: int, srcMac: int, dstMac: int,
    srcIp6: seq<Byte>, dstIp6: seq<Byte>)

  const NoIp6: seq<Byte> := [0, 0, 0, 0, 0, 0, 0, 0, 0, 0, 0, 0, 0, 0, 0, 0]

  function EmptyKey(family: Family): FlowKey {
    FlowKey(family, 0, 0, 0, 0, 0, 0, 0, 0, NoIp6, NoIp6)
  }

  datatype Identity = Identity(
    key: FlowKey,
    hasEthernet: bool,
    identified: bool,
    malformedIhl: bool,
    ihl: int,
    fragmentOffset: int,
    moreFragments: bool,
    dontFragment: bool,
    tcpAck: bool)

  // ---------------------------------------------------------------- reading bytes

  predicate Fits(frame: Frame, offset: nat, need: nat) {
    offset <= |frame| && need <= |frame| - offset
  }

  function Octet(frame: Frame, o: nat): int
    requires o < |frame|
  {
    frame[o] as int
  }

  function Be16(frame: Frame, o: nat): int
    requires Fits(frame, o, 2)
  {
    256 * Octet(frame, o) + Octet(frame, o + 1)
  }

  function NetworkOrder(frame: Frame, o: nat): int
    requires Fits(frame, o, 4)
  {
    Octet(frame, o) + 0x100 * Octet(frame, o + 1) + 0x1_0000 * Octet(frame, o + 2) + 0x100_0000 * Octet(frame, o + 3)
  }

  /** The first `n` bytes from `o`, most significant first. */
  function BigEndian(frame: Frame, o: nat, n: nat): int
    requires Fits(frame, o, n)
  {
    if n == 0 then 0 else 256 * BigEndian(frame, o, n - 1) + Octet(frame, o + n - 1)
  }

  method Mac48(frame: Frame, o: nat) returns (v: int)
    requires Fits(frame, o, 6)
    ensures v == BigEndian(frame, o, 6)
  {
    v := 0;
    for i := 0 to 6
      invariant v == BigEndian(frame, o, i)
    {
      v := 256 * v + Octet(frame, o + i);
    }
  }

  /** One bit of a byte or word, counted from the least significant. */
  predicate Bit(word: int, weight: int)
    requires weight > 0
  {
    word / weight % 2 == 1
  }

  // ---------------------------------------------------------------- the IPv6 extension chain

  /** Where the walk along the chain is: the next header's type, where it starts, and whether the last
      fragment header said that this is not the first fragment. */
  datatype Cursor = Cursor(next: int, offset: nat, fragmented: bool)

  const MAX_EXTENSION_HEADERS := 8

  /** Hop-by-hop options, routing, fragment. */
  predicate IsExtension(next: int) {
    next == 0 || next == 43 || next == 44
  }

  /** Headers the walk cannot step over: ESP, AH, no next header, destination options, mobility, HIP,
      shim6. */
  predicate IsOpaque(next: int) {
    next == 50 || next == 51 || next == 59 || next == 60 || next == 135 || next == 139 || next == 140
  }

  /** Over one extension header that is there. */
  function StepOver(frame: Frame, c: Cursor): Cursor
    requires Fits(frame, c.offset, 8)
  {
    if c.next == 44 then Cursor(Octet(frame, c.offset), c.offset + 8, Be16(frame, c.offset + 2) >= 8)
    else Cursor(Octet(frame, c.offset), c.offset + 8 * (Octet(frame, c.offset + 1) + 1), c.fragmented)
  }

  /** `d` is where the walk from `c` is after exactly `n` extension headers. */
  ghost predicate IsAfter(frame: Frame, c: Cursor, n: nat, d: Cursor)
    decreases n
  {
    if n == 0 then d == c
    else IsExtension(c.next) && Fits(frame, c.offset, 8) && IsAfter(frame, StepOver(frame, c), n - 1, d)
  }

  /** `d` is the upper-layer header of a chain of at most `limit` extension headers. */
  ghost predicate EndsChain(frame: Frame, c: Cursor, limit: nat, d: Cursor) {
    !IsExtension(d.next) && exists n: nat :: n <= limit && IsAfter(frame, c, n, d)
  }

  function Resolve(frame: Frame, c: Cursor, left: nat): Option<Cursor>
    decreases left
  {
    if !IsExtension(c.next) then Some(c)
    else if left == 0 || !Fits(frame, c.offset, 8) then None
    else Resolve(frame, StepOver(frame, c), left - 1)
  }

  /** Resolving finds the chain's upper-layer header exactly when there is one within the limit. */
  lemma {:induction false} ResolveFindsTheEnd(frame: Frame, c: Cursor, left: nat, d: Cursor)
    ensures Resolve(frame, c, left) == Some(d) <==> EndsChain(frame, c, left, d)
    decreases left
  {
    if !IsExtension(c.next) {
      assert IsAfter(frame, c, 0, c);
      assert EndsChain(frame, c, left, c);
      forall n: nat | n <= left && IsAfter(frame, c, n, d) ensures d == c {
      }
    } else if left == 0 || !Fits(frame, c.offset, 8) {
      forall n: nat | n <= left && IsAfter(frame, c, n, d) ensures IsExtension(d.next) {
        assert n == 0;
      }
    } else {
      var c' := StepOver(frame, c);
      ResolveFindsTheEnd(frame, c', left - 1, d);
      if EndsChain(frame, c', left - 1, d) {
        var n: nat :| n <= left - 1 && IsAfter(frame, c', n, d);
        assert IsAfter(frame, c, n + 1, d);
      }
      if EndsChain(frame, c, left, d) {
        var n: nat :| n <= left && IsAfter(frame, c, n, d);
        assert n > 0 && IsAfter(frame, c', n - 1, d);
      }
    }
  }

  /** The loop of the walk, with the extra turn that notices a chain still in hand. */
  method WalkChain(frame: Frame, start: Cursor) returns (end: Option<Cursor>)
    ensures end == Resolve(frame, start, MAX_EXTENSION_HEADERS)
  {
    var c, resolved := start, true;
    ghost var result := Resolve(frame, start, MAX_EXTENSION_HEADERS);
    var hop := 0;
    while hop <= MAX_EXTENSION_HEADERS
      invariant 0 <= hop <= MAX_EXTENSION_HEADERS + 1
      invariant resolved
      invariant hop <= MAX_EXTENSION_HEADERS ==> Resolve(frame, c, MAX_EXTENSION_HEADERS - hop) == result
      invariant hop == MAX_EXTENSION_HEADERS + 1 ==> false
    {
      if hop == MAX_EXTENSION_HEADERS && IsExtension(c.next) {
        resolved := false;
        break;
      }
      if IsExtension(c.next) {
        if !Fits(frame, c.offset, 8) {
          resolved := false;
          break;
        }
        c := StepOver(frame, c);
        hop := hop + 1;
        continue;
      }
      break;
    }
    end := if resolved then Some(c) else None;
  }

  // ---------------------------------------------------------------- the identity as functions

  /** The ethertype and where the payload starts, one VLAN tag stripped. */
  function EtherType(frame: Frame): (int, nat)
    requires |frame| >= 14
  {
    if Be16(frame, 12) == 0x8100 && Fits(frame, 14, 4) then (Be16(frame, 16), 18) else (Be16(frame, 12), 14)
  }

  function Blank(key: FlowKey, identified: bool): Identity {
    Identity(key, true, identified, false, 0, 0, false, false, false)
  }

  function L2Key(frame: Frame): FlowKey
    requires |frame| >= 14
  {
    EmptyKey(L2).(srcMac := BigEndian(frame, 6, 6), dstMac := BigEndian(frame, 0, 6), ethType := EtherType(frame).0)
  }

  /** Source and destination port where `protocol` has them and they were captured, else zero. ICMP puts
      type and code there; IPv4 masks the code to four bits. */
  function Ports(frame: Frame, protocol: int, icmp: int, mask: int, l4: nat): (int, int)
    requires mask > 0
  {
    if protocol == icmp then
      if Fits(frame, l4, 2) then (Octet(frame, l4), Octet(frame, l4 + 1) % mask) else (0, 0)
    else if (protocol == 6 || protocol == 17) && Fits(frame, l4, 4) then (Be16(frame, l4), Be16(frame, l4 + 2))
    else (0, 0)
  }

  predicate HasAck(frame: Frame, protocol: int, l4: nat) {
    protocol == 6 && Fits(frame, l4, 14) && Bit(Octet(frame, l4 + 13), 16)
  }

  function Ipv4Identity(frame: Frame, ip: nat): Identity {
    var none := Blank(EmptyKey(IPv4), false);
    if !Fits(frame, ip, 20) then none
    else
      var ihl := Octet(frame, ip) % 16;
      if ihl < 5 then none.(ihl := ihl, malformedIhl := true)
      else if !Fits(frame, ip, 4 * ihl) then none.(ihl := ihl)
      else
        var word, protocol, l4 := Be16(frame, ip + 6), Octet(frame, ip + 9), ip + 4 * ihl;
        var first := word % 0x2000 == 0;
        var ports := if first then Ports(frame, protocol, 1, 16, l4) else (0, 0);
        Identity(
          EmptyKey(IPv4).(protocol := protocol, srcPort := ports.0, dstPort := ports.1,
                          srcIP := NetworkOrder(frame, ip + 12), dstIP := NetworkOrder(frame, ip + 16)),
          true, true, false, ihl, word % 0x2000, Bit(word, 0x2000), Bit(word, 0x4000),
          first && HasAck(frame, protocol, l4))
  }

  function Ipv6Start(frame: Frame, ip: nat): Cursor
    requires Fits(frame, ip, 40)
  {
    Cursor(Octet(frame, ip + 6), ip + 40, false)
  }

  /** The identity of an IPv6 frame whose chain ended at `end`, or not. */
  function Ipv6Of(frame: Frame, ip: nat, end: Option<Cursor>): Identity
    requires |frame| >= 14 && Fits(frame, ip, 40)
  {
    if end.None? || IsOpaque(end.value.next) then Blank(L2Key(frame), true)
    else
      var Cursor(protocol, l4, fragmented) := end.value;
      var ports := if fragmented then (0, 0) else Ports(frame, protocol, 58, 256, l4);
      Blank(EmptyKey(IPv6).(protocol := protocol, srcIp6 := frame[ip + 8..ip + 24], dstIp6 := frame[ip + 24..ip + 40],
                            srcPort := ports.0, dstPort := ports.1), true)
        .(tcpAck := !fragmented && HasAck(frame, protocol, l4))
  }

  function Ipv6Identity(frame: Frame, ip: nat): Identity
    requires |frame| >= 14
  {
    if !Fits(frame, ip, 40) then Blank(EmptyKey(IPv6), false)
    else Ipv6Of(frame, ip, Resolve(frame, Ipv6Start(frame, ip), MAX_EXTENSION_HEADERS))
  }

  function Identify(frame: Frame): Identity {
    if |frame| < 14 then Blank(EmptyKey(L2), false).(hasEthernet := false)
    else
      var (ethType, payload) := EtherType(frame);
      if ethType == 0x0800 then Ipv4Identity(frame, payload)
      else if ethType == 0x86DD then Ipv6Identity(frame, payload)
      else Blank(L2Key(frame), true)
  }

  // ---------------------------------------------------------------- the method

  /** `identifyFrame`: the fields are set one after the other, each family overwriting the L2 key. */
  method IdentifyFrame(frame: Frame) returns (out: Identity)
    ensures out == Identify(frame)
  {
    out := Identity(EmptyKey(L2), false, false, false, 0, 0, false, false, false);
    if |frame| < 14 {
      return;
    }
    out := out.(hasEthernet := true);
    var dstMac := Mac48(frame, 0);
    var srcMac := Mac48(frame, 6);
    var ethType := Be16(frame, 12);
    var payload := 14;
    if ethType == 0x8100 && Fits(frame, payload, 4) {
      ethType := Be16(frame, payload + 2);
      payload := payload + 4;
    }
    var l2 := EmptyKey(L2).(srcMac := srcMac, dstMac := dstMac, ethType := ethType);
    out := out.(key := l2, identified := true);
    if ethType == 0x0800 {
      out := IdentifyIpv4(frame, payload, out);
    } else if ethType == 0x86DD {
      out := IdentifyIpv6(frame, payload, out);
    }
  }

  method IdentifyIpv4(frame: Frame, ip: nat, l2: Identity) returns (out: Identity)
    requires l2 == Blank(l2.key, true)
    ensures out == Ipv4Identity(frame, ip)
  {
    out := l2.(key := EmptyKey(IPv4), identified := false);
    if !Fits(frame, ip, 20) {
      return;
    }
    out := out.(ihl := Octet(frame, ip) % 16);
    if out.ihl < 5 {
      out := out.(malformedIhl := true);
      return;
    }
    if !Fits(frame, ip, 4 * out.ihl) {
      return;
    }
    var word := Be16(frame, ip + 6);
    out := out.(dontFragment := Bit(word, 0x4000), moreFragments := Bit(word, 0x2000), fragmentOffset := word % 0x2000);
    out := out.(key := out.key.(protocol := Octet(frame, ip + 9), srcIP := NetworkOrder(frame, ip + 12),
                                dstIP := NetworkOrder(frame, ip + 16)), identified := true);
    var l4: nat := ip + 4 * out.ihl;
    if out.fragmentOffset != 0 {
      return;
    }
    if out.key.protocol == 1 {
      if Fits(frame, l4, 2) {
        out := out.(key := out.key.(srcPort := Octet(frame, l4), dstPort := Octet(frame, l4 + 1) % 16));
      }
    } else if out.key.protocol == 6 || out.key.protocol == 17 {
      if Fits(frame, l4, 4) {
        out := out.(key := out.key.(srcPort := Be16(frame, l4), dstPort := Be16(frame, l4 + 2)));
      }
      if out.key.protocol == 6 && Fits(frame, l4, 14) {
        out := out.(tcpAck := Bit(Octet(frame, l4 + 13), 16));
      }
    }
  }

  method IdentifyIpv6(frame: Frame, ip: nat, l2: Identity) returns (out: Identity)
    requires |frame| >= 14 && l2 == Blank(L2Key(frame), true)
    ensures out == Ipv6Identity(frame, ip)
  {
    out := l2.(key := EmptyKey(IPv6), identified := false);
    if !Fits(frame, ip, 40) {
      return;
    }
    out := out.(key := out.key.(srcIp6 := frame[ip + 8..ip + 24], dstIp6 := frame[ip + 24..ip + 40]));
    var end := WalkChain(frame, Cursor(Octet(frame, ip + 6), ip + 40, false));
    if end.None? || IsOpaque(end.value.next) {
      return l2;
    }
    out := out.(key := out.key.(protocol := end.value.next), identified := true);
    out := ReadIpv6Ports(frame, out, end.value);
  }

  method ReadIpv6Ports(frame: Frame, sofar: Identity, c: Cursor) returns (out: Identity)
    requires sofar.key.srcPort == 0 && sofar.key.dstPort == 0 && !sofar.tcpAck
    ensures var ports := if c.fragmented then (0, 0) else Ports(frame, c.next, 58, 256, c.offset);
            out == sofar.(key := sofar.key.(srcPort := ports.0, dstPort := ports.1),
                          tcpAck := !c.fragmented && HasAck(frame, c.next, c.offset))
  {
    out := sofar;
    var Cursor(next, offset, fragmented) := c;
    if !fragmented {
      if next == 6 || next == 17 {
        if Fits(frame, offset, 4) {
          out := out.(key := out.key.(srcPort := Be16(frame, offset), dstPort := Be16(frame, offset + 2)));
        }
        if next == 6 && Fits(frame, offset, 14) {
          out := out.(tcpAck := Bit(Octet(frame, offset + 13), 16));
        }
      } else if next == 58 {
        if Fits(frame, offset, 2) {
          out := out.(key := out.key.(srcPort := Octet(frame, offset), dstPort := Octet(frame, offset + 1)));
        }
      }
    }
  }

  // ---------------------------------------------------------------- what a key means

  predicate IsZero(a: seq<Byte>) {
    |a| == 16 && forall i | 0 <= i < |a| :: a[i] == 0
  }

  /** A key carries exactly the fields its family names. */
  predicate NamesOnlyItsFamily(key: FlowKey) {
    match key.family
    case IPv4 => key.ethType == 0 && key.srcMac == 0 && key.dstMac == 0 && IsZero(key.srcIp6) && IsZero(key.dstIp6)
    case IPv6 => key.ethType == 0 && key.srcMac == 0 && key.dstMac == 0 && key.srcIP == 0 && key.dstIP == 0
    case L2 =>
      key.srcIP == 0 && key.dstIP == 0 && key.srcPort == 0 && key.dstPort == 0 && key.protocol == 0
      && IsZero(key.srcIp6) && IsZero(key.dstIp6)
  }

  lemma Ipv4KeyNamesOnlyIpv4(frame: Frame, ip: nat)
    ensures var id := Ipv4Identity(frame, ip); NamesOnlyItsFamily(id.key) && id.hasEthernet && id.key.family.IPv4?
  {
  }

  lemma Ipv6KeyNamesOnlyItsFamily(frame: Frame, ip: nat, end: Option<Cursor>)
    requires |frame| >= 14 && Fits(frame, ip, 40)
    ensures var id := Ipv6Of(frame, ip, end);
            && NamesOnlyItsFamily(id.key) && id.hasEthernet && id.identified
            && (id.key.family.L2? ==> id.key == L2Key(frame)) && (id.key.family.L2? || id.key.family.IPv6?)
  {
  }

  lemma EveryKeyNamesOnlyItsFamily(frame: Frame)
    ensures NamesOnlyItsFamily(Identify(frame).key)
    ensures Identify(frame).identified ==> Identify(frame).hasEthernet
    ensures Identify(frame).key.family.L2? && |frame| >= 14 ==>
              Identify(frame).identified && Identify(frame).key == L2Key(frame)
  {
    if |frame| >= 14 {
      var (ethType, ip) := EtherType(frame);
      Ipv4KeyNamesOnlyIpv4(frame, ip);
      if Fits(frame, ip, 40) {
        Ipv6KeyNamesOnlyItsFamily(frame, ip, Resolve(frame, Ipv6Start(frame, ip), MAX_EXTENSION_HEADERS));
      }
    }
  }

  /** Two captures that differ only in the MAC addresses. */
  predicate DifferInMacsOnly(f: Frame, g: Frame) {
    |f| == |g| && |f| >= 14 && f[12..] == g[12..]
  }

  lemma SameBytes(f: Frame, g: Frame)
    requires DifferInMacsOnly(f, g)
    ensures forall i | 12 <= i < |f| :: f[i] == g[i]
  {
    forall i | 12 <= i < |f| ensures f[i] == g[i] {
      assert f[i] == f[12..][i - 12] && g[i] == g[12..][i - 12];
    }
  }

  lemma {:induction false} SameChain(f: Frame, g: Frame, c: Cursor, left: nat)
    requires DifferInMacsOnly(f, g) && c.offset >= 12
    ensures Resolve(f, c, left) == Resolve(g, c, left)
    ensures Resolve(f, c, left).Some? ==> Resolve(f, c, left).value.offset >= 12
    decreases left
  {
    SameBytes(f, g);
    if IsExtension(c.next) && left > 0 && Fits(f, c.offset, 8) {
      SameChain(f, g, StepOver(f, c), left - 1);
    }
  }

  lemma SamePorts(f: Frame, g: Frame, protocol: int, icmp: int, mask: int, l4: nat)
    requires DifferInMacsOnly(f, g) && l4 >= 12 && mask > 0
    ensures Ports(f, protocol, icmp, mask, l4) == Ports(g, protocol, icmp, mask, l4)
    ensures HasAck(f, protocol, l4) == HasAck(g, protocol, l4)
  {
    SameBytes(f, g);
  }

  lemma SameIpv4(f: Frame, g: Frame, ip: nat)
    requires DifferInMacsOnly(f, g) && ip >= 14
    ensures Ipv4Identity(f, ip) == Ipv4Identity(g, ip)
  {
    SameBytes(f, g);
    if Fits(f, ip, 20) && Octet(f, ip) % 16 >= 5 {
      SamePorts(f, g, Octet(f, ip + 9), 1, 16, ip + 4 * (Octet(f, ip) % 16));
    }
  }

  lemma SameIpv6Of(f: Frame, g: Frame, ip: nat, end: Option<Cursor>)
    requires DifferInMacsOnly(f, g) && ip >= 14 && Fits(f, ip, 40) && (end.Some? ==> end.value.offset >= 12)
    ensures Ipv6Of(f, ip, end).key.family == Ipv6Of(g, ip, end).key.family
    ensures !Ipv6Of(f, ip, end).key.family.L2? ==> Ipv6Of(f, ip, end) == Ipv6Of(g, ip, end)
  {
    SameBytes(f, g);
    if end.Some? {
      SamePorts(f, g, end.value.next, 58, 256, end.value.offset);
      assert f[ip + 8..ip + 24] == g[ip + 8..ip + 24] && f[ip + 24..ip + 40] == g[ip + 24..ip + 40];
    }
  }

  lemma SameIpv6(f: Frame, g: Frame, ip: nat)
    requires DifferInMacsOnly(f, g) && ip >= 14
    ensures Ipv6Identity(f, ip).key.family == Ipv6Identity(g, ip).key.family
    ensures !Ipv6Identity(f, ip).key.family.L2? ==> Ipv6Identity(f, ip) == Ipv6Identity(g, ip)
  {
    if Fits(f, ip, 40) {
      SameBytes(f, g);
      var start := Ipv6Start(f, ip);
      assert Ipv6Start(g, ip) == start;
      SameChain(f, g, start, MAX_EXTENSION_HEADERS);
      SameIpv6Of(f, g, ip, Resolve(f, start, MAX_EXTENSION_HEADERS));
    }
  }

  /** The MAC addresses, which every hop rewrites, never change an IPv4 or IPv6 key: one flow is one key
      on its whole path. */
  lemma MacsDoNotSplitFlows(f: Frame, g: Frame)
    requires DifferInMacsOnly(f, g)
    ensures Identify(f).key.family == Identify(g).key.family
    ensures !Identify(f).key.family.L2? ==> Identify(f) == Identify(g)
    ensures Identify(f).key.family.L2? ==>
              Identify(g).key == Identify(f).key.(srcMac := BigEndian(g, 6, 6), dstMac := BigEndian(g, 0, 6))
  {
    assert EtherType(f) == EtherType(g) by { SameBytes(f, g); }
    SameIpv4(f, g, EtherType(f).1);
    SameIpv6(f, g, EtherType(f).1);
    EveryKeyNamesOnlyItsFamily(f);
    EveryKeyNamesOnlyItsFamily(g);
  }

  /** An IPv6 frame whose fixed header was captured gets an IPv6 key exactly when a chain of at most eight
      extension headers, each of them captured, leads to an upper-layer header the walk may name, and
      that is then its protocol; every other chain gives the L2 key. */
  lemma Ipv6KeyFollowsChain(frame: Frame, ip: nat)
    requires |frame| >= 14 && EtherType(frame) == (0x86DD, ip) && Fits(frame, ip, 40)
    ensures var id := Identify(frame);
            && id.identified
            && (id.key.family.IPv6? <==>
                  exists d :: EndsChain(frame, Ipv6Start(frame, ip), MAX_EXTENSION_HEADERS, d) && !IsOpaque(d.next))
            && (forall d | EndsChain(frame, Ipv6Start(frame, ip), MAX_EXTENSION_HEADERS, d) && !IsOpaque(d.next) ::
                  id.key.protocol == d.next)
            && (!id.key.family.IPv6? ==> id.key == L2Key(frame))
  {
    var end := Resolve(frame, Ipv6Start(frame, ip), MAX_EXTENSION_HEADERS);
    forall d ensures end == Some(d) <==> EndsChain(frame, Ipv6Start(frame, ip), MAX_EXTENSION_HEADERS, d) {
      ResolveFindsTheEnd(frame, Ipv6Start(frame, ip), MAX_EXTENSION_HEADERS, d);
    }
  }
}
