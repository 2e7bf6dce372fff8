/** Frames as a sender lays them out (section 3.1 of RFC 791, sections 3 and 4 of RFC 8200), and what
    `identifyFrame` of `include/common_types/SFlowType.hpp` makes of them. */
module FrameLayout {
  import opened Prelude
  import opened FrameIdentity

  // ---------------------------------------------------------------- bytes in their places

  function Word(n: int): Frame
    requires 0 <= n < 0x1_0000
  {
    [n / 256, n % 256]
  }

  /** An address, its first byte the least significant of `n`. */
  function Quad(n: int): Frame
    requires 0 <= n < 0x1_0000_0000
  {
    [n % 256, n / 256 % 256, n / 256 / 256 % 256, n / 256 / 256 / 256]
  }

  predicate Holds(frame: Frame, o: nat, bytes: Frame) {
    o + |bytes| <= |frame| && frame[o..o + |bytes|] == bytes
  }

  lemma HoldsParts(frame: Frame, o: nat, a: Frame, b: Frame)
    requires Holds(frame, o, a + b)
    ensures Holds(frame, o, a) && Holds(frame, o + |a|, b)
  {
    var part := frame[o..o + |a + b|];
    assert frame[o..o + |a|] == part[..|a|] && frame[o + |a|..o + |a| + |b|] == part[|a|..];
    assert part[..|a|] == a && part[|a|..] == b;
  }

  lemma ThreeParts(a: Frame, b: Frame, c: Frame)
    ensures Holds(a + (b + c), 0, a) && Holds(a + (b + c), |a|, b) && Holds(a + (b + c), |a| + |b|, c)
  {
    assert Holds(a + (b + c), 0, a + (b + c));
    HoldsParts(a + (b + c), 0, a, b + c);
    HoldsParts(a + (b + c), |a|, b, c);
  }

  lemma ByteAt(frame: Frame, o: nat, bytes: Frame, i: nat)
    requires Holds(frame, o, bytes) && i < |bytes|
    ensures Octet(frame, o + i) == bytes[i]
  {
    assert frame[o..o + |bytes|][i] == frame[o + i];
  }

  lemma WordAt(frame: Frame, o: nat, n: int)
    requires 0 <= n < 0x1_0000 && Holds(frame, o, Word(n))
    ensures Be16(frame, o) == n
  {
    ByteAt(frame, o, Word(n), 0);
    ByteAt(frame, o, Word(n), 1);
  }

  lemma QuadAt(frame: Frame, o: nat, n: int)
    requires 0 <= n < 0x1_0000_0000 && Holds(frame, o, Quad(n))
    ensures NetworkOrder(frame, o) == n
  {
    ByteAt(frame, o, Quad(n), 0);
    ByteAt(frame, o, Quad(n), 1);
    ByteAt(frame, o, Quad(n), 2);
    ByteAt(frame, o, Quad(n), 3);
  }

  // ---------------------------------------------------------------- the Ethernet header

  function Pow256(k: nat): nat {
    if k == 0 then 1 else 256 * Pow256(k - 1)
  }

  /** A number in `k` bytes, the most significant first. */
  function Octets(n: nat, k: nat): (r: Frame)
    ensures |r| == k
  {
    if k == 0 then [] else Octets(n / 256, k - 1) + [n % 256]
  }

  lemma {:induction false} OctetsRead(frame: Frame, o: nat, n: nat, k: nat)
    requires n < Pow256(k) && Holds(frame, o, Octets(n, k))
    ensures BigEndian(frame, o, k) == n
  {
    if k > 0 {
      HoldsParts(frame, o, Octets(n / 256, k - 1), [n % 256]);
      OctetsRead(frame, o, n / 256, k - 1);
      ByteAt(frame, o + k - 1, [n % 256], 0);
    }
  }

  /** The two addresses, as numbers of 48 bits, and a VLAN tag if there is one. */
  datatype Link = Link(dst: nat, src: nat, tag: Option<int>)

  predicate IsLink(e: Link) {
    && e.dst < 0x1_0000_0000_0000 && e.src < 0x1_0000_0000_0000
    && (e.tag.Some? ==> 0 <= e.tag.value < 0x1_0000)
  }

  function LinkBytes(e: Link, ethType: int): (r: Frame)
    requires IsLink(e) && 0 <= ethType < 0x1_0000
    ensures |r| == if e.tag.Some? then 18 else 14
  {
    Octets(e.dst, 6)
    + (Octets(e.src, 6) + ((if e.tag.Some? then Word(0x8100) + Word(e.tag.value) else []) + Word(ethType)))
  }

  lemma AddressesRead(frame: Frame, e: Link, rest: Frame)
    requires IsLink(e) && Holds(frame, 0, Octets(e.dst, 6) + (Octets(e.src, 6) + rest))
    ensures BigEndian(frame, 0, 6) == e.dst && BigEndian(frame, 6, 6) == e.src && Holds(frame, 12, rest)
  {
    HoldsParts(frame, 0, Octets(e.dst, 6), Octets(e.src, 6) + rest);
    HoldsParts(frame, 6, Octets(e.src, 6), rest);
    assert Pow256(3) == 0x100_0000 && Pow256(6) == 0x1_0000_0000_0000;
    OctetsRead(frame, 0, e.dst, 6);
    OctetsRead(frame, 6, e.src, 6);
  }

  /** The type is read where it stands, after the tag if there is one; what follows a tag is not read as another. */
  lemma LinkReads(frame: Frame, e: Link, ethType: int)
    requires IsLink(e) && 0 <= ethType < 0x1_0000 && Holds(frame, 0, LinkBytes(e, ethType))
    requires ethType != 0x8100 || e.tag.Some? || |frame| < 18
    ensures EtherType(frame) == (ethType, |LinkBytes(e, ethType)|)
    ensures BigEndian(frame, 0, 6) == e.dst && BigEndian(frame, 6, 6) == e.src
  {
    var tag: Frame := if e.tag.Some? then Word(0x8100) + Word(e.tag.value) else [];
    AddressesRead(frame, e, tag + Word(ethType));
    HoldsParts(frame, 12, tag, Word(ethType));
    WordAt(frame, 12 + |tag|, ethType);
    if e.tag.Some? {
      HoldsParts(frame, 12, Word(0x8100), Word(e.tag.value));
      WordAt(frame, 12, 0x8100);
    }
  }

  function Zeros(): seq<Byte> {
    [0, 0, 0, 0, 0, 0, 0, 0, 0, 0, 0, 0, 0, 0, 0, 0]
  }

  /** What a frame is identified as by its Ethernet header alone: the two addresses and the type. */
  function Identity2(e: Link, ethType: int): Identity {
    Identity(FlowKey(L2, 0, 0, 0, 0, 0, ethType, e.src, e.dst, Zeros(), Zeros()),
             true, true, false, 0, 0, false, false, false)
  }

  lemma L2KeyReads(frame: Frame, e: Link, ethType: int)
    requires IsLink(e) && 0 <= ethType < 0x1_0000 && Holds(frame, 0, LinkBytes(e, ethType))
    requires ethType != 0x8100 || e.tag.Some? || |frame| < 18
    ensures Blank(L2Key(frame), true) == Identity2(e, ethType)
  {
    LinkReads(frame, e, ethType);
  }

  lemma TwoParts(a: Frame, b: Frame)
    ensures Holds(a + b, 0, a) && Holds(a + b, |a|, b)
  {
    assert Holds(a + b, 0, a + b);
    HoldsParts(a + b, 0, a, b);
  }

  /** Whatever it carries, a frame of any other type is identified by the addresses and the type its sender
      wrote. */
  lemma L2RoundTrip(e: Link, ethType: int, rest: Frame)
    requires IsLink(e) && 0 <= ethType < 0x1_0000 && ethType != 0x0800 && ethType != 0x86DD
    requires ethType != 0x8100 || e.tag.Some? || |rest| < 4
    ensures Identify(LinkBytes(e, ethType) + rest) == Identity2(e, ethType)
  {
    var frame := LinkBytes(e, ethType) + rest;
    TwoParts(LinkBytes(e, ethType), rest);
    L2KeyReads(frame, e, ethType);
    LinkReads(frame, e, ethType);
  }

  /** A capture too short for an Ethernet header says nothing. */
  lemma EthernetCutOff(frame: Frame)
    requires |frame| < 14
    ensures Identify(frame) == Unidentified(L2).(hasEthernet := false)
  {
  }

  /** A family and nothing else: an address header that was announced and is not there. */
  function Unidentified(family: Family): Identity {
    Identity(FlowKey(family, 0, 0, 0, 0, 0, 0, 0, 0, Zeros(), Zeros()),
             true, false, false, 0, 0, false, false, false)
  }

  /** A capture that ends before the IPv4 header does, or whose header says it is too short, is of the IPv4
      family and not identified; the length the header states is kept if it is there. */
  lemma Ipv4CutOff(e: Link, rest: Frame)
    requires IsLink(e) && (|rest| < 20 || rest[0] as int % 16 < 5 || |rest| < 4 * (rest[0] as int % 16))
    ensures Identify(LinkBytes(e, 0x0800) + rest)
            == if |rest| < 20 then Unidentified(IPv4)
               else Unidentified(IPv4).(ihl := rest[0] as int % 16, malformedIhl := rest[0] as int % 16 < 5)
  {
    var link := LinkBytes(e, 0x0800);
    TwoParts(link, rest);
    LinkReads(link + rest, e, 0x0800);
    if |rest| >= 20 {
      ByteAt(link + rest, |link|, rest, 0);
    }
  }

  lemma Ipv6CutOff(e: Link, rest: Frame)
    requires IsLink(e) && |rest| < 40
    ensures Identify(LinkBytes(e, 0x86DD) + rest) == Unidentified(IPv6)
  {
    TwoParts(LinkBytes(e, 0x86DD), rest);
    LinkReads(LinkBytes(e, 0x86DD) + rest, e, 0x86DD);
  }

  // ---------------------------------------------------------------- the transport header

  /** `middle` are the sequence numbers and the data offset, `high` and `low` the flag bits around ACK. */
  datatype Transport =
    | Tcp(srcPort: int, dstPort: int, middle: Frame, high: int, ack: bool, low: int, rest: Frame)
    | Udp(srcPort: int, dstPort: int, rest: Frame)
    | Icmp(kind: Byte, code: Byte, rest: Frame)
    | Unknown(protocol: int, rest: Frame)

  predicate IsTransport(t: Transport, icmp: int) {
    match t
    case Tcp(s, d, middle, high, _, low, _) =>
      0 <= s < 0x1_0000 && 0 <= d < 0x1_0000 && |middle| == 9 && 0 <= high < 8 && 0 <= low < 16
    case Udp(s, d, _) => 0 <= s < 0x1_0000 && 0 <= d < 0x1_0000
    case Icmp(_, _, _) => true
    case Unknown(p, _) => 0 <= p < 256 && p != 6 && p != 17 && p != icmp
  }

  function Protocol(t: Transport, icmp: int): int {
    match t
    case Tcp(_, _, _, _, _, _, _) => 6
    case Udp(_, _, _) => 17
    case Icmp(_, _, _) => icmp
    case Unknown(p, _) => p
  }

  function Flags(high: int, ack: bool, low: int): Frame
    requires 0 <= high < 8 && 0 <= low < 16
  {
    [32 * high + (if ack then 16 else 0) + low]
  }

  function TransportBytes(t: Transport, icmp: int): Frame
    requires IsTransport(t, icmp)
  {
    match t
    case Tcp(s, d, middle, high, ack, low, rest) => Word(s) + (Word(d) + (middle + (Flags(high, ack, low) + rest)))
    case Udp(s, d, rest) => Word(s) + (Word(d) + rest)
    case Icmp(kind, code, rest) => [kind, code] + rest
    case Unknown(_, rest) => rest
  }

  /** The two numbers that identify a flow beyond its addresses, if they are among the `n` bytes captured. */
  function PortsOf(t: Transport, mask: int, n: nat): (int, int)
    requires mask > 0
  {
    match t
    case Tcp(s, d, _, _, _, _, _) => if n >= 4 then (s, d) else (0, 0)
    case Udp(s, d, _) => if n >= 4 then (s, d) else (0, 0)
    case Icmp(kind, code, _) => if n >= 2 then (kind as int, code as int % mask) else (0, 0)
    case Unknown(_, _) => (0, 0)
  }

  predicate IsAck(t: Transport, n: nat) {
    t.Tcp? && t.ack && n >= 14
  }

  /** The frame ends with the first `n` bytes of the transport header. */
  ghost predicate EndsWith(frame: Frame, l4: nat, bytes: Frame, n: nat) {
    n <= |bytes| && |frame| == l4 + n && Holds(frame, l4, bytes[..n])
  }

  lemma CapturedByte(frame: Frame, l4: nat, bytes: Frame, n: nat, i: nat)
    requires EndsWith(frame, l4, bytes, n) && i < n
    ensures Octet(frame, l4 + i) == bytes[i]
  {
    ByteAt(frame, l4, bytes[..n], i);
  }

  lemma CapturedWord(frame: Frame, l4: nat, bytes: Frame, n: nat, i: nat, w: int)
    requires EndsWith(frame, l4, bytes, n) && i + 2 <= n && 0 <= w < 0x1_0000 && Holds(bytes, i, Word(w))
    ensures Be16(frame, l4 + i) == w
  {
    ByteAt(bytes, i, Word(w), 0);
    ByteAt(bytes, i, Word(w), 1);
    CapturedByte(frame, l4, bytes, n, i);
    CapturedByte(frame, l4, bytes, n, i + 1);
  }

  lemma TransportReads(frame: Frame, l4: nat, t: Transport, icmp: int, mask: int, n: nat)
    requires IsTransport(t, icmp) && icmp != 6 && icmp != 17 && mask > 0
    requires EndsWith(frame, l4, TransportBytes(t, icmp), n)
    ensures Ports(frame, Protocol(t, icmp), icmp, mask, l4) == PortsOf(t, mask, n)
    ensures HasAck(frame, Protocol(t, icmp), l4) <==> IsAck(t, n)
  {
    var bytes := TransportBytes(t, icmp);
    match t
    case Tcp(s, d, middle, high, ack, low, rest) => TcpReads(frame, l4, t, n);
    case Udp(s, d, rest) =>
      ThreeParts(Word(s), Word(d), rest);
      if n >= 4 {
        CapturedWord(frame, l4, bytes, n, 0, s);
        CapturedWord(frame, l4, bytes, n, 2, d);
      }
    case Icmp(kind, code, rest) =>
      if n >= 2 {
        CapturedByte(frame, l4, bytes, n, 0);
        CapturedByte(frame, l4, bytes, n, 1);
      }
    case Unknown(_, _) =>
  }

  lemma TcpReads(frame: Frame, l4: nat, t: Transport, n: nat)
    requires t.Tcp? && IsTransport(t, 1) && EndsWith(frame, l4, TransportBytes(t, 1), n)
    ensures n >= 4 ==> Be16(frame, l4) == t.srcPort && Be16(frame, l4 + 2) == t.dstPort
    ensures n >= 14 ==> (Bit(Octet(frame, l4 + 13), 16) <==> t.ack)
  {
    var Tcp(s, d, middle, high, ack, low, rest) := t;
    var bytes, flags := TransportBytes(t, 1), Flags(high, ack, low);
    ThreeParts(Word(s), Word(d), middle + (flags + rest));
    if n >= 4 {
      CapturedWord(frame, l4, bytes, n, 0, s);
      CapturedWord(frame, l4, bytes, n, 2, d);
    }
    if n >= 14 {
      HoldsParts(bytes, 4, middle, flags + rest);
      HoldsParts(bytes, 13, flags, rest);
      ByteAt(bytes, 13, flags, 0);
      CapturedByte(frame, l4, bytes, n, 13);
    }
  }

  // ---------------------------------------------------------------- IPv4

  datatype Header4 = Header4(
    tos: Byte, total: int, id: int,
    reserved: bool, dontFragment: bool, moreFragments: bool, fragmentOffset: int,
    ttl: Byte, checksum: int, src: int, dst: int, options: Frame)

  predicate IsHeader4(h: Header4) {
    && 0 <= h.total < 0x1_0000 && 0 <= h.id < 0x1_0000 && 0 <= h.checksum < 0x1_0000 && 0 <= h.fragmentOffset < 0x2000
    && 0 <= h.src < 0x1_0000_0000 && 0 <= h.dst < 0x1_0000_0000
    && |h.options| % 4 == 0 && |h.options| <= 40
  }

  function FragmentWord(h: Header4): (w: int)
    requires IsHeader4(h)
    ensures 0 <= w < 0x1_0000 && w % 0x2000 == h.fragmentOffset
    ensures (Bit(w, 0x2000) <==> h.moreFragments) && (Bit(w, 0x4000) <==> h.dontFragment)
  {
    (if h.reserved then 0x8000 else 0)
    + (if h.dontFragment then 0x4000 else 0)
    + (if h.moreFragments then 0x2000 else 0)
    + h.fragmentOffset
  }

  function WordsIn(h: Header4): (ihl: int)
    requires IsHeader4(h)
    ensures 5 <= ihl <= 15 && 4 * ihl == 20 + |h.options|
  {
    5 + |h.options| / 4
  }

  function Start4(h: Header4, protocol: Byte): Frame
    requires IsHeader4(h)
  {
    [64 + WordsIn(h), h.tos]
    + (Word(h.total) + (Word(h.id) + (Word(FragmentWord(h)) + ([h.ttl, protocol] + Word(h.checksum)))))
  }

  function Addresses4(h: Header4): Frame
    requires IsHeader4(h)
  {
    Quad(h.src) + (Quad(h.dst) + h.options)
  }

  function Header4Bytes(h: Header4, protocol: Byte): (r: Frame)
    requires IsHeader4(h)
    ensures |r| == 4 * WordsIn(h)
  {
    Start4(h, protocol) + Addresses4(h)
  }

  lemma Start4Reads(frame: Frame, ip: nat, h: Header4, protocol: Byte)
    requires IsHeader4(h) && Holds(frame, ip, Start4(h, protocol))
    ensures Fits(frame, ip, 12)
    ensures Octet(frame, ip) % 16 == WordsIn(h)
    ensures Be16(frame, ip + 6) == FragmentWord(h) && Octet(frame, ip + 9) == protocol
  {
    var first, word, last := [64 + WordsIn(h), h.tos], Word(FragmentWord(h)), [h.ttl, protocol] + Word(h.checksum);
    HoldsParts(frame, ip, first, Word(h.total) + (Word(h.id) + (word + last)));
    HoldsParts(frame, ip + 2, Word(h.total), Word(h.id) + (word + last));
    HoldsParts(frame, ip + 4, Word(h.id), word + last);
    HoldsParts(frame, ip + 6, word, last);
    ByteAt(frame, ip, first, 0);
    WordAt(frame, ip + 6, FragmentWord(h));
    ByteAt(frame, ip + 8, last, 1);
  }

  lemma Addresses4Read(frame: Frame, o: nat, h: Header4)
    requires IsHeader4(h) && Holds(frame, o, Addresses4(h))
    ensures Fits(frame, o, 8 + |h.options|) && NetworkOrder(frame, o) == h.src && NetworkOrder(frame, o + 4) == h.dst
  {
    HoldsParts(frame, o, Quad(h.src), Quad(h.dst) + h.options);
    HoldsParts(frame, o + 4, Quad(h.dst), h.options);
    QuadAt(frame, o, h.src);
    QuadAt(frame, o + 4, h.dst);
  }

  lemma Header4Reads(frame: Frame, ip: nat, h: Header4, protocol: Byte)
    requires IsHeader4(h) && Holds(frame, ip, Header4Bytes(h, protocol))
    ensures Fits(frame, ip, 4 * WordsIn(h))
    ensures Octet(frame, ip) % 16 == WordsIn(h)
    ensures Be16(frame, ip + 6) == FragmentWord(h) && Octet(frame, ip + 9) == protocol
    ensures NetworkOrder(frame, ip + 12) == h.src && NetworkOrder(frame, ip + 16) == h.dst
  {
    HoldsParts(frame, ip, Start4(h, protocol), Addresses4(h));
    Start4Reads(frame, ip, h, protocol);
    Addresses4Read(frame, ip + 12, h);
  }

  /** A frame of which the capture holds all but the end of the transport header and what follows it. */
  function Frame4(e: Link, h: Header4, t: Transport, n: nat): Frame
    requires IsLink(e) && IsHeader4(h) && IsTransport(t, 1) && n <= |TransportBytes(t, 1)|
  {
    LinkBytes(e, 0x0800) + (Header4Bytes(h, Protocol(t, 1)) + TransportBytes(t, 1)[..n])
  }

  /** What an IPv4 frame must be identified as: its five-tuple, the ports only in the first fragment. */
  function Identity4(h: Header4, t: Transport, n: nat): Identity
    requires IsHeader4(h)
  {
    var first := h.fragmentOffset == 0;
    var ports := if first then PortsOf(t, 16, n) else (0, 0);
    Identity(FlowKey(IPv4, h.src, h.dst, ports.0, ports.1, Protocol(t, 1), 0, 0, 0, Zeros(), Zeros()),
             true, true, false, WordsIn(h), h.fragmentOffset, h.moreFragments, h.dontFragment, first && IsAck(t, n))
  }

  lemma Header4Identifies(frame: Frame, ip: nat, h: Header4, t: Transport, n: nat)
    requires IsHeader4(h) && IsTransport(t, 1)
    requires Holds(frame, ip, Header4Bytes(h, Protocol(t, 1)))
    requires EndsWith(frame, ip + 4 * WordsIn(h), TransportBytes(t, 1), n)
    ensures Ipv4Identity(frame, ip) == Identity4(h, t, n)
  {
    Header4Reads(frame, ip, h, Protocol(t, 1));
    TransportReads(frame, ip + 4 * WordsIn(h), t, 1, 16, n);
  }

  /** Whatever the options, the VLAN tag and everything else in the frame, and wherever the capture ends after
      its header, an IPv4 frame is identified by as much of the five-tuple its sender wrote as was captured. */
  lemma Ipv4RoundTrip(e: Link, h: Header4, t: Transport, n: nat)
    requires IsLink(e) && IsHeader4(h) && IsTransport(t, 1) && n <= |TransportBytes(t, 1)|
    ensures Identify(Frame4(e, h, t, n)) == Identity4(h, t, n)
  {
    var link, header, transport := LinkBytes(e, 0x0800), Header4Bytes(h, Protocol(t, 1)), TransportBytes(t, 1)[..n];
    ThreeParts(link, header, transport);
    LinkReads(Frame4(e, h, t, n), e, 0x0800);
    Header4Identifies(Frame4(e, h, t, n), |link|, h, t, n);
  }

  // ---------------------------------------------------------------- IPv6

  /** An extension header: hop-by-hop options or routing, of `8 * (units + 1)` bytes, or a fragment. */
  datatype Extension =
    | Options(hopByHop: bool, units: Byte, body: Frame)
    | Fragment(reserved: Byte, offset: int, flags: int, id: Frame)

  predicate IsExtensionHeader(x: Extension) {
    match x
    case Options(_, units, body) => |body| == 8 * (units as int + 1) - 2
    case Fragment(_, offset, flags, id) => 0 <= offset < 0x2000 && 0 <= flags < 8 && |id| == 4
  }

  datatype Chain = Empty | Then(head: Extension, tail: Chain)

  predicate IsChain(xs: Chain) {
    xs.Then? ==> IsExtensionHeader(xs.head) && IsChain(xs.tail)
  }

  function Size(xs: Chain): nat {
    if xs.Empty? then 0 else 1 + Size(xs.tail)
  }

  function TypeOf(x: Extension): Byte {
    match x
    case Options(hopByHop, _, _) => if hopByHop then 0 else 43
    case Fragment(_, _, _, _) => 44
  }

  function FirstType(xs: Chain, upper: Byte): Byte {
    if xs.Empty? then upper else TypeOf(xs.head)
  }

  function Length(x: Extension): nat {
    if x.Options? then 8 * (x.units as int + 1) else 8
  }

  function ExtensionBytes(x: Extension, next: Byte): (r: Frame)
    requires IsExtensionHeader(x)
    ensures |r| == Length(x)
  {
    match x
    case Options(_, units, body) => [next, units] + body
    case Fragment(reserved, offset, flags, id) => [next, reserved] + (Word(8 * offset + flags) + id)
  }

  function ChainBytes(xs: Chain, upper: Byte): Frame
    requires IsChain(xs)
  {
    if xs.Empty? then [] else ExtensionBytes(xs.head, FirstType(xs.tail, upper)) + ChainBytes(xs.tail, upper)
  }

  predicate IsLater(x: Extension, sofar: bool) {
    if x.Fragment? then x.offset > 0 else sofar
  }

  /** Whether the last fragment header of the chain is of a later fragment. */
  predicate IsLaterFragment(xs: Chain, sofar: bool) {
    if xs.Empty? then sofar else IsLaterFragment(xs.tail, IsLater(xs.head, sofar))
  }

  /** One step of the walk takes it over `x` to a header of type `next`. */
  ghost predicate Steps(frame: Frame, o: nat, x: Extension, next: Byte) {
    && Fits(frame, o, 8)
    && forall later ::
         StepOver(frame, Cursor(TypeOf(x) as int, o, later)) == Cursor(next as int, o + Length(x), IsLater(x, later))
  }

  lemma ExtensionReads(frame: Frame, o: nat, x: Extension, next: Byte)
    requires IsExtensionHeader(x) && Holds(frame, o, ExtensionBytes(x, next))
    ensures Steps(frame, o, x, next)
  {
    match x
    case Options(_, units, body) =>
      HoldsParts(frame, o, [next, units], body);
      ByteAt(frame, o, [next, units], 0);
      ByteAt(frame, o, [next, units], 1);
    case Fragment(reserved, offset, flags, id) =>
      HoldsParts(frame, o, [next, reserved], Word(8 * offset + flags) + id);
      HoldsParts(frame, o + 2, Word(8 * offset + flags), id);
      ByteAt(frame, o, [next, reserved], 0);
      WordAt(frame, o + 2, 8 * offset + flags);
  }

  /** The chain lies in the frame from `o` to `end`. */
  ghost predicate LiesIn(frame: Frame, o: nat, xs: Chain, upper: Byte, end: nat)
    decreases xs
  {
    if xs.Empty? then end == o
    else Steps(frame, o, xs.head, FirstType(xs.tail, upper)) && LiesIn(frame, o + Length(xs.head), xs.tail, upper, end)
  }

  lemma ChainSplits(frame: Frame, o: nat, xs: Chain, upper: Byte)
    requires IsChain(xs) && xs.Then? && Holds(frame, o, ChainBytes(xs, upper))
    ensures Steps(frame, o, xs.head, FirstType(xs.tail, upper))
    ensures Holds(frame, o + Length(xs.head), ChainBytes(xs.tail, upper))
    ensures |ChainBytes(xs, upper)| == Length(xs.head) + |ChainBytes(xs.tail, upper)|
  {
    var next := FirstType(xs.tail, upper);
    HoldsParts(frame, o, ExtensionBytes(xs.head, next), ChainBytes(xs.tail, upper));
    ExtensionReads(frame, o, xs.head, next);
  }

  lemma {:induction false} ChainLies(frame: Frame, o: nat, xs: Chain, upper: Byte)
    requires IsChain(xs) && Holds(frame, o, ChainBytes(xs, upper))
    ensures LiesIn(frame, o, xs, upper, o + |ChainBytes(xs, upper)|)
    decreases xs
  {
    if xs.Then? {
      ChainSplits(frame, o, xs, upper);
      ChainLies(frame, o + Length(xs.head), xs.tail, upper);
    }
  }

  /** The walk follows the chain as it was laid out, and gives up exactly when it is longer than allowed. */
  lemma {:induction false} ChainReads(frame: Frame, o: nat, xs: Chain, upper: Byte, later: bool, left: nat, end: nat)
    requires !IsExtension(upper as int) && LiesIn(frame, o, xs, upper, end)
    ensures Resolve(frame, Cursor(FirstType(xs, upper) as int, o, later), left)
            == if Size(xs) <= left then Some(Cursor(upper as int, end, IsLaterFragment(xs, later))) else None
    decreases xs
  {
    if xs.Then? && left > 0 {
      ChainReads(frame, o + Length(xs.head), xs.tail, upper, IsLater(xs.head, later), left - 1, end);
    }
  }

  datatype Header6 = Header6(start: Frame, hopLimit: Byte, src: Frame, dst: Frame, chain: Chain)

  predicate IsHeader6(h: Header6) {
    |h.start| == 6 && |h.src| == 16 && |h.dst| == 16 && IsChain(h.chain)
  }

  function Fixed6(h: Header6, upper: Byte): (r: Frame)
    requires IsHeader6(h)
    ensures |r| == 40
  {
    h.start + ([FirstType(h.chain, upper), h.hopLimit] + (h.src + h.dst))
  }

  lemma Fixed6Reads(frame: Frame, ip: nat, h: Header6, upper: Byte)
    requires IsHeader6(h) && Holds(frame, ip, Fixed6(h, upper))
    ensures Fits(frame, ip, 40) && Ipv6Start(frame, ip) == Cursor(FirstType(h.chain, upper) as int, ip + 40, false)
    ensures frame[ip + 8..ip + 24] == h.src && frame[ip + 24..ip + 40] == h.dst
  {
    var types := [FirstType(h.chain, upper), h.hopLimit];
    HoldsParts(frame, ip, h.start, types + (h.src + h.dst));
    HoldsParts(frame, ip + 6, types, h.src + h.dst);
    HoldsParts(frame, ip + 8, h.src, h.dst);
    ByteAt(frame, ip + 6, types, 0);
  }

  function Frame6(e: Link, h: Header6, t: Transport, n: nat): Frame
    requires IsLink(e) && IsHeader6(h) && IsTransport(t, 58) && n <= |TransportBytes(t, 58)|
  {
    LinkBytes(e, 0x86DD)
    + (Fixed6(h, Protocol(t, 58)) + (ChainBytes(h.chain, Protocol(t, 58)) + TransportBytes(t, 58)[..n]))
  }

  /** What an IPv6 frame must be identified as. */
  function Identity6(h: Header6, t: Transport, n: nat): Identity {
    var first := !IsLaterFragment(h.chain, false);
    var ports := if first then PortsOf(t, 256, n) else (0, 0);
    Identity(FlowKey(IPv6, 0, 0, ports.0, ports.1, Protocol(t, 58), 0, 0, 0, h.src, h.dst),
             true, true, false, 0, 0, false, false, first && IsAck(t, n))
  }

  /** The frame holds the header, the chain and the transport header where identification looks. */
  ghost predicate Reads6(frame: Frame, ip: nat, h: Header6, t: Transport, l4: nat, n: nat) {
    var upper := Protocol(t, 58);
    && 0 <= upper < 256
    && Fits(frame, ip, 40) && Ipv6Start(frame, ip) == Cursor(FirstType(h.chain, upper) as int, ip + 40, false)
    && frame[ip + 8..ip + 24] == h.src && frame[ip + 24..ip + 40] == h.dst
    && LiesIn(frame, ip + 40, h.chain, upper, l4)
    && Ports(frame, upper, 58, 256, l4) == PortsOf(t, 256, n) && (HasAck(frame, upper, l4) <==> IsAck(t, n))
  }

  lemma Header6Reads(frame: Frame, ip: nat, h: Header6, t: Transport, n: nat)
    requires IsHeader6(h) && IsTransport(t, 58) && Holds(frame, ip, Fixed6(h, Protocol(t, 58)))
    requires n <= |TransportBytes(t, 58)|
    requires Holds(frame, ip + 40, ChainBytes(h.chain, Protocol(t, 58)) + TransportBytes(t, 58)[..n])
    requires |frame| == ip + 40 + |ChainBytes(h.chain, Protocol(t, 58))| + n
    ensures Reads6(frame, ip, h, t, ip + 40 + |ChainBytes(h.chain, Protocol(t, 58))|, n)
  {
    var upper := Protocol(t, 58);
    var chain := ChainBytes(h.chain, upper);
    Fixed6Reads(frame, ip, h, upper);
    HoldsParts(frame, ip + 40, chain, TransportBytes(t, 58)[..n]);
    ChainLies(frame, ip + 40, h.chain, upper);
    TransportReads(frame, ip + 40 + |chain|, t, 58, 256, n);
  }

  lemma Header6Identifies(frame: Frame, ip: nat, h: Header6, t: Transport, l4: nat, n: nat, limit: nat)
    requires Reads6(frame, ip, h, t, l4, n) && !IsExtension(Protocol(t, 58)) && |frame| >= 14
    ensures Ipv6Of(frame, ip, Resolve(frame, Ipv6Start(frame, ip), limit))
            == if Size(h.chain) <= limit && !IsOpaque(Protocol(t, 58))
               then Identity6(h, t, n) else Blank(L2Key(frame), true)
  {
    ChainReads(frame, ip + 40, h.chain, Protocol(t, 58), false, limit, l4);
  }

  lemma Frame6Parts(e: Link, h: Header6, t: Transport, n: nat)
    requires IsLink(e) && IsHeader6(h) && IsTransport(t, 58) && n <= |TransportBytes(t, 58)|
    ensures var frame, link, upper := Frame6(e, h, t, n), LinkBytes(e, 0x86DD), Protocol(t, 58);
            && Holds(frame, 0, link) && Holds(frame, |link|, Fixed6(h, upper))
            && Holds(frame, |link| + 40, ChainBytes(h.chain, upper) + TransportBytes(t, 58)[..n])
            && |frame| == |link| + 40 + |ChainBytes(h.chain, upper)| + n
  {
    ThreeParts(LinkBytes(e, 0x86DD), Fixed6(h, Protocol(t, 58)),
               ChainBytes(h.chain, Protocol(t, 58)) + TransportBytes(t, 58)[..n]);
  }

  lemma Frame6Reads(e: Link, h: Header6, t: Transport, n: nat)
    requires IsLink(e) && IsHeader6(h) && IsTransport(t, 58) && n <= |TransportBytes(t, 58)|
    ensures var frame := Frame6(e, h, t, n);
            && Holds(frame, 0, LinkBytes(e, 0x86DD)) && n <= |frame|
            && Reads6(frame, |LinkBytes(e, 0x86DD)|, h, t, |frame| - n, n)
  {
    Frame6Parts(e, h, t, n);
    Header6Reads(Frame6(e, h, t, n), |LinkBytes(e, 0x86DD)|, h, t, n);
  }

  lemma Frame6Identifies(frame: Frame, e: Link, h: Header6, t: Transport, n: nat, limit: nat)
    requires IsLink(e) && Holds(frame, 0, LinkBytes(e, 0x86DD)) && limit == MAX_EXTENSION_HEADERS
    requires n <= |frame| && Reads6(frame, |LinkBytes(e, 0x86DD)|, h, t, |frame| - n, n)
    requires !IsExtension(Protocol(t, 58))
    ensures Identify(frame)
            == if Size(h.chain) <= limit && !IsOpaque(Protocol(t, 58)) then Identity6(h, t, n)
               else Identity2(e, 0x86DD)
  {
    LinkReads(frame, e, 0x86DD);
    L2KeyReads(frame, e, 0x86DD);
    Header6Identifies(frame, |LinkBytes(e, 0x86DD)|, h, t, |frame| - n, n, limit);
  }

  /** A protocol number that stands for an upper-layer header: none of hop-by-hop options (0), routing (43) and
      fragment (44), which are followed ... */
  predicate IsUpper(protocol: int) {
    protocol != 0 && protocol != 43 && protocol != 44
  }

  /** ... and one that can be named: none of ESP (50), AH (51), no next header (59), destination options (60),
      mobility (135), HIP (139) and shim6 (140). */
  predicate IsNamed(protocol: int) {
    && protocol != 50 && protocol != 51 && protocol != 59 && protocol != 60
    && protocol != 135 && protocol != 139 && protocol != 140
  }

  /** Whatever its extension headers, and wherever the capture ends after them, an IPv6 frame is identified by as
      much of the five-tuple its sender wrote as was captured if there are at most eight of them and the
      upper-layer header is not an opaque one, and by its Ethernet header otherwise. */
  lemma Ipv6RoundTrip(e: Link, h: Header6, t: Transport, n: nat)
    requires IsLink(e) && IsHeader6(h) && IsTransport(t, 58) && IsUpper(Protocol(t, 58))
    requires n <= |TransportBytes(t, 58)|
    ensures Identify(Frame6(e, h, t, n))
            == if Size(h.chain) <= 8 && IsNamed(Protocol(t, 58)) then Identity6(h, t, n) else Identity2(e, 0x86DD)
  {
    Frame6Reads(e, h, t, n);
    Frame6Identifies(Frame6(e, h, t, n), e, h, t, n, MAX_EXTENSION_HEADERS);
  }

  /** A chain that leads to another extension header of which less than the first eight bytes were captured
      leads nowhere. */
  lemma {:induction false} ChainBreaksOff(frame: Frame, o: nat, xs: Chain, last: Byte, later: bool, left: nat, end: nat)
    requires IsExtension(last as int) && LiesIn(frame, o, xs, last, end) && !Fits(frame, end, 8)
    ensures Resolve(frame, Cursor(FirstType(xs, last) as int, o, later), left) == None
    decreases xs
  {
    if xs.Then? && left > 0 {
      ChainBreaksOff(frame, o + Length(xs.head), xs.tail, last, IsLater(xs.head, later), left - 1, end);
    }
  }

  /** An IPv6 frame whose capture ends inside an extension header is identified by its Ethernet header. */
  lemma Ipv6ChainCutOff(e: Link, h: Header6, last: Byte, part: Frame)
    requires IsLink(e) && IsHeader6(h) && !IsUpper(last as int) && |part| < 8
    ensures Identify(LinkBytes(e, 0x86DD) + (Fixed6(h, last) + (ChainBytes(h.chain, last) + part)))
            == Identity2(e, 0x86DD)
  {
    var link, chain := LinkBytes(e, 0x86DD), ChainBytes(h.chain, last);
    var frame, ip := link + (Fixed6(h, last) + (chain + part)), |link|;
    ThreeParts(link, Fixed6(h, last), chain + part);
    LinkReads(frame, e, 0x86DD);
    L2KeyReads(frame, e, 0x86DD);
    Fixed6Reads(frame, ip, h, last);
    HoldsParts(frame, ip + 40, chain, part);
    ChainLies(frame, ip + 40, h.chain, last);
    ChainBreaksOff(frame, ip + 40, h.chain, last, false, MAX_EXTENSION_HEADERS, ip + 40 + |chain|);
  }
}
