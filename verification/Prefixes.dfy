/** Which addresses a destination match holds, told from their binary digits (`prefix_len` of
    `examples/p4_energy_saving/route_walk.py`). */
module Prefixes {
  import opened Prelude
  import opened RouteWalk

  /** Four octets. */
  predicate IsAddress(ip: Ip) {
    0 <= ip.addr < 0x1_0000_0000
  }

  /** The binary digits of a number, the lowest first. */
  function Digits(n: nat, width: nat): (r: seq<bool>)
    ensures |r| == width
  {
    if width == 0 then [] else [n % 2 == 1] + Digits(n / 2, width - 1)
  }

  const WIDTH: nat := 32

  /** Two addresses agree in their first `plen` digits, those that come last when the lowest come first. */
  ghost predicate AgreeInPrefix(a: Ip, b: Ip, plen: PrefixLen)
    requires IsAddress(a) && IsAddress(b)
  {
    Digits(a.addr, WIDTH)[WIDTH - plen..] == Digits(b.addr, WIDTH)[WIDTH - plen..]
  }

  lemma ProductGrows(d: int, x: int, y: int)
    requires d >= 0 && x <= y
    ensures d * x <= d * y
  {
  }

  lemma QuotientIs(n: int, d: int, q: int)
    requires d > 0 && d * q <= n < d * q + d
    ensures n / d == q
  {
    var q' := n / d;
    assert d * q' <= n < d * q' + d;
    assert d * (q' + 1) == d * q' + d && d * (q + 1) == d * q + d;
    if q' < q {
      ProductGrows(d, q' + 1, q);
    } else if q < q' {
      ProductGrows(d, q + 1, q');
    }
  }

  lemma HalfDivides(n: nat, p: nat)
    requires p > 0
    ensures n / (2 * p) == n / 2 / p
  {
    var q := n / 2 / p;
    assert p * q <= n / 2 < p * q + p;
    assert (2 * p) * q == 2 * (p * q);
    QuotientIs(n, 2 * p, q);
  }

  /** Numbers of `width` digits are equal above the lowest `m` exactly when those digits are. */
  lemma {:induction false} EqualByDigits(a: nat, b: nat, m: nat, width: nat)
    requires a < Pow2(width) && b < Pow2(width) && m <= width
    ensures a / Pow2(m) == b / Pow2(m) <==> Digits(a, width)[m..] == Digits(b, width)[m..]
    decreases width
  {
    if width > 0 {
      var x, y := Digits(a, width), Digits(b, width);
      assert x[1..] == Digits(a / 2, width - 1) && y[1..] == Digits(b / 2, width - 1);
      if m > 0 {
        EqualByDigits(a / 2, b / 2, m - 1, width - 1);
        HalfDivides(a, Pow2(m - 1));
        HalfDivides(b, Pow2(m - 1));
        assert x[m..] == x[1..][m - 1..] && y[m..] == y[1..][m - 1..];
      } else {
        EqualByDigits(a / 2, b / 2, 0, width - 1);
        assert x[1..][0..] == x[1..] && y[1..][0..] == y[1..];
        assert x[0..] == [x[0]] + x[1..] && y[0..] == [y[0]] + y[1..];
      }
    }
  }

  lemma Words()
    ensures Pow2(32) == 0x1_0000_0000
  {
    assert Pow2(8) == 256;
    assert Pow2(16) == 0x1_0000;
    assert Pow2(24) == 0x100_0000;
  }

  lemma AgreeByQuotient(a: Ip, b: Ip, plen: PrefixLen, m: nat)
    requires IsAddress(a) && IsAddress(b) && m == WIDTH - plen
    ensures a.addr / Pow2(m) == b.addr / Pow2(m) <==> AgreeInPrefix(a, b, plen)
  {
    Words();
    EqualByDigits(a.addr, b.addr, m, WIDTH);
  }

  /** An lpm match holds exactly the addresses that begin with the same digits, and is as specific as there are
      digits. */
  lemma PrefixHolds(value: Ip, plen: PrefixLen, ip: Ip)
    requires IsAddress(value) && IsAddress(ip)
    ensures PrefixLength(Lpm(value, plen), ip) == if AgreeInPrefix(value, ip, plen) then Some(plen) else None
  {
    AgreeByQuotient(value, ip, plen, 32 - plen);
  }

  /** An exact match is one on all digits, and a match on none holds every address. */
  lemma PrefixExtremes(value: Ip, ip: Ip)
    requires IsAddress(value) && IsAddress(ip)
    ensures PrefixLength(Exact(value), ip) == PrefixLength(Lpm(value, 32), ip)
    ensures PrefixLength(Lpm(value, 0), ip) == Some(0)
  {
    Words();
    PrefixHolds(value, 0, ip);
  }

  function AddressOf(m: Match): Ip {
    if m.Lpm? then m.value else m.ip
  }

  /** The match holds the address: it begins with the same digits, or is the same. */
  ghost predicate Matches(m: Match, ip: Ip)
    requires IsAddress(ip) && IsAddress(AddressOf(m))
  {
    match m
    case Lpm(value, plen) => AgreeInPrefix(value, ip, plen)
    case Exact(value) => value == ip
  }

  /** An entry covers what its match holds, as specifically as that says, and without a match nothing. */
  lemma EntryCovers(e: Entry, ip: Ip)
    requires IsAddress(ip) && (e.dst.Some? ==> IsAddress(AddressOf(e.dst.value)))
    ensures Covers(e, ip) <==> e.dst.Some? && Matches(e.dst.value, ip)
    ensures Covers(e, ip) ==> EntryLength(e, ip) == Some(if e.dst.value.Lpm? then e.dst.value.plen else 32)
  {
    if e.dst.Some? && e.dst.value.Lpm? {
      PrefixHolds(e.dst.value.value, e.dst.value.plen, ip);
    }
  }
}
