/** What the incremental state of the failure log means in terms of the whole history of passes
    (`include/utils/KeyedFailureLog.hpp`). */
module FailureHistory {
  import opened Prelude
  import opened FailureLog

  type History = seq<Tick>

  ghost predicate IsMonotone(h: History) {
    forall i, j | 0 <= i < j < |h| :: h[i].time <= h[j].time
  }

  // ---------------------------------------------------------------- runs of sightings

  predicate Seen(h: History, i: int) {
    0 <= i < |h| && h[i].seen
  }

  /** `i` and `j` are sightings with none between them. */
  ghost predicate AreConsecutive(h: History, i: int, j: int) {
    Seen(h, i) && Seen(h, j) && i < j && forall k | i < k < j :: !Seen(h, k)
  }

  /** The gap between two sightings is short enough to be one fault: below `forgetAfter`, or, when that
      is zero, no absent pass at all. */
  predicate IsShortGap(t: Timing, h: History, i: int, j: int)
    requires 0 <= i < j < |h|
  {
    if t.forgetAfter > 0 then h[j].time - h[i].time < t.forgetAfter else j == i + 1
  }

  /** The run that ends with sighting `l` starts with sighting `s`. */
  ghost predicate IsRunOf(t: Timing, h: History, s: int, l: int) {
    && Seen(h, s) && Seen(h, l) && s <= l
    && (forall i, j | s <= i && j <= l && AreConsecutive(h, i, j) :: IsShortGap(t, h, i, j))
    && (forall p | AreConsecutive(h, p, s) :: !IsShortGap(t, h, p, s))
  }

  ghost predicate IsLast(h: History, l: int) {
    Seen(h, l) && forall k | l < k < |h| :: !h[k].seen
  }

  /** The run of the last sighting `l` has not been forgotten by the end of the history. */
  predicate IsRemembered(t: Timing, h: History, l: int)
    requires 0 <= l < |h|
  {
    if t.forgetAfter > 0 then h[|h| - 1].time - h[l].time < t.forgetAfter else l == |h| - 1
  }

  function Count(h: History, s: int, l: int): int
    decreases l - s
  {
    if l < s then 0 else (if Seen(h, l) then 1 else 0) + Count(h, s, l - 1)
  }

  /** The run from `s` to `l` has lasted long enough to be reported. */
  predicate HasLasted(t: Timing, h: History, s: int, l: int)
    requires 0 <= s <= l < |h|
  {
    h[l].time - h[s].time >= t.reportAfter
  }

  /** The entry for the run from `s` to `l`. */
  function EntryOf(t: Timing, h: History, s: int, l: int): Entry
    requires 0 <= s <= l < |h|
  {
    Entry(h[s].time, h[l].time, Count(h, s, l), HasLasted(t, h, s, l))
  }

  /** What an entry, or its absence, says about the history. */
  ghost predicate Describes(t: Timing, h: History, e: Option<Entry>) {
    match e
    case None => forall l | IsLast(h, l) :: !IsRemembered(t, h, l)
    case Some(x) => exists s, l :: IsOpenRun(t, h, s, l) && x == EntryOf(t, h, s, l)
  }

  ghost predicate IsOpenRun(t: Timing, h: History, s: int, l: int) {
    IsLast(h, l) && IsRemembered(t, h, l) && IsRunOf(t, h, s, l)
  }

  // ---------------------------------------------------------------- a history that grows

  lemma SightingsStay(h: History, x: Tick)
    ensures forall i | i < |h| :: Seen(h + [x], i) == Seen(h, i)
    ensures forall i, j | j < |h| :: AreConsecutive(h + [x], i, j) == AreConsecutive(h, i, j)
    ensures forall i | i < |h| && IsLast(h + [x], i) :: IsLast(h, i)
    ensures !x.seen ==> forall i | IsLast(h, i) :: IsLast(h + [x], i)
    ensures forall i | AreConsecutive(h + [x], i, |h|) :: IsLast(h, i)
  {
    var h' := h + [x];
    assert forall i | 0 <= i < |h| :: h'[i] == h[i];
    forall i, j | j < |h| ensures AreConsecutive(h', i, j) == AreConsecutive(h, i, j) {
      assert forall k | i < k < j :: Seen(h', k) == Seen(h, k);
    }
    forall i | AreConsecutive(h', i, |h|) ensures IsLast(h, i) {
      forall k | i < k < |h| ensures !h[k].seen {
        assert !Seen(h', k);
      }
    }
    forall i | i < |h| && IsLast(h', i) ensures IsLast(h, i) {
      forall k | i < k < |h| ensures !h[k].seen {
        assert !h'[k].seen;
      }
    }
    forall i | IsLast(h, i) && !x.seen ensures IsLast(h', i) {
      forall k | i < k < |h'| ensures !h'[k].seen {
        assert k < |h| ==> !h[k].seen;
      }
    }
  }

  lemma {:induction false} CountStays(h: History, x: Tick, s: int, l: int)
    requires l < |h|
    ensures Count(h + [x], s, l) == Count(h, s, l)
    decreases l - s
  {
    if l >= s {
      CountStays(h, x, s, l - 1);
      assert 0 <= l ==> (h + [x])[l] == h[l];
    }
  }

  lemma {:induction false} CountOfGap(h: History, s: int, l: int, n: int)
    requires s <= l <= n && forall k | l < k <= n :: !Seen(h, k)
    ensures Count(h, s, n) == Count(h, s, l)
    decreases n - l
  {
    if l < n {
      CountOfGap(h, s, l, n - 1);
    }
  }

  lemma RunStays(t: Timing, h: History, x: Tick, s: int, l: int)
    requires IsRunOf(t, h, s, l)
    ensures IsRunOf(t, h + [x], s, l) && EntryOf(t, h + [x], s, l) == EntryOf(t, h, s, l)
  {
    var h' := h + [x];
    SightingsStay(h, x);
    CountStays(h, x, s, l);
    assert forall i | 0 <= i < |h| :: h'[i] == h[i];
    forall i, j | s <= i && j <= l && AreConsecutive(h', i, j) ensures IsShortGap(t, h', i, j) {
      assert AreConsecutive(h, i, j);
      assert IsShortGap(t, h, i, j);
    }
    forall p | AreConsecutive(h', p, s) ensures !IsShortGap(t, h', p, s) {
      assert AreConsecutive(h, p, s);
      assert !IsShortGap(t, h, p, s);
    }
  }

  /** A sighting that is not close to the last one starts a run. */
  lemma RunStarts(t: Timing, h: History, x: Tick)
    requires x.seen
    requires forall l | IsLast(h, l) :: !IsShortGap(t, h + [x], l, |h|)
    ensures IsRunOf(t, h + [x], |h|, |h|) && Count(h + [x], |h|, |h|) == 1
  {
    SightingsStay(h, x);
    assert (h + [x])[|h|] == x;
    assert Count(h + [x], |h|, |h| - 1) == 0;
  }

  /** A sighting close to the last one extends its run. */
  lemma RunExtends(t: Timing, h: History, x: Tick, s: int, l: int)
    requires x.seen && IsLast(h, l) && IsRunOf(t, h, s, l) && IsShortGap(t, h + [x], l, |h|)
    ensures IsRunOf(t, h + [x], s, |h|) && Count(h + [x], s, |h|) == Count(h, s, l) + 1
  {
    var h' := h + [x];
    SightingsStay(h, x);
    RunStays(t, h, x, s, l);
    CountStays(h, x, s, l);
    assert h'[|h|] == x;
    forall i, j | s <= i && j <= |h| && AreConsecutive(h', i, j) ensures IsShortGap(t, h', i, j) {
      if j == |h| {
        assert IsLast(h, i);
        assert i == l;
      } else {
        assert AreConsecutive(h, i, j) && Seen(h, j);
      }
    }
    CountOfGap(h', s, l, |h| - 1);
  }

  // ---------------------------------------------------------------- the theorem

  /** For every history with non-decreasing times, the incremental entry is the one the whole history
      calls for: a key is open exactly while its last run is remembered, and is marked reported exactly
      when that run has lasted `reportAfter`. */
  lemma {:induction false} EntryDescribesHistory(t: Timing, h: History)
    requires IsMonotone(h)
    ensures Describes(t, h, After(t, h))
  {
    if h != [] {
      var before, x := h[..|h| - 1], h[|h| - 1];
      assert h == before + [x];
      EntryDescribesHistory(t, before);
      if x.seen {
        var s := SeenPass(t, before, x, After(t, before));
      } else {
        UnseenPass(t, before, x, After(t, before));
      }
    }
  }

  /** A pass with a sighting: the run it belongs to, and whether that run is reported in it. */
  lemma SeenPass(t: Timing, h: History, x: Tick, e: Option<Entry>) returns (s: int)
    requires IsMonotone(h + [x]) && Describes(t, h, e) && x.seen
    ensures IsOpenRun(t, h + [x], s, |h|)
    ensures var c := ClosePass(t, e, true, x.time);
            && c.entry == Some(EntryOf(t, h + [x], s, |h|))
            && (c.isNew <==> && HasLasted(t, h + [x], s, |h|)
                             && forall l | s <= l < |h| && IsLast(h, l) :: !HasLasted(t, h, s, l))
  {
    var h', n := h + [x], |h|;
    assert h'[n] == x;
    SightingsStay(h, x);
    assert IsLast(h', n) && IsRemembered(t, h', n);
    if e.Some? && !HasExpired(t, e, x.time) {
      var first, l :| IsOpenRun(t, h, first, l) && e.value == EntryOf(t, h, first, l);
      s := first;
      assert h'[s] == h[s] && h'[l] == h[l];
      RunExtends(t, h, x, s, l);
      assert h'[l].time <= h'[n].time;
    } else {
      forall l | IsLast(h, l) ensures !IsShortGap(t, h', l, n) {
        LongGap(t, h, x, e, l);
      }
      RunStarts(t, h, x);
      s := n;
    }
  }

  lemma LongGap(t: Timing, h: History, x: Tick, e: Option<Entry>, l: int)
    requires IsMonotone(h + [x]) && Describes(t, h, e) && IsLast(h, l)
    requires e.None? || HasExpired(t, e, x.time)
    ensures !IsShortGap(t, h + [x], l, |h|)
  {
    var h' := h + [x];
    assert h'[l] == h[l] && h'[|h|] == x && h'[|h| - 1] == h[|h| - 1];
    assert h'[|h| - 1].time <= h'[|h|].time;
    if e.Some? {
      var s, last :| IsOpenRun(t, h, s, last) && e.value == EntryOf(t, h, s, last);
      assert last == l;
    }
  }

  lemma UnseenPass(t: Timing, h: History, x: Tick, e: Option<Entry>)
    requires IsMonotone(h + [x]) && Describes(t, h, e) && !x.seen
    ensures Describes(t, h + [x], ClosePass(t, e, false, x.time).entry)
  {
    var h', n := h + [x], |h|;
    assert h'[n] == x && (n > 0 ==> h'[n - 1] == h[n - 1] && h'[n - 1].time <= h'[n].time);
    SightingsStay(h, x);
    match e {
      case None =>
        forall l | IsLast(h', l) ensures !IsRemembered(t, h', l) {
          assert IsLast(h, l) && h'[l] == h[l];
        }
      case Some(y) =>
        var s, l :| IsOpenRun(t, h, s, l) && y == EntryOf(t, h, s, l);
        assert h'[l] == h[l] && h'[l].time <= h'[n].time;
        if x.time - h[l].time >= t.forgetAfter {
          forall k | IsLast(h', k) ensures !IsRemembered(t, h', k) {
            assert IsLast(h, k) && k == l;
          }
        } else {
          RunStays(t, h, x, s, l);
          assert IsOpenRun(t, h', s, l);
        }
    }
  }

  // ---------------------------------------------------------------- what is reported when

  lemma {:induction false} PreviousSighting(h: History, a: int, b: int) returns (p: int)
    requires Seen(h, a) && Seen(h, b) && a < b
    ensures a <= p && AreConsecutive(h, p, b)
    decreases b - a
  {
    if exists k :: a < k < b && Seen(h, k) {
      var k :| a < k < b && Seen(h, k);
      p := PreviousSighting(h, k, b);
    } else {
      p := a;
    }
  }

  /** The run of a sighting has one start. */
  lemma RunStartIsUnique(t: Timing, h: History, s: int, s': int, l: int)
    requires IsRunOf(t, h, s, l) && IsRunOf(t, h, s', l)
    ensures s == s'
  {
    if s < s' {
      var p := PreviousSighting(h, s, s');
      assert false;
    } else if s' < s {
      var p := PreviousSighting(h, s', s);
      assert false;
    }
  }

  /** The run that ends with sighting `l` lasts long enough there and at no sighting before. */
  ghost predicate LastsFirstAt(t: Timing, h: History, s: int, l: int) {
    && IsRunOf(t, h, s, l) && HasLasted(t, h, s, l)
    && forall k | s <= k < l && Seen(h, k) :: !HasLasted(t, h, s, k)
  }

  /** A failure is reported exactly in the pass whose sighting first makes its run last `reportAfter`. */
  lemma ReportedWhenItHasLasted(t: Timing, h: History, x: Tick)
    requires IsMonotone(h + [x])
    ensures ClosePass(t, After(t, h), x.seen, x.time).isNew <==> x.seen && exists s :: LastsFirstAt(t, h + [x], s, |h|)
  {
    var h', n := h + [x], |h|;
    assert IsMonotone(h) by { assert forall i | 0 <= i < n :: h'[i] == h[i]; }
    EntryDescribesHistory(t, h);
    if x.seen {
      var s := SeenPass(t, h, x, After(t, h));
      LastOfRunDecides(t, h, x, s);
      assert ClosePass(t, After(t, h), true, x.time).isNew <==> LastsFirstAt(t, h', s, n);
      forall s' | LastsFirstAt(t, h', s', n) ensures s' == s {
        RunStartIsUnique(t, h', s, s', n);
      }
    }
  }

  /** A run whose last sighting has not lasted had none before that did. */
  lemma LastOfRunDecides(t: Timing, h: History, x: Tick, s: int)
    requires IsMonotone(h + [x]) && IsRunOf(t, h + [x], s, |h|)
    ensures (forall l | s <= l < |h| && IsLast(h, l) :: !HasLasted(t, h, s, l))
            <==> (forall k | s <= k < |h| && Seen(h + [x], k) :: !HasLasted(t, h + [x], s, k))
  {
    var h', n := h + [x], |h|;
    assert forall i | 0 <= i < n :: h'[i] == h[i];
    SightingsStay(h, x);
    if s < n {
      var l := PreviousSighting(h', s, n);
      assert IsLast(h, l);
      forall k | s <= k < n && Seen(h', k) ensures h'[k].time <= h'[l].time {
        assert k <= l;
      }
    }
  }

  /** The run from `s` to `l` is over when the pass `x` closes. */
  predicate IsOver(t: Timing, h: History, x: Tick, l: int)
    requires 0 <= l < |h|
  {
    if t.forgetAfter > 0 then x.time - h[l].time >= t.forgetAfter else !x.seen
  }

  /** A recovery is reported exactly in the pass that ends a run which had been reported, with the
      number of passes the run was seen in. */
  lemma RecoveredWhenItIsOver(t: Timing, h: History, x: Tick, passes: int)
    requires IsMonotone(h + [x])
    ensures ClosePass(t, After(t, h), x.seen, x.time).recovered == Some(passes) <==>
              exists s, l :: && IsOpenRun(t, h, s, l) && HasLasted(t, h, s, l) && IsOver(t, h, x, l)
                             && passes == Count(h, s, l)
  {
    var h', n := h + [x], |h|;
    assert forall i | 0 <= i < n :: h'[i] == h[i];
    assert h'[n] == x;
    assert IsMonotone(h);
    EntryDescribesHistory(t, h);
    var e := After(t, h);
    if e.Some? {
      var s, l :| IsOpenRun(t, h, s, l) && e.value == EntryOf(t, h, s, l);
      assert h'[l].time <= h'[n].time;
      forall s', l' | IsOpenRun(t, h, s', l') ensures s' == s && l' == l {
        assert l' == l;
        RunStartIsUnique(t, h, s, s', l);
      }
    }
  }

  /** Closing a pass and then closing again, at whatever later time, with nothing recorded between: a fault
      is reported as recovered exactly when it had been reported and has by then not been seen for
      `forgetAfter`. */
  lemma SecondCloseRecovers(t: Timing, h: History, later: int)
    requires h != [] && IsMonotone(h) && h[|h| - 1].time <= later
    ensures ClosePass(t, After(t, h), false, later).recovered.Some? <==>
              exists s, l :: IsOpenRun(t, h, s, l) && HasLasted(t, h, s, l) && later - h[l].time >= t.forgetAfter
  {
    var second := Tick(later, false);
    forall i, j | 0 <= i < j < |h + [second]| ensures (h + [second])[i].time <= (h + [second])[j].time {
      assert j == |h| ==> h[i].time <= h[|h| - 1].time;
    }
    var c := ClosePass(t, After(t, h), false, later);
    if c.recovered.Some? {
      RecoveredWhenItIsOver(t, h, second, c.recovered.value);
      var s, l :| IsOpenRun(t, h, s, l) && HasLasted(t, h, s, l) && IsOver(t, h, second, l);
      assert h[l].time <= h[|h| - 1].time;
    }
    forall s, l | IsOpenRun(t, h, s, l) && HasLasted(t, h, s, l) && later - h[l].time >= t.forgetAfter
      ensures c.recovered == Some(Count(h, s, l))
    {
      RecoveredWhenItIsOver(t, h, second, Count(h, s, l));
    }
  }

  /** For a fault seen in the pass that is closed twice, that is when `forgetAfter` passes between the closes. */
  lemma SecondCloseOfSeen(t: Timing, h: History, n: nat, later: int)
    requires |h| == n + 1 && IsMonotone(h) && h[n].seen && h[n].time <= later
    ensures ClosePass(t, After(t, h), false, later).recovered.Some? <==>
              later - h[n].time >= t.forgetAfter && exists s :: IsRunOf(t, h, s, n) && HasLasted(t, h, s, n)
  {
    SecondCloseRecovers(t, h, later);
    assert IsLast(h, n) && IsRemembered(t, h, n);
    assert forall s | IsRunOf(t, h, s, n) :: IsOpenRun(t, h, s, n);
    assert forall s, l | IsOpenRun(t, h, s, l) :: l == n;
  }

  /** A reported fault that a second close at once does not recover. */
  lemma SecondCloseKeepsReported()
    ensures var t, h := Timing(0, 5), [Tick(0, true)];
            After(t, h) == Some(Entry(0, 0, 1, true)) && ClosePass(t, After(t, h), false, 0).recovered.None?
            && ClosePass(t, After(t, h), false, 5).recovered.Some?
  {
    assert [Tick(0, true)][..0] == [];
  }

  // ---------------------------------------------------------------- reports and recoveries alternate

  datatype Event = Reported | Recovered

  /** The lines the log has written for one key, recoveries of a pass first. */
  ghost function Lines(t: Timing, h: History): seq<Event> {
    if h == [] then []
    else
      var x := h[|h| - 1];
      var c := ClosePass(t, After(t, h[..|h| - 1]), x.seen, x.time);
      Lines(t, h[..|h| - 1]) + (if c.recovered.Some? then [Recovered] else []) + (if c.isNew then [Reported] else [])
  }

  /** For every history, whatever its times: reports and recoveries of a key strictly alternate, a report
      first, and the key is marked reported exactly while the last line is a report. */
  lemma {:induction false} ReportsAlternate(t: Timing, h: History)
    ensures forall i | 0 <= i < |Lines(t, h)| :: Lines(t, h)[i] == if i % 2 == 0 then Reported else Recovered
    ensures |Lines(t, h)| % 2 == 1 <==> After(t, h).Some? && After(t, h).value.reported
  {
    if h != [] {
      ReportsAlternate(t, h[..|h| - 1]);
    }
  }
}
