/** Edge-triggered failure logging with a hold-off (`include/utils/KeyedFailureLog.hpp`). */
module FailureLog {
  import opened Prelude

  datatype Key = Key(name: string)

  datatype Timing = Timing(reportAfter: int, forgetAfter: int)

  datatype Entry = Entry(firstSeen: int, lastSeen: int, passes: int, reported: bool)

  /** What one pass makes of one key: its entry afterwards, whether it is newly reported, and, if it is
      reported as recovered, in how many passes it had been seen. */
  datatype Close = Close(entry: Option<Entry>, isNew: bool, recovered: Option<int>)

  // ---------------------------------------------------------------- one key, one pass

  predicate HasExpired(t: Timing, e: Option<Entry>, now: int) {
    e.Some? && now - e.value.lastSeen >= t.forgetAfter && t.forgetAfter > 0
  }

  function RecoveredAs(e: Entry): Option<int> {
    if e.reported then Some(e.passes) else None
  }

  /** The entry after the key was recorded in this pass, before the report is decided. */
  function Refreshed(e: Option<Entry>, now: int): Entry {
    match e
    case None => Entry(now, now, 1, false)
    case Some(x) => x.(passes := x.passes + 1, lastSeen := now)
  }

  predicate IsDue(t: Timing, e: Entry, now: int) {
    !e.reported && now - e.firstSeen >= t.reportAfter
  }

  predicate IsGone(t: Timing, e: Option<Entry>, now: int) {
    e.Some? && now - e.value.lastSeen >= t.forgetAfter
  }

  function ClosePass(t: Timing, e: Option<Entry>, seen: bool, now: int): Close {
    var expired := HasExpired(t, e, now);
    var kept := if expired then None else e;
    var recovered := if expired then RecoveredAs(e.value) else None;
    if seen then
      var x := Refreshed(kept, now);
      if IsDue(t, x, now) then Close(Some(x.(reported := true)), true, recovered) else Close(Some(x), false, recovered)
    else if IsGone(t, kept, now) then Close(None, false, RecoveredAs(kept.value))
    else Close(kept, false, recovered)
  }

  // ---------------------------------------------------------------- the class

  /** `newFailures` maps a key to its message, `recovered` to its number of passes. */
  datatype Report = Report(newFailures: map<Key, string>, recovered: map<Key, int>)

  /** One pass as it will be remembered: when it ended, and which keys were recorded in it. */
  datatype Pass = Pass(time: int, keys: set<Key>)

  /** The entries and the report say of key `k` what `c` says. */
  ghost predicate IsClosed(c: Close, pass: map<Key, string>, entries: map<Key, Entry>, report: Report, k: Key) {
    && Lookup(entries, k) == c.entry
    && Lookup(report.recovered, k) == c.recovered
    && (k in report.newFailures <==> c.isNew)
    && (c.isNew ==> Lookup(report.newFailures, k) == Lookup(pass, k))
  }

  class KeyedFailureLog {
    const timing: Timing
    var thisPass: map<Key, string>
    var open: map<Key, Entry>
    ghost var history: seq<Pass>

    /** The entries are what the whole history makes of them. */
    ghost predicate Valid()
      reads this
    {
      forall k :: Lookup(open, k) == After(timing, TicksOf(history, k))
    }

    /** Without a `forgetAfter`, twice `reportAfter`. */
    constructor (reportAfter: int, forgetAfter: Option<int>)
      ensures Valid() && history == [] && thisPass == map[]
      ensures timing == Timing(reportAfter, if forgetAfter.Some? then forgetAfter.value else 2 * reportAfter)
    {
      timing := Timing(reportAfter, if forgetAfter.Some? then forgetAfter.value else 2 * reportAfter);
      thisPass, open, history := map[], map[], [];
    }

    method Record(key: Key, message: string)
      requires Valid()
      modifies this
      ensures Valid() && history == old(history) && open == old(open)
      ensures thisPass == old(thisPass)[key := message]
    {
      thisPass := thisPass[key := message];
    }

    /** `endPass`: what the pass reports is, key for key, what the key's whole history calls for. */
    method EndPass(now: int) returns (report: Report)
      requires Valid()
      modifies this
      ensures Valid() && thisPass == map[]
      ensures history == old(history) + [Pass(now, old(thisPass).Keys)]
      ensures forall k ::
                IsClosed(ClosePass(timing, After(timing, TicksOf(old(history), k)), k in old(thisPass), now),
                         old(thisPass), open, report, k)
    {
      ghost var before, pass := open, thisPass;
      open, report := CloseAll(now);
      history := history + [Pass(now, pass.Keys)];
      forall k
        ensures Lookup(open, k) == After(timing, TicksOf(history, k))
        ensures IsClosed(ClosePass(timing, After(timing, TicksOf(old(history), k)), k in pass, now),
                         pass, open, report, k)
      {
        assert IsClosed(ClosePass(timing, Lookup(before, k), k in pass, now), pass, open, report, k);
        assert Lookup(before, k) == After(timing, TicksOf(old(history), k));
        TicksGrow(old(history), Pass(now, pass.Keys), k, timing);
      }
      thisPass := map[];
    }

    /** The expiry loop, the loop over the keys of this pass, the pruning loop. */
    method CloseAll(now: int) returns (entries: map<Key, Entry>, report: Report)
      ensures forall k :: IsClosed(ClosePass(timing, Lookup(open, k), k in thisPass, now), thisPass, entries, report, k)
    {
      var expired := ExpireAll(open, now);
      var recorded := RecordAll(expired.0, now);
      var pruned := Prune(recorded.0, expired.1, now);
      entries, report := pruned.0, Report(recorded.1, pruned.1);
      forall k ensures IsClosed(ClosePass(timing, Lookup(open, k), k in thisPass, now), thisPass, entries, report, k) {
        assert Lookup(expired.0, k) == if HasExpired(timing, Lookup(open, k), now) then None else Lookup(open, k);
        assert Lookup(recorded.1, k).Some? <==> k in recorded.1;
      }
    }

    method ExpireAll(entries: map<Key, Entry>, now: int) returns (r: (map<Key, Entry>, map<Key, int>))
      ensures forall k ::
                Lookup(r.0, k) == if HasExpired(timing, Lookup(entries, k), now) then None else Lookup(entries, k)
      ensures forall k :: Lookup(r.1, k) ==
                if HasExpired(timing, Lookup(entries, k), now) then RecoveredAs(entries[k]) else None
    {
      var kept, recovered := entries, map[];
      var todo := entries.Keys;
      while todo != {}
        invariant todo <= entries.Keys
        invariant forall k :: Lookup(kept, k) ==
                    if k !in todo && HasExpired(timing, Lookup(entries, k), now) then None else Lookup(entries, k)
        invariant forall k :: Lookup(recovered, k) ==
                    if k !in todo && HasExpired(timing, Lookup(entries, k), now) then RecoveredAs(entries[k]) else None
        decreases todo
      {
        var key :| key in todo;
        todo := todo - {key};
        if HasExpired(timing, Some(kept[key]), now) {
          if kept[key].reported {
            recovered := recovered[key := kept[key].passes];
          }
          kept := kept - {key};
        }
      }
      r := (kept, recovered);
    }

    method RecordAll(entries: map<Key, Entry>, now: int) returns (r: (map<Key, Entry>, map<Key, string>))
      ensures forall k ::
                var x := Refreshed(Lookup(entries, k), now);
                && Lookup(r.0, k) == (if k !in thisPass then Lookup(entries, k)
                                      else if IsDue(timing, x, now) then Some(x.(reported := true)) else Some(x))
                && Lookup(r.1, k) == (if k in thisPass && IsDue(timing, x, now) then Some(thisPass[k]) else None)
    {
      var updated, fresh' := entries, map[];
      var todo := thisPass.Keys;
      while todo != {}
        invariant todo <= thisPass.Keys
        invariant forall k ::
                    var x := Refreshed(Lookup(entries, k), now);
                    && Lookup(updated, k) == (if k !in thisPass || k in todo then Lookup(entries, k)
                                              else if IsDue(timing, x, now) then Some(x.(reported := true))
                                              else Some(x))
                    && Lookup(fresh', k) == (if k in thisPass && k !in todo && IsDue(timing, x, now)
                                             then Some(thisPass[k]) else None)
        decreases todo
      {
        var key :| key in todo;
        todo := todo - {key};
        var x := Refreshed(Lookup(updated, key), now);
        if IsDue(timing, x, now) {
          x := x.(reported := true);
          fresh' := fresh'[key := thisPass[key]];
        }
        updated := updated[key := x];
      }
      r := (updated, fresh');
    }

    method Prune(entries: map<Key, Entry>, sofar: map<Key, int>, now: int) returns (r: (map<Key, Entry>, map<Key, int>))
      ensures forall k ::
                var gone := k !in thisPass && IsGone(timing, Lookup(entries, k), now);
                && Lookup(r.0, k) == (if gone then None else Lookup(entries, k))
                && Lookup(r.1, k) == (if gone && entries[k].reported then Some(entries[k].passes) else Lookup(sofar, k))
    {
      var kept, recovered := entries, sofar;
      var todo := entries.Keys;
      while todo != {}
        invariant todo <= entries.Keys
        invariant forall k ::
                    var gone := k !in todo && k !in thisPass && IsGone(timing, Lookup(entries, k), now);
                    && Lookup(kept, k) == (if gone then None else Lookup(entries, k))
                    && Lookup(recovered, k) == (if gone && entries[k].reported
                                                then Some(entries[k].passes) else Lookup(sofar, k))
        decreases todo
      {
        var key :| key in todo;
        todo := todo - {key};
        if key !in thisPass && IsGone(timing, Some(kept[key]), now) {
          if kept[key].reported {
            recovered := recovered[key := kept[key].passes];
          }
          kept := kept - {key};
        }
      }
      r := (kept, recovered);
    }
  }

  // ---------------------------------------------------------------- one key, its whole history

  /** One pass from the point of view of one key. */
  datatype Tick = Tick(time: int, seen: bool)

  ghost function TicksOf(history: seq<Pass>, k: Key): (h: seq<Tick>)
    ensures |h| == |history|
  {
    seq(|history|, i requires 0 <= i < |history| => Tick(history[i].time, k in history[i].keys))
  }

  function After(t: Timing, h: seq<Tick>): Option<Entry> {
    if h == [] then None
    else
      var x := h[|h| - 1];
      ClosePass(t, After(t, h[..|h| - 1]), x.seen, x.time).entry
  }

  lemma TicksGrow(history: seq<Pass>, p: Pass, k: Key, t: Timing)
    ensures TicksOf(history + [p], k) == TicksOf(history, k) + [Tick(p.time, k in p.keys)]
    ensures After(t, TicksOf(history + [p], k))
            == ClosePass(t, After(t, TicksOf(history, k)), k in p.keys, p.time).entry
  {
    var h, h' := TicksOf(history, k), TicksOf(history + [p], k);
    assert h' == h + [Tick(p.time, k in p.keys)];
    assert h'[..|h|] == h;
  }
}
