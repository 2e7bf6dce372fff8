/** The difference between two sets of flow tables (`getFlowTableDiff` of
    `include/common_types/SFlowType.hpp`), and that it is exact: applied to the old tables it gives the
    new ones, reversed and applied to the new ones it gives the old. */
module FlowDiff {
  import opened Prelude

  /** A flow rule as the tables list it. */
  datatype Rule = Rule(net: int, mask: int, out: int, priority: int)

  datatype Key = Key(net: int, mask: int, priority: int)

  type RuleMap = map<Key, int>
  type Tables = map<Dpid, seq<Rule>>

  datatype FlowChange = FlowChange(key: Key, oldOut: int, newOut: int)

  datatype Diff = Diff(dpid: Dpid, added: seq<FlowChange>, removed: seq<FlowChange>, modified: seq<FlowChange>)

  // ---------------------------------------------------------------- what a table means

  /** The out port per key; of duplicates the last counts. */
  function Meaning(rules: seq<Rule>): RuleMap {
    if rules == [] then map[]
    else
      var r := rules[|rules| - 1];
      Meaning(rules[..|rules| - 1])[Key(r.net, r.mask, r.priority) := r.out]
  }

  /** The rule has exactly this net, mask and priority. */
  predicate IsFor(r: Rule, k: Key) {
    r.net == k.net && r.mask == k.mask && r.priority == k.priority
  }

  /** The last of the rules for `k` is the `i`-th. */
  ghost predicate IsLastFor(rules: seq<Rule>, k: Key, i: nat) {
    i < |rules| && IsFor(rules[i], k) && forall j | i < j < |rules| :: !IsFor(rules[j], k)
  }

  /** The rules send what `k` matches out of `out`. */
  ghost predicate Sends(rules: seq<Rule>, k: Key, out: int) {
    exists i: nat :: IsLastFor(rules, k, i) && rules[i].out == out
  }

  ghost predicate IsSilent(rules: seq<Rule>, k: Key) {
    forall i | 0 <= i < |rules| :: !IsFor(rules[i], k)
  }

  /** The map says of a net, mask and priority what the last rule for them says, and nothing if there is none. */
  lemma {:induction false} MeaningOfRules(rules: seq<Rule>, k: Key)
    ensures forall out :: Lookup(Meaning(rules), k) == Some(out) <==> Sends(rules, k, out)
    ensures Lookup(Meaning(rules), k) == None <==> IsSilent(rules, k)
  {
    if rules != [] {
      var n := |rules| - 1;
      MeaningOfRules(rules[..n], k);
      if IsFor(rules[n], k) {
        assert IsLastFor(rules, k, n);
        assert forall i: nat | IsLastFor(rules, k, i) :: i == n;
      } else {
        forall i: nat ensures IsLastFor(rules, k, i) <==> IsLastFor(rules[..n], k, i) {
        }
        assert forall out :: Sends(rules, k, out) <==> Sends(rules[..n], k, out);
      }
    }
  }

  /** The rules of a switch; an absent one has none. */
  function RulesAt(tables: Tables, d: Dpid): seq<Rule> {
    if d in tables then tables[d] else []
  }

  function MeaningAt(tables: Tables, d: Dpid): RuleMap {
    Meaning(RulesAt(tables, d))
  }

  // ---------------------------------------------------------------- the difference

  ghost predicate HasUniqueKeys(changes: seq<FlowChange>) {
    forall i, j | 0 <= i < j < |changes| :: changes[i].key != changes[j].key
  }

  predicate IsAddition(was: RuleMap, now: RuleMap, c: FlowChange) {
    c.key !in was && c.key in now && c.oldOut == 0 && c.newOut == now[c.key]
  }

  predicate IsModification(was: RuleMap, now: RuleMap, c: FlowChange) {
    c.key in was && c.key in now && was[c.key] != now[c.key] && c.oldOut == was[c.key] && c.newOut == now[c.key]
  }

  predicate IsRemoval(was: RuleMap, now: RuleMap, c: FlowChange) {
    c.key in was && c.key !in now && c.oldOut == was[c.key] && c.newOut == 0
  }

  /** The three lists hold exactly the additions, removals and modifications, each key once. */
  ghost predicate IsDiffOf(was: RuleMap, now: RuleMap, d: Diff) {
    && (forall c :: c in d.added <==> IsAddition(was, now, c))
    && (forall c :: c in d.modified <==> IsModification(was, now, c))
    && (forall c :: c in d.removed <==> IsRemoval(was, now, c))
    && HasUniqueKeys(d.added) && HasUniqueKeys(d.modified) && HasUniqueKeys(d.removed)
  }

  /** The same, told from the rules: what is new is sent somewhere now and was not, what is gone was and is not,
      what has changed is sent elsewhere. */
  ghost predicate ListsChanges(was: seq<Rule>, now: seq<Rule>, d: Diff) {
    && (forall c :: c in d.added <==> IsSilent(was, c.key) && Sends(now, c.key, c.newOut) && c.oldOut == 0)
    && (forall c :: c in d.removed <==> Sends(was, c.key, c.oldOut) && IsSilent(now, c.key) && c.newOut == 0)
    && (forall c :: c in d.modified <==>
          Sends(was, c.key, c.oldOut) && Sends(now, c.key, c.newOut) && c.oldOut != c.newOut)
  }

  lemma DiffListsChanges(was: seq<Rule>, now: seq<Rule>, d: Diff)
    requires IsDiffOf(Meaning(was), Meaning(now), d)
    ensures ListsChanges(was, now, d)
  {
    forall c
      ensures c in d.added <==> IsSilent(was, c.key) && Sends(now, c.key, c.newOut) && c.oldOut == 0
      ensures c in d.removed <==> Sends(was, c.key, c.oldOut) && IsSilent(now, c.key) && c.newOut == 0
      ensures c in d.modified <==>
                Sends(was, c.key, c.oldOut) && Sends(now, c.key, c.newOut) && c.oldOut != c.newOut
    {
      MeaningOfRules(was, c.key);
      MeaningOfRules(now, c.key);
      assert forall out :: Lookup(Meaning(was), c.key) == Some(out) <==> Sends(was, c.key, out);
    }
  }

  /** The tables differ: something is sent out of `out` by one and not by the other. */
  ghost predicate Disagree(was: seq<Rule>, now: seq<Rule>) {
    exists k, out :: Sends(was, k, out) != Sends(now, k, out)
  }

  lemma DisagreeByMeaning(was: seq<Rule>, now: seq<Rule>)
    ensures Disagree(was, now) <==> Meaning(was) != Meaning(now)
  {
    forall k
      ensures forall out :: Lookup(Meaning(was), k) == Some(out) <==> Sends(was, k, out)
      ensures forall out :: Lookup(Meaning(now), k) == Some(out) <==> Sends(now, k, out)
    {
      MeaningOfRules(was, k);
      MeaningOfRules(now, k);
    }
    if !Disagree(was, now) {
      forall k ensures Lookup(Meaning(was), k) == Lookup(Meaning(now), k) {
        var a, b := Lookup(Meaning(was), k), Lookup(Meaning(now), k);
        assert a.Some? ==> Sends(was, k, a.value) && Sends(now, k, a.value);
        assert b.Some? ==> Sends(now, k, b.value) && Sends(was, k, b.value);
      }
      SameMap(Meaning(was), Meaning(now));
    } else {
      var k, out :| Sends(was, k, out) != Sends(now, k, out);
      assert Lookup(Meaning(was), k) != Lookup(Meaning(now), k) by {
        MeaningOfRules(was, k);
        MeaningOfRules(now, k);
      }
    }
  }

  predicate IsEmpty(d: Diff) {
    d.added == [] && d.removed == [] && d.modified == []
  }

  lemma DifferenceShows(was: RuleMap, now: RuleMap, d: Diff, k: Key)
    requires IsDiffOf(was, now, d) && Lookup(was, k) != Lookup(now, k)
    ensures !IsEmpty(d)
  {
    var c := FlowChange(k, if k in was then was[k] else 0, if k in now then now[k] else 0);
    assert IsAddition(was, now, c) || IsRemoval(was, now, c) || IsModification(was, now, c);
  }

  lemma DifferenceIsReal(was: RuleMap, now: RuleMap, d: Diff)
    requires IsDiffOf(was, now, d) && !IsEmpty(d)
    ensures was != now
  {
    var c := if d.added != [] then d.added[0] else if d.removed != [] then d.removed[0] else d.modified[0];
    assert c in d.added || c in d.removed || c in d.modified;
    assert Lookup(was, c.key) != Lookup(now, c.key);
  }

  lemma SameMap(a: RuleMap, b: RuleMap)
    requires forall k :: Lookup(a, k) == Lookup(b, k)
    ensures a == b
  {
    forall k ensures k in a <==> k in b {
      assert Lookup(a, k) == Lookup(b, k);
    }
    assert forall k | k in a :: Lookup(a, k) == Lookup(b, k);
  }

  /** A difference is empty exactly when the two meanings agree. */
  lemma EmptyMeansEqual(was: RuleMap, now: RuleMap, d: Diff)
    requires IsDiffOf(was, now, d)
    ensures IsEmpty(d) <==> was == now
  {
    if IsEmpty(d) {
      forall k ensures Lookup(was, k) == Lookup(now, k) {
        if Lookup(was, k) != Lookup(now, k) {
          DifferenceShows(was, now, d, k);
          assert false;
        }
      }
      SameMap(was, now);
    } else {
      DifferenceIsReal(was, now, d);
    }
  }

  // ---------------------------------------------------------------- the loops

  method BuildMap(rules: seq<Rule>) returns (m: RuleMap)
    ensures m == Meaning(rules)
  {
    m := map[];
    for i := 0 to |rules|
      invariant m == Meaning(rules[..i])
    {
      assert rules[..i + 1][..i] == rules[..i];
      m := m[Key(rules[i].net, rules[i].mask, rules[i].priority) := rules[i].out];
    }
    assert rules[..|rules|] == rules;
  }

  /** The loop over the new rules. */
  method AddedAndModified(was: RuleMap, now: RuleMap) returns (added: seq<FlowChange>, modified: seq<FlowChange>)
    ensures forall c :: c in added <==> IsAddition(was, now, c)
    ensures forall c :: c in modified <==> IsModification(was, now, c)
    ensures HasUniqueKeys(added) && HasUniqueKeys(modified)
  {
    added, modified := [], [];
    var todo := now.Keys;
    while todo != {}
      invariant todo <= now.Keys
      invariant forall c :: c in added <==> IsAddition(was, now, c) && c.key !in todo
      invariant forall c :: c in modified <==> IsModification(was, now, c) && c.key !in todo
      invariant HasUniqueKeys(added) && HasUniqueKeys(modified)
      decreases todo
    {
      var k :| k in todo;
      assert forall i | 0 <= i < |added| :: added[i] in added;
      assert forall i | 0 <= i < |modified| :: modified[i] in modified;
      if k !in was {
        added := added + [FlowChange(k, 0, now[k])];
      } else if was[k] != now[k] {
        modified := modified + [FlowChange(k, was[k], now[k])];
      }
      todo := todo - {k};
    }
  }

  /** The loop over the old rules. */
  method Removed(was: RuleMap, now: RuleMap) returns (removed: seq<FlowChange>)
    ensures forall c :: c in removed <==> IsRemoval(was, now, c)
    ensures HasUniqueKeys(removed)
  {
    removed := [];
    var todo := was.Keys;
    while todo != {}
      invariant todo <= was.Keys
      invariant forall c :: c in removed <==> IsRemoval(was, now, c) && c.key !in todo
      invariant HasUniqueKeys(removed)
      decreases todo
    {
      var k :| k in todo;
      assert forall i | 0 <= i < |removed| :: removed[i] in removed;
      if k !in now {
        removed := removed + [FlowChange(k, was[k], 0)];
      }
      todo := todo - {k};
    }
  }

  /** Every entry is the difference of its switch, and not empty; every switch has at most one. */
  ghost predicate AreDiffs(was: Tables, now: Tables, diffs: seq<Diff>) {
    && (forall i | 0 <= i < |diffs| :: IsDiffOf(MeaningAt(was, diffs[i].dpid), MeaningAt(now, diffs[i].dpid), diffs[i]))
    && (forall i | 0 <= i < |diffs| :: !IsEmpty(diffs[i]))
    && (forall i, j | 0 <= i < j < |diffs| :: diffs[i].dpid != diffs[j].dpid)
  }

  predicate Mentions(diffs: seq<Diff>, d: Dpid) {
    exists i | 0 <= i < |diffs| :: diffs[i].dpid == d
  }

  method DiffSwitch(was: RuleMap, now: RuleMap, d: Dpid) returns (diff: Diff)
    ensures diff.dpid == d && IsDiffOf(was, now, diff)
    ensures IsEmpty(diff) <==> was == now
  {
    var added, modified := AddedAndModified(was, now);
    var removed := Removed(was, now);
    diff := Diff(d, added, removed, modified);
    EmptyMeansEqual(was, now, diff);
  }

  /** One switch more: it is mentioned exactly when its tables differ. */
  ghost predicate IsMentionedIfChanged(was: Tables, now: Tables, diffs: seq<Diff>, d: Dpid) {
    Mentions(diffs, d) <==> MeaningAt(was, d) != MeaningAt(now, d)
  }

  lemma OneMore(was: Tables, now: Tables, diffs: seq<Diff>, diff: Diff, x: Dpid)
    requires AreDiffs(was, now, diffs) && !Mentions(diffs, diff.dpid)
    requires IsDiffOf(MeaningAt(was, diff.dpid), MeaningAt(now, diff.dpid), diff) && !IsEmpty(diff)
    ensures AreDiffs(was, now, diffs + [diff])
    ensures Mentions(diffs + [diff], x) <==> Mentions(diffs, x) || x == diff.dpid
  {
    var diffs' := diffs + [diff];
    assert forall i | 0 <= i < |diffs| :: diffs'[i] == diffs[i];
    assert diffs'[|diffs|] == diff;
    if Mentions(diffs, x) {
      var i :| 0 <= i < |diffs| && diffs[i].dpid == x;
      assert diffs'[i].dpid == x;
    }
  }

  /** `getFlowTableDiff`: the switches of the new tables, then those only the old ones have. */
  method GetFlowTableDiff(was: Tables, now: Tables) returns (diffs: seq<Diff>)
    ensures AreDiffs(was, now, diffs)
    ensures forall d :: IsMentionedIfChanged(was, now, diffs, d)
    ensures forall i | 0 <= i < |diffs| ::
              ListsChanges(RulesAt(was, diffs[i].dpid), RulesAt(now, diffs[i].dpid), diffs[i])
    ensures forall d :: Mentions(diffs, d) <==> Disagree(RulesAt(was, d), RulesAt(now, d))
  {
    diffs := Collect(was, now);
    forall i | 0 <= i < |diffs|
      ensures ListsChanges(RulesAt(was, diffs[i].dpid), RulesAt(now, diffs[i].dpid), diffs[i])
    {
      DiffListsChanges(RulesAt(was, diffs[i].dpid), RulesAt(now, diffs[i].dpid), diffs[i]);
    }
    forall d ensures Mentions(diffs, d) <==> Disagree(RulesAt(was, d), RulesAt(now, d)) {
      DisagreeByMeaning(RulesAt(was, d), RulesAt(now, d));
      assert IsMentionedIfChanged(was, now, diffs, d);
    }
  }

  method Collect(was: Tables, now: Tables) returns (diffs: seq<Diff>)
    ensures AreDiffs(was, now, diffs)
    ensures forall d :: IsMentionedIfChanged(was, now, diffs, d)
  {
    diffs := [];
    var todo := now.Keys + was.Keys;
    var fromNew := now.Keys;
    while todo != {}
      invariant todo <= now.Keys + was.Keys && fromNew == todo * now.Keys
      invariant AreDiffs(was, now, diffs)
      invariant forall d | d in todo :: !Mentions(diffs, d)
      invariant forall d | d !in todo :: IsMentionedIfChanged(was, now, diffs, d)
      decreases todo
    {
      var d;
      if fromNew != {} {
        d :| d in fromNew;
      } else {
        d :| d in todo;
      }
      var oldMap, newMap: RuleMap := map[], map[];
      if d in was {
        oldMap := BuildMap(was[d]);
      }
      if d in now {
        newMap := BuildMap(now[d]);
      }
      var diff := DiffSwitch(oldMap, newMap, d);
      todo, fromNew := todo - {d}, fromNew - {d};
      if !IsEmpty(diff) {
        forall x ensures Mentions(diffs + [diff], x) <==> Mentions(diffs, x) || x == d {
          OneMore(was, now, diffs, diff, x);
        }
        OneMore(was, now, diffs, diff, d);
        diffs := diffs + [diff];
      }
    }
  }

  // ---------------------------------------------------------------- applying it

  function RemoveAll(m: RuleMap, changes: seq<FlowChange>): RuleMap {
    if changes == [] then m else RemoveAll(m, changes[..|changes| - 1]) - {changes[|changes| - 1].key}
  }

  function SetAll(m: RuleMap, changes: seq<FlowChange>): RuleMap {
    if changes == [] then m
    else
      var c := changes[|changes| - 1];
      SetAll(m, changes[..|changes| - 1])[c.key := c.newOut]
  }

  /** The rules after the removals, the modifications and the additions. */
  function Patch(m: RuleMap, d: Diff): RuleMap {
    SetAll(SetAll(RemoveAll(m, d.removed), d.modified), d.added)
  }

  /** The difference the other way: additions become removals, old and new change places. */
  function Reversed(d: Diff): Diff {
    Diff(d.dpid, Swapped(d.removed), Swapped(d.added), Swapped(d.modified))
  }

  function Swapped(changes: seq<FlowChange>): (r: seq<FlowChange>)
    ensures |r| == |changes|
    ensures forall i | 0 <= i < |r| :: r[i] == FlowChange(changes[i].key, changes[i].newOut, changes[i].oldOut)
  {
    seq(|changes|, i requires 0 <= i < |changes| => FlowChange(changes[i].key, changes[i].newOut, changes[i].oldOut))
  }

  lemma {:induction false} RemoveAllAt(m: RuleMap, changes: seq<FlowChange>, k: Key)
    ensures Lookup(RemoveAll(m, changes), k) ==
              if exists i :: 0 <= i < |changes| && changes[i].key == k then None else Lookup(m, k)
  {
    if changes != [] {
      var rest := changes[..|changes| - 1];
      RemoveAllAt(m, rest, k);
      assert forall i | 0 <= i < |rest| :: rest[i] == changes[i];
    }
  }

  lemma {:induction false} SetAllElsewhere(m: RuleMap, changes: seq<FlowChange>, k: Key)
    requires forall i | 0 <= i < |changes| :: changes[i].key != k
    ensures Lookup(SetAll(m, changes), k) == Lookup(m, k)
  {
    if changes != [] {
      SetAllElsewhere(m, changes[..|changes| - 1], k);
    }
  }

  lemma {:induction false} SetAllAt(m: RuleMap, changes: seq<FlowChange>, i: nat)
    requires HasUniqueKeys(changes) && i < |changes|
    ensures Lookup(SetAll(m, changes), changes[i].key) == Some(changes[i].newOut)
  {
    if i < |changes| - 1 {
      SetAllAt(m, changes[..|changes| - 1], i);
    }
  }

  lemma SetAllBy(m: RuleMap, changes: seq<FlowChange>, c: FlowChange)
    requires HasUniqueKeys(changes) && c in changes
    ensures Lookup(SetAll(m, changes), c.key) == Some(c.newOut)
  {
    var i :| 0 <= i < |changes| && changes[i] == c;
    SetAllAt(m, changes, i);
  }

  /** Applying a switch's difference to its old rules gives exactly its new rules. */
  lemma PatchGivesNew(was: RuleMap, now: RuleMap, d: Diff)
    requires IsDiffOf(was, now, d)
    ensures Patch(was, d) == now
  {
    forall k ensures Lookup(Patch(was, d), k) == Lookup(now, k) {
      PatchAt(was, now, d, k);
    }
    SameMap(Patch(was, d), now);
  }

  lemma PatchAt(was: RuleMap, now: RuleMap, d: Diff, k: Key)
    requires IsDiffOf(was, now, d)
    ensures Lookup(Patch(was, d), k) == Lookup(now, k)
  {
    var m1 := RemoveAll(was, d.removed);
    var m2 := SetAll(m1, d.modified);
    assert forall i | 0 <= i < |d.removed| :: d.removed[i] in d.removed;
    assert forall i | 0 <= i < |d.modified| :: d.modified[i] in d.modified;
    assert forall i | 0 <= i < |d.added| :: d.added[i] in d.added;
    RemoveAllAt(was, d.removed, k);
    if k in now && k !in was {
      SetAllBy(m2, d.added, FlowChange(k, 0, now[k]));
    } else {
      SetAllElsewhere(m2, d.added, k);
      if k in was && k in now && was[k] != now[k] {
        SetAllBy(m1, d.modified, FlowChange(k, was[k], now[k]));
      } else {
        SetAllElsewhere(m1, d.modified, k);
        if k in was && k !in now {
          var c := FlowChange(k, was[k], 0);
          assert IsRemoval(was, now, c) && c in d.removed;
        }
      }
    }
  }

  lemma SwappedIn(changes: seq<FlowChange>, c: FlowChange)
    ensures c in Swapped(changes) <==> FlowChange(c.key, c.newOut, c.oldOut) in changes
  {
    var r := Swapped(changes);
    if c in r {
      var i :| 0 <= i < |r| && r[i] == c;
      assert changes[i] == FlowChange(c.key, c.newOut, c.oldOut);
    }
    if FlowChange(c.key, c.newOut, c.oldOut) in changes {
      var i :| 0 <= i < |changes| && changes[i] == FlowChange(c.key, c.newOut, c.oldOut);
      assert r[i] == c;
    }
  }

  /** The reversed difference is the difference the other way, so it takes the new rules back to the old. */
  lemma ReversedTakesBack(was: RuleMap, now: RuleMap, d: Diff)
    requires IsDiffOf(was, now, d)
    ensures IsDiffOf(now, was, Reversed(d)) && Patch(now, Reversed(d)) == was
  {
    var r := Reversed(d);
    forall c ensures c in r.added <==> IsAddition(now, was, c) {
      SwappedIn(d.removed, c);
    }
    forall c ensures c in r.removed <==> IsRemoval(now, was, c) {
      SwappedIn(d.added, c);
    }
    forall c ensures c in r.modified <==> IsModification(now, was, c) {
      SwappedIn(d.modified, c);
    }
    PatchGivesNew(now, was, r);
  }

  /** The rules of switch `d` after applying whatever the list holds for it. */
  function Patched(m: RuleMap, diffs: seq<Diff>, d: Dpid): RuleMap {
    if diffs == [] then m
    else if diffs[0].dpid == d then Patch(m, diffs[0])
    else Patched(m, diffs[1..], d)
  }

  function ReversedAll(diffs: seq<Diff>): (r: seq<Diff>)
    ensures |r| == |diffs| && forall i | 0 <= i < |r| :: r[i] == Reversed(diffs[i])
  {
    seq(|diffs|, i requires 0 <= i < |diffs| => Reversed(diffs[i]))
  }

  lemma {:induction false} PatchedAt(m: RuleMap, diffs: seq<Diff>, i: nat)
    requires i < |diffs| && forall k | 0 <= k < i :: diffs[k].dpid != diffs[i].dpid
    ensures Patched(m, diffs, diffs[i].dpid) == Patch(m, diffs[i])
  {
    if i > 0 {
      PatchedAt(m, diffs[1..], i - 1);
    }
  }

  lemma {:induction false} PatchedElsewhere(m: RuleMap, diffs: seq<Diff>, d: Dpid)
    requires !Mentions(diffs, d)
    ensures Patched(m, diffs, d) == m
  {
    if diffs != [] {
      assert diffs[0].dpid != d;
      forall i | 0 <= i < |diffs[1..]| ensures diffs[1..][i].dpid != d {
        assert diffs[i + 1].dpid != d;
      }
      PatchedElsewhere(m, diffs[1..], d);
    }
  }

  /** What the method returns turns the old tables into the new, and reversed, the new into the old, on
      every switch. */
  lemma DiffIsExact(was: Tables, now: Tables, diffs: seq<Diff>, d: Dpid)
    requires AreDiffs(was, now, diffs) && IsMentionedIfChanged(was, now, diffs, d)
    ensures Patched(MeaningAt(was, d), diffs, d) == MeaningAt(now, d)
    ensures Patched(MeaningAt(now, d), ReversedAll(diffs), d) == MeaningAt(was, d)
  {
    var back := ReversedAll(diffs);
    if Mentions(diffs, d) {
      var i :| 0 <= i < |diffs| && diffs[i].dpid == d;
      PatchedAt(MeaningAt(was, d), diffs, i);
      PatchGivesNew(MeaningAt(was, d), MeaningAt(now, d), diffs[i]);
      PatchedAt(MeaningAt(now, d), back, i);
      ReversedTakesBack(MeaningAt(was, d), MeaningAt(now, d), diffs[i]);
    } else {
      PatchedElsewhere(MeaningAt(was, d), diffs, d);
      assert !Mentions(back, d) by {
        forall i | 0 <= i < |back| ensures back[i].dpid != d {
          assert diffs[i].dpid != d;
        }
      }
      PatchedElsewhere(MeaningAt(now, d), back, d);
    }
  }
}
