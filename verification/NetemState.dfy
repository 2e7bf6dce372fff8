/** What a machine's queueing disciplines, the commands run on them and the reports on a link's ends say
    about each other (`include/utils/NetemLinkFault.hpp`). */
module NetemState {
  import opened Prelude
  import opened QdiscTree
  import opened NetemLedger

  // ---------------------------------------------------------------- the machine's state

  type Trees = map<Iface, Tree>

  function TreeOf(trees: Trees, i: Iface): Tree {
    if i in trees then trees[i] else DefaultTree
  }

  /** The netems this kernel attached, by the handles the system gave them. */
  type Mine = map<Handle, Iface>

  ghost predicate IsOwned(tree: Tree, mine: Mine, i: Iface) {
    forall q | q in tree && q.handle in mine :: q.kind.Netem? && mine[q.handle] == i
  }

  ghost predicate IsSound(tree: Tree, next: int, mine: Mine, i: Iface) {
    IsBelow(tree, next) && IsOwned(tree, mine, i) && IsWellListed(tree) && KeepsZero(tree)
  }

  ghost predicate TreesAreSound(trees: Trees, next: int, mine: Mine) {
    && next > 0
    && (forall i :: IsSound(TreeOf(trees, i), next, mine, i))
    && (forall h | h in mine :: 0 < h.n < next)
  }

  /** What the ledger claims, this kernel did attach. */
  ghost predicate ClaimsAreTrue(view: View, mine: Mine) {
    forall i | i in view && view[i].Some? :: Lookup(mine, view[i].value) == Some(i)
  }

  /** A delete this kernel ran: on which interface, which qdisc it meant, the tree before and after. */
  datatype Deletion = Deletion(iface: Iface, target: Qdisc, before: Tree, after: Tree)

  /** This kernel had attached the target there, and every line lost is the target or hangs below it. */
  ghost predicate IsLawful(d: Deletion, mine: Mine) {
    && Lookup(mine, d.target.handle) == Some(d.iface) && d.target in d.before && d.target.kind.Netem?
    && forall j | 0 <= j < |d.before| && d.before[j] !in d.after ::
         || d.before[j] == d.target
         || exists i :: 0 <= i < |d.before| && d.before[i] == d.target && HangsBelow(d.before, i, j)
  }

  // ---------------------------------------------------------------- commands

  /** What a command is run for. */
  datatype Step = ReadToPlan | ReadToCut | AddNetem | ReadBack | ReadToSight | DelNetem | ReadToCheck

  datatype Command = Command(step: Step, iface: Iface)

  /** The commands since the `start`-th that the machine failed. */
  ghost function Failed(log: seq<Command>, world: nat -> bool, start: nat): set<Command> {
    set k | start <= k < |log| && !world(k) :: log[k]
  }

  lemma FailedGrows(log: seq<Command>, world: nat -> bool, start: nat, c: Command)
    requires start <= |log|
    ensures Failed(log + [c], world, start) == Failed(log, world, start) + (if world(|log|) then {} else {c})
  {
    var log' := log + [c];
    assert forall k | 0 <= k < |log| :: log'[k] == log[k];
    forall x | x in Failed(log', world, start)
      ensures x in Failed(log, world, start) + (if world(|log|) then {} else {c})
    {
      var k :| start <= k < |log'| && !world(k) && log'[k] == x;
      assert k < |log| ==> log[k] == x;
    }
    forall x | x in Failed(log, world, start) ensures x in Failed(log', world, start) {
      var k :| start <= k < |log| && !world(k) && log[k] == x;
      assert log'[k] == x;
    }
    if !world(|log|) {
      assert log'[|log|] == c;
    }
  }

  /** A command that had to succeed for a cut. */
  predicate IsForCut(s: Step) {
    s.ReadToPlan? || s.ReadToCut? || s.AddNetem?
  }

  /** A command that has to succeed for an end that was cut to be taken back. */
  predicate IsForUndo(s: Step) {
    s.ReadBack? || s.ReadToSight? || s.DelNetem?
  }

  ghost predicate CutFailed(failed: set<Command>) {
    exists c :: c in failed && IsForCut(c.step)
  }

  predicate CutFailedAt(failed: set<Command>, i: Iface) {
    Command(ReadToPlan, i) in failed || Command(ReadToCut, i) in failed || Command(AddNetem, i) in failed
  }

  predicate UndoFailedAt(failed: set<Command>, i: Iface) {
    Command(ReadBack, i) in failed || Command(ReadToSight, i) in failed || Command(DelNetem, i) in failed
  }

  /** Nothing has failed since but commands of these steps on this interface. */
  ghost predicate OnlyAt(before: set<Command>, after: set<Command>, i: Iface, steps: set<Step>) {
    before <= after && forall c | c in after && c !in before :: c.iface == i && c.step in steps
  }

  /** The machine at one moment: its trees, the netems that are this kernel's, what the ledger says, and the
      commands of the current call that have failed. */
  datatype Snap = Snap(trees: Trees, mine: Mine, view: View, failed: set<Command>)

  function TreeAt(s: Snap, i: Iface): Tree {
    TreeOf(s.trees, i)
  }

  /** Nothing about this interface is different. */
  ghost predicate IsSameAt(a: Snap, z: Snap, i: Iface) {
    TreeAt(z, i) == TreeAt(a, i) && Lookup(z.view, i) == Lookup(a.view, i)
  }

  // ---------------------------------------------------------------- what is seen of an end

  datatype Provenance = NoNetem | Ours | Foreign | Unreadable

  /** One read of an interface, and what it established. */
  datatype Sighting = Sighting(provenance: Provenance, netem: Option<Qdisc>)

  /** What a read of `tree` must establish: the netem is this kernel's if its place is printed and its handle
      is the one the ledger names. */
  function SightingOf(tree: Tree, view: View, i: Iface, readable: bool): Sighting {
    if !i.Mininet? || !readable then Sighting(Unreadable, None)
    else
      var netem := FirstNetem(tree);
      if netem.None? then Sighting(NoNetem, None)
      else if Lookup(view, i) != Some(Some(netem.value.handle)) || netem.value.place.Unprinted?
      then Sighting(Foreign, netem)
      else Sighting(Ours, netem)
  }

  ghost predicate IsSightingOf(seen: Sighting, tree: Tree, view: View, i: Iface) {
    seen == SightingOf(tree, view, i, true) || seen == SightingOf(tree, view, i, false)
  }

  lemma OursIsShown(seen: Sighting, tree: Tree, view: View, mine: Mine, i: Iface)
    requires IsSightingOf(seen, tree, view, i) && seen.provenance.Ours? && ClaimsAreTrue(view, mine)
    ensures ShowsNetem(tree) && seen.netem == FirstNetem(tree) && Lookup(mine, seen.netem.value.handle) == Some(i)
  {
    assert i in view && view[i].Some?;
  }

  predicate ShowsNetem(tree: Tree) {
    FirstNetem(tree).Some? && !FirstNetem(tree).value.place.Unprinted?
  }

  /** What taking an end back comes to: only a netem of this kernel's comes off, and it does unless the delete
      fails; success is told and the claim given up unless a netem is still shown. */
  ghost predicate IsTakenBack(p: Provenance, before: Tree, after: Tree, claim: Option<Option<Handle>>,
                              claim': Option<Option<Handle>>, delFailed: bool, checkFailed: bool, ok: bool) {
    match p
    case NoNetem => ok && after == before && claim' == None
    case Ours =>
      if delFailed then !ok && after == before && claim' == claim
      else
        && FirstNetem(before).Some? && after == Delete(before, FirstNetem(before).value.place)
        && (ok <==> checkFailed || !ShowsNetem(after)) && claim' == (if ok then None else claim)
    case Foreign => !ok && after == before && claim' == claim
    case Unreadable => !ok && after == before && claim' == claim
  }

  // ---------------------------------------------------------------- reports on a cut

  /** The report on one end. `traced` says that the tree was read after the attach, `rolledBack` how the
      undoing of the attach went. */
  datatype EndReport =
    EndReport(iface: Iface, ok: bool, refused: bool, failed: bool, traced: bool, rolledBack: Option<bool>)

  /** A report that says why its end was not cut. */
  predicate SaysWhyNot(r: EndReport) {
    !r.ok && (r.refused || r.failed)
  }

  ghost predicate CanBePlanned(tree: Tree, i: Iface) {
    i.Mininet? && HasPlace(tree)
  }

  /** This kernel may cut the end: a Mininet interface, and a tree with a free place. */
  ghost predicate CanBeCut(tree: Tree, i: Iface) {
    i.Mininet? && HasFreePlace(tree)
  }

  /** There is a place, but it is taken. */
  ghost predicate IsOccupied(tree: Tree, i: Iface) {
    CanBePlanned(tree, i) && !CanBeCut(tree, i)
  }

  /** The tree is as if nothing had been attached: untouched, or cut and restored, which loses a root that was
      neither a shaper nor the system's default. */
  ghost predicate IsUndone(before: Tree, after: Tree) {
    after == before || (IsUnshaped(before) && after == Reset(before))
  }

  /** Such a tree is the very same one if the root is a shaper, or the system's default with nothing below. */
  lemma UndoneIsSame(before: Tree, after: Tree)
    requires IsUndone(before, after) && (!IsUnshaped(before) || HasDefaultRoot(before))
    ensures after == before
  {
    ResetIsSame(before);
  }

  predicate IsNotAmong(x: Iface, reports: seq<EndReport>) {
    forall i | 0 <= i < |reports| :: reports[i].iface != x
  }

  ghost predicate HasDistinct(ifaces: seq<Iface>) {
    forall i, j | 0 <= i < j < |ifaces| :: ifaces[i] != ifaces[j]
  }

  /** No interface that can carry a netem is named twice; ends without a name may be. */
  ghost predicate HasNoRepeats(ifaces: seq<Iface>) {
    forall i, j | 0 <= i < j < |ifaces| && ifaces[i].Mininet? :: ifaces[i] != ifaces[j]
  }

  /** The end is cut by a netem this kernel has attached since `a`, and the ledger names it if the tree could be
      read afterwards. */
  ghost predicate IsCutEnd(a: Snap, z: Snap, r: EndReport, h: Handle) {
    && r.iface.Mininet? && IsCut(TreeAt(a, r.iface), TreeAt(z, r.iface), h)
    && h !in a.mine && Lookup(z.mine, h) == Some(r.iface)
    && Lookup(z.view, r.iface) == Some(if r.traced then Some(h) else None)
  }

  /** The ends in `cut` are cut, one netem each, all different interfaces, and nothing else has changed. */
  ghost predicate AreCut(a: Snap, z: Snap, cut: seq<EndReport>, handles: seq<Handle>) {
    && |cut| == |handles|
    && (forall i | 0 <= i < |cut| :: cut[i].ok && IsCutEnd(a, z, cut[i], handles[i]))
    && (forall i, j | 0 <= i < j < |cut| :: cut[i].iface != cut[j].iface)
    && (forall x | IsNotAmong(x, cut) :: IsSameAt(a, z, x))
    && a.mine.Keys <= z.mine.Keys
  }

  /** The ends whose read-back failed are those the reports call untraced. */
  ghost predicate AreTraced(failed: set<Command>, cut: seq<EndReport>) {
    && (forall i | 0 <= i < |cut| :: cut[i].traced <==> Command(ReadBack, cut[i].iface) !in failed)
    && (forall c | c in failed && c.step.ReadBack? :: !IsNotAmong(c.iface, cut))
  }

  /** All ends are cut, one new netem each, the ledger naming every one whose tree could be read back. */
  ghost predicate AreAllCut(a: Snap, z: Snap, ifaces: seq<Iface>, reports: seq<EndReport>) {
    && |reports| == |ifaces| && (forall i | 0 <= i < |ifaces| :: reports[i].iface == ifaces[i])
    && AreTraced(z.failed, reports) && exists handles :: AreCut(a, z, reports, handles)
  }

  /** The end was not cut, for a reason: as if nothing had been attached, exactly unless a command of its
      undoing failed; then its report says so and the netem is still there. */
  ghost predicate IsAccountedFor(a: Snap, z: Snap, r: EndReport) {
    && SaysWhyNot(r)
    && (r.failed ==> CutFailedAt(z.failed, r.iface) || !CanBeCut(TreeAt(a, r.iface), r.iface))
    && (r.rolledBack == Some(false) <==> UndoFailedAt(z.failed, r.iface))
    && (r.rolledBack == Some(true) ==> r.iface !in z.view)
    && if UndoFailedAt(z.failed, r.iface)
       then exists h :: Lookup(z.mine, h) == Some(r.iface) && IsCut(TreeAt(a, r.iface), TreeAt(z, r.iface), h)
       else IsUndone(TreeAt(a, r.iface), TreeAt(z, r.iface))
  }

  /** No end is cut, every end is accounted for, and nothing else has changed. */
  ghost predicate AreNotCut(a: Snap, z: Snap, ifaces: seq<Iface>, reports: seq<EndReport>) {
    && |reports| == |ifaces|
    && (forall i | 0 <= i < |reports| :: reports[i].iface == ifaces[i] && IsAccountedFor(a, z, reports[i]))
    && (forall x | x !in ifaces :: IsSameAt(a, z, x))
  }

  /** All or nothing: a cut that did not come off, and none of whose undoing failed, leaves every interface as
      if nothing had been attached, and exactly as it was under a shaper or the system's default root. */
  lemma NotCutLeavesNoTrace(a: Snap, z: Snap, ifaces: seq<Iface>, reports: seq<EndReport>)
    requires AreNotCut(a, z, ifaces, reports) && forall c | c in z.failed :: !IsForUndo(c.step)
    ensures forall x :: IsUndone(TreeAt(a, x), TreeAt(z, x))
    ensures forall x | !IsUnshaped(TreeAt(a, x)) || HasDefaultRoot(TreeAt(a, x)) :: TreeAt(z, x) == TreeAt(a, x)
  {
    forall x ensures IsUndone(TreeAt(a, x), TreeAt(z, x)) {
      if x in ifaces {
        var i :| 0 <= i < |ifaces| && ifaces[i] == x;
        assert IsAccountedFor(a, z, reports[i]);
      } else {
        assert IsSameAt(a, z, x);
      }
    }
    forall x | !IsUnshaped(TreeAt(a, x)) || HasDefaultRoot(TreeAt(a, x)) ensures TreeAt(z, x) == TreeAt(a, x) {
      UndoneIsSame(TreeAt(a, x), TreeAt(z, x));
    }
  }

  /** Which commands had failed before the call does not matter to what a cut comes to. */
  lemma CutSinceBegun(a: Snap, b: Snap, z: Snap, ifaces: seq<Iface>, reports: seq<EndReport>)
    requires b == a.(failed := b.failed)
    ensures AreNotCut(b, z, ifaces, reports) ==> AreNotCut(a, z, ifaces, reports)
    ensures AreAllCut(b, z, ifaces, reports) ==> AreAllCut(a, z, ifaces, reports)
  {
    if AreNotCut(b, z, ifaces, reports) {
      assert forall x :: IsSameAt(b, z, x) ==> IsSameAt(a, z, x);
      assert forall r :: IsAccountedFor(b, z, r) ==> IsAccountedFor(a, z, r);
    }
    if AreAllCut(b, z, ifaces, reports) {
      var handles :| AreCut(b, z, reports, handles);
      assert forall x :: IsSameAt(b, z, x) ==> IsSameAt(a, z, x);
      assert forall r, h :: IsCutEnd(b, z, r, h) ==> IsCutEnd(a, z, r, h);
      assert AreCut(a, z, reports, handles);
    }
  }

  // ---------------------------------------------------------------- cutting, end by end

  /** The reports are on the first of the ends, and none of them says that a command failed. */
  predicate AreFirst(ifaces: seq<Iface>, cut: seq<EndReport>) {
    && |cut| <= |ifaces|
    && forall i | 0 <= i < |cut| :: cut[i].iface == ifaces[i] && !cut[i].failed && cut[i].rolledBack == None
  }

  /** The cutting under way: the first ends are cut, and nothing but reading back has failed. */
  ghost predicate CutSoFar(a: Snap, z: Snap, ifaces: seq<Iface>, cut: seq<EndReport>, handles: seq<Handle>) {
    && AreCut(a, z, cut, handles) && AreFirst(ifaces, cut)
    && AreTraced(z.failed, cut) && forall c | c in z.failed :: c.step.ReadBack?
  }

  /** From `y` to `z` one more end was cut. */
  ghost predicate IsOneCut(y: Snap, z: Snap, r: EndReport, h: Handle) {
    && r.ok && !r.failed && r.rolledBack == None && IsCutEnd(y, z, r, h)
    && z.trees == y.trees[r.iface := TreeAt(z, r.iface)] && z.mine == y.mine[h := r.iface]
    && z.view == y.view[r.iface := if r.traced then Some(h) else None]
    && z.failed == y.failed + (if r.traced then {} else {Command(ReadBack, r.iface)})
  }

  /** One more end cut: it was none of those before it, and those stay as they were. */
  lemma OneMoreCut(a: Snap, y: Snap, z: Snap, ifaces: seq<Iface>, cut: seq<EndReport>, handles: seq<Handle>,
                   r: EndReport, h: Handle)
    requires CutSoFar(a, y, ifaces, cut, handles) && IsOneCut(y, z, r, h)
    requires |cut| < |ifaces| && r.iface == ifaces[|cut|]
    ensures CutSoFar(a, z, ifaces, cut + [r], handles + [h])
  {
    NewEnd(a, y, cut, handles, r.iface);
    OneMoreIsCut(a, y, z, cut, handles, r, h);
    OneMoreTraced(y.failed, z.failed, cut, r);
  }

  lemma OneMoreIsCut(a: Snap, y: Snap, z: Snap, cut: seq<EndReport>, handles: seq<Handle>, r: EndReport, h: Handle)
    requires AreCut(a, y, cut, handles) && IsNotAmong(r.iface, cut) && IsOneCut(y, z, r, h)
    ensures AreCut(a, z, cut + [r], handles + [h])
  {
    assert IsSameAt(a, y, r.iface);
    forall i | 0 <= i < |cut| ensures IsCutEnd(a, z, cut[i], handles[i]) {
      assert IsCutEnd(a, y, cut[i], handles[i]);
      assert handles[i] in y.mine && h !in y.mine;
    }
    forall x | IsNotAmong(x, cut + [r]) ensures IsSameAt(a, z, x) {
      assert (cut + [r])[|cut|] == r;
      assert forall i | 0 <= i < |cut| :: (cut + [r])[i] == cut[i];
      assert IsNotAmong(x, cut) && IsSameAt(a, y, x);
    }
  }

  /** An end that could be cut had not been cut before in the same call. */
  lemma NewEnd(a: Snap, z: Snap, cut: seq<EndReport>, handles: seq<Handle>, iface: Iface)
    requires AreCut(a, z, cut, handles) && !HasNetem(TreeAt(z, iface))
    ensures IsNotAmong(iface, cut)
  {
    forall i | 0 <= i < |cut| ensures cut[i].iface != iface {
      assert IsCutEnd(a, z, cut[i], handles[i]);
      CutHasOneNetem(TreeAt(a, cut[i].iface), TreeAt(z, cut[i].iface), handles[i]);
    }
  }

  lemma OneMoreTraced(failed: set<Command>, failed': set<Command>, cut: seq<EndReport>, r: EndReport)
    requires AreTraced(failed, cut) && IsNotAmong(r.iface, cut)
    requires failed' == failed + (if r.traced then {} else {Command(ReadBack, r.iface)})
    ensures AreTraced(failed', cut + [r])
  {
    var cut' := cut + [r];
    assert cut'[|cut|] == r && forall i | 0 <= i < |cut| :: cut'[i] == cut[i];
    assert Command(ReadBack, r.iface) !in failed;
    forall c | c in failed' && c.step.ReadBack? ensures !IsNotAmong(c.iface, cut') {
      if c in failed {
        var i :| 0 <= i < |cut| && cut[i].iface == c.iface;
        assert cut'[i].iface == c.iface;
      }
    }
  }

  lemma CutIsComplete(a: Snap, z: Snap, ifaces: seq<Iface>, cut: seq<EndReport>, handles: seq<Handle>)
    requires CutSoFar(a, z, ifaces, cut, handles) && |cut| == |ifaces|
    ensures AreAllCut(a, z, ifaces, cut) && HasDistinct(ifaces) && !CutFailed(z.failed)
    ensures forall i | 0 <= i < |ifaces| :: CanBeCut(TreeAt(a, ifaces[i]), ifaces[i])
  {
    forall i, j | 0 <= i < j < |ifaces| ensures ifaces[i] != ifaces[j] {
      assert cut[i].iface != cut[j].iface;
    }
    forall i | 0 <= i < |ifaces| ensures CanBeCut(TreeAt(a, ifaces[i]), ifaces[i]) {
      assert IsCutEnd(a, z, cut[i], handles[i]);
    }
  }

  /** A report that, before any rollback, is right about why its end could not be cut. */
  ghost predicate HasReason(a: Snap, failed: set<Command>, r: EndReport) {
    && r.rolledBack == None
    && (r.failed ==> CutFailedAt(failed, r.iface) || !CanBeCut(TreeAt(a, r.iface), r.iface))
  }

  /** The cutting stopped: the first ends are cut, and the next was not, for a reason. */
  ghost predicate CutStopped(a: Snap, z: Snap, ifaces: seq<Iface>, cut: seq<EndReport>, handles: seq<Handle>,
                             r: EndReport) {
    && AreCut(a, z, cut, handles) && AreFirst(ifaces, cut) && |cut| < |ifaces|
    && AreTraced(z.failed, cut) && (forall c | c in z.failed :: c.step.ReadBack? || IsForCut(c.step))
    && r.iface == ifaces[|cut|] && SaysWhyNot(r) && HasReason(a, z.failed, r)
    && (CutFailed(z.failed) || !HasDistinct(ifaces) || !CanBeCut(TreeAt(a, r.iface), r.iface))
  }

  /** From `y` to `z` an end was tried and not cut. */
  ghost predicate IsNoneCut(y: Snap, z: Snap, r: EndReport) {
    && SaysWhyNot(r) && r.rolledBack == None
    && z.trees == y.trees && z.mine == y.mine && z.view == y.view
    && OnlyAt(y.failed, z.failed, r.iface, {ReadToCut, Step.AddNetem})
    && (!CanBeCut(TreeAt(y, r.iface), r.iface) || CutFailedAt(z.failed, r.iface))
    && (r.failed ==> CutFailedAt(z.failed, r.iface) || IsOccupied(TreeAt(y, r.iface), r.iface))
  }

  lemma StopHasReason(a: Snap, y: Snap, z: Snap, ifaces: seq<Iface>, cut: seq<EndReport>, handles: seq<Handle>,
                      r: EndReport)
    requires CutSoFar(a, y, ifaces, cut, handles) && IsNoneCut(y, z, r)
    requires |cut| < |ifaces| && r.iface == ifaces[|cut|]
    ensures CutStopped(a, z, ifaces, cut, handles, r)
  {
    if CanBePlanned(TreeAt(y, r.iface), r.iface) {
      NewEnd(a, y, cut, handles, r.iface);
    }
    assert HasDistinct(ifaces) ==> IsNotAmong(r.iface, cut);
    assert IsNotAmong(r.iface, cut) ==> IsSameAt(a, y, r.iface);
    StopKeepsCut(a, y, z, cut, handles, r);
  }

  lemma StopKeepsCut(a: Snap, y: Snap, z: Snap, cut: seq<EndReport>, handles: seq<Handle>, r: EndReport)
    requires AreCut(a, y, cut, handles) && AreTraced(y.failed, cut) && IsNoneCut(y, z, r)
    ensures AreCut(a, z, cut, handles) && AreTraced(z.failed, cut)
  {
    forall i | 0 <= i < |cut| ensures IsCutEnd(a, z, cut[i], handles[i]) {
      assert IsCutEnd(a, y, cut[i], handles[i]);
    }
    forall x | IsNotAmong(x, cut) ensures IsSameAt(a, z, x) {
      assert IsSameAt(a, y, x);
    }
    assert forall i :: Command(ReadBack, i) in z.failed <==> Command(ReadBack, i) in y.failed;
  }

  // ---------------------------------------------------------------- rolling back, end by end

  /** The end is as if nothing had been attached, and no longer claimed, or still cut, as its undoing went. */
  ghost predicate IsSettled(a: Snap, z: Snap, x: Iface, h: Handle, undone: bool) {
    && (undone <==> !UndoFailedAt(z.failed, x))
    && if undone then IsUndone(TreeAt(a, x), TreeAt(z, x)) && x !in z.view
       else IsCut(TreeAt(a, x), TreeAt(z, x), h)
  }

  /** The first ends in `cut` are settled; the others are cut; and nothing else has changed. */
  ghost predicate AreUndone(a: Snap, z: Snap, cut: seq<EndReport>, handles: seq<Handle>, undone: seq<bool>) {
    && |undone| <= |cut| == |handles|
    && (forall i | 0 <= i < |undone| :: IsSettled(a, z, cut[i].iface, handles[i], undone[i]))
    && (forall i | |undone| <= i < |cut| :: IsCutEnd(a, z, cut[i], handles[i]))
    && (forall x | IsNotAmong(x, cut) :: IsSameAt(a, z, x))
    && (forall i, j | 0 <= i < j < |cut| :: cut[i].iface != cut[j].iface)
    && (forall i | 0 <= i < |cut| :: Lookup(z.mine, handles[i]) == Some(cut[i].iface))
  }

  /** Sighting and deleting have failed at most on the first `n` ends, reading back only on ends that were cut. */
  ghost predicate UndoFailedOnlyAt(failed: set<Command>, cut: seq<EndReport>, n: nat)
    requires n <= |cut|
  {
    && (forall c | c in failed && (c.step.ReadToSight? || c.step.DelNetem? || c.step.ReadToCheck?) ::
          !IsNotAmong(c.iface, cut[..n]))
    && (forall c | c in failed && c.step.ReadBack? :: !IsNotAmong(c.iface, cut))
  }

  /** Since `failed`, nothing has failed that a cut needs. */
  ghost predicate FailsOnlyToUndo(failed: set<Command>, failed': set<Command>) {
    failed <= failed' && forall c | c in failed' && IsForCut(c.step) :: c in failed
  }

  /** The rollback under way, begun at `y`, and what has failed in it. */
  ghost predicate UndoSoFar(a: Snap, y: Snap, z: Snap, cut: seq<EndReport>, handles: seq<Handle>, undone: seq<bool>) {
    && AreUndone(a, z, cut, handles, undone) && AreTraced(z.failed, cut)
    && UndoFailedOnlyAt(z.failed, cut, |undone|) && FailsOnlyToUndo(y.failed, z.failed)
  }

  /** From `y` to `z` the end `x` was undone, or not. */
  ghost predicate IsEndUndone(a: Snap, y: Snap, z: Snap, x: Iface, ok: bool) {
    && (forall i | i != x :: IsSameAt(y, z, i)) && z.mine == y.mine
    && OnlyAt(y.failed, z.failed, x, {ReadToSight, DelNetem, ReadToCheck})
    && (ok <==> !UndoFailedAt(z.failed, x))
    && if ok then IsUndone(TreeAt(a, x), TreeAt(z, x)) && x !in z.view else TreeAt(z, x) == TreeAt(y, x)
  }

  lemma OneMoreUndone(a: Snap, b: Snap, y: Snap, z: Snap, cut: seq<EndReport>, handles: seq<Handle>,
                      undone: seq<bool>, ok: bool)
    requires |undone| < |cut| && UndoSoFar(a, b, y, cut, handles, undone)
    requires IsEndUndone(a, y, z, cut[|undone|].iface, ok)
    ensures UndoSoFar(a, b, z, cut, handles, undone + [ok])
  {
    assert |undone + [ok]| == |undone| + 1;
    OneMoreIsUndone(a, y, z, cut, handles, undone, ok);
    UndoFailuresGrow(y.failed, z.failed, cut, |undone|);
    StillTraced(b.failed, y.failed, z.failed, cut, cut[|undone|].iface);
  }

  lemma StillTraced(failed0: set<Command>, failed: set<Command>, failed': set<Command>, cut: seq<EndReport>, x: Iface)
    requires AreTraced(failed, cut) && OnlyAt(failed, failed', x, {ReadToSight, DelNetem, ReadToCheck})
    requires FailsOnlyToUndo(failed0, failed)
    ensures AreTraced(failed', cut) && FailsOnlyToUndo(failed0, failed')
  {
    assert forall i :: Command(ReadBack, i) in failed' <==> Command(ReadBack, i) in failed;
  }

  /** An end on which nothing has happened stays settled, or cut. */
  lemma OthersStay(a: Snap, y: Snap, z: Snap, x: Iface, ok: bool, r: EndReport, h: Handle, undone: bool)
    requires IsEndUndone(a, y, z, x, ok) && r.iface != x
    ensures IsSettled(a, y, r.iface, h, undone) ==> IsSettled(a, z, r.iface, h, undone)
    ensures IsCutEnd(a, y, r, h) ==> IsCutEnd(a, z, r, h)
  {
    assert IsSameAt(y, z, r.iface);
    assert forall s :: Command(s, r.iface) in z.failed <==> Command(s, r.iface) in y.failed;
  }

  lemma OneMoreIsUndone(a: Snap, y: Snap, z: Snap, cut: seq<EndReport>, handles: seq<Handle>, undone: seq<bool>,
                        ok: bool)
    requires |undone| < |cut| && AreUndone(a, y, cut, handles, undone)
    requires IsEndUndone(a, y, z, cut[|undone|].iface, ok)
    ensures AreUndone(a, z, cut, handles, undone + [ok])
  {
    var k, x := |undone|, cut[|undone|].iface;
    assert IsCutEnd(a, y, cut[k], handles[k]);
    forall i | 0 <= i < |cut| && i != k
      ensures i < k ==> IsSettled(a, z, cut[i].iface, handles[i], undone[i])
      ensures i > k ==> IsCutEnd(a, z, cut[i], handles[i])
    {
      assert cut[i].iface != x;
      OthersStay(a, y, z, x, ok, cut[i], handles[i], i < k && undone[i]);
    }
    assert IsSettled(a, z, x, handles[k], ok);
    forall i | IsNotAmong(i, cut) ensures IsSameAt(a, z, i) {
      assert i != x && IsSameAt(a, y, i) && IsSameAt(y, z, i);
    }
  }

  lemma UndoFailuresGrow(failed: set<Command>, failed': set<Command>, cut: seq<EndReport>, n: nat)
    requires n < |cut| && UndoFailedOnlyAt(failed, cut, n)
    requires OnlyAt(failed, failed', cut[n].iface, {ReadToSight, DelNetem, ReadToCheck})
    ensures UndoFailedOnlyAt(failed', cut, n + 1)
  {
    assert cut[..n + 1] == cut[..n] + [cut[n]];
    forall c | c in failed' && (c.step.ReadToSight? || c.step.DelNetem? || c.step.ReadToCheck?)
      ensures !IsNotAmong(c.iface, cut[..n + 1])
    {
      if c in failed {
        var i :| 0 <= i < n && cut[..n][i].iface == c.iface;
        assert cut[..n + 1][i].iface == c.iface;
      } else {
        assert cut[..n + 1][n].iface == c.iface;
      }
    }
  }

  /** The end is cut, and nothing of its undoing has been tried. */
  ghost predicate IsStillCut(a: Snap, z: Snap, r: EndReport, h: Handle) {
    && IsCutEnd(a, z, r, h) && (r.traced <==> Command(ReadBack, r.iface) !in z.failed)
    && Command(ReadToSight, r.iface) !in z.failed && Command(DelNetem, r.iface) !in z.failed
    && Command(ReadToCheck, r.iface) !in z.failed
  }

  lemma NotYetUndone(a: Snap, b: Snap, z: Snap, cut: seq<EndReport>, handles: seq<Handle>, undone: seq<bool>)
    requires |undone| < |cut| && UndoSoFar(a, b, z, cut, handles, undone)
    ensures IsStillCut(a, z, cut[|undone|], handles[|undone|])
  {
    var k := |undone|;
    forall i | 0 <= i < k ensures cut[..k][i].iface != cut[k].iface {
      assert cut[i].iface != cut[k].iface;
    }
    assert IsNotAmong(cut[k].iface, cut[..k]);
  }

  /** From `y` to `z` the end was taken back as its sighting says, or not. */
  ghost predicate IsTakenBackAs(y: Snap, z: Snap, x: Iface, p: Provenance, ok: bool) {
    && (forall i | i != x :: IsSameAt(y, z, i)) && z.mine == y.mine
    && OnlyAt(y.failed, z.failed, x, {DelNetem, ReadToCheck}) && (!p.Ours? ==> z.failed == y.failed)
    && IsTakenBack(p, TreeAt(y, x), TreeAt(z, x), Lookup(y.view, x), Lookup(z.view, x),
                   Command(DelNetem, x) in z.failed, Command(ReadToCheck, x) in z.failed, ok)
  }

  /** From `y` to `z` a delete was tried, and looked at: the place is empty unless the delete failed. */
  ghost predicate IsDetached(y: Snap, z: Snap, x: Iface, place: Place, ok: bool) {
    && OnlyAt(y.failed, z.failed, x, {DelNetem, ReadToCheck}) && z.mine == y.mine && z.view == y.view
    && if Command(DelNetem, x) in z.failed then !ok && z.trees == y.trees
       else && z.trees == y.trees[x := Delete(TreeAt(y, x), place)]
            && (ok <==> Command(ReadToCheck, x) in z.failed || !ShowsNetem(TreeAt(z, x)))
  }

  /** From `x` to `y` the delete of what is at `place` was run. */
  ghost predicate IsDeleted(x: Snap, y: Snap, i: Iface, place: Place, ok: bool) {
    && OnlyAt(x.failed, y.failed, i, {DelNetem}) && (ok <==> Command(DelNetem, i) !in y.failed)
    && y == x.(failed := y.failed, trees := if ok then x.trees[i := Delete(TreeAt(x, i), place)] else x.trees)
  }

  /** From `y` to `z` it was read whether a netem is still shown. */
  ghost predicate IsLookedAt(y: Snap, z: Snap, i: Iface, gone: bool) {
    && OnlyAt(y.failed, z.failed, i, {ReadToCheck}) && z == y.(failed := z.failed)
    && (gone <==> Command(ReadToCheck, i) in z.failed || !ShowsNetem(TreeAt(z, i)))
  }

  /** How a delete of the first netem is remembered. */
  ghost function DeletionAt(x: Snap, y: Snap, i: Iface): Deletion
    requires FirstNetem(TreeAt(x, i)).Some?
  {
    Deletion(i, FirstNetem(TreeAt(x, i)).value, TreeAt(x, i), TreeAt(y, i))
  }

  /** A delete that went well, and the look at what is left. */
  lemma DetachedInTwo(x: Snap, y: Snap, z: Snap, i: Iface, place: Place, ok: bool)
    requires IsDeleted(x, y, i, place, true) && IsLookedAt(y, z, i, ok)
    ensures IsDetached(x, z, i, place, ok)
  {
  }

  /** A delete, after which the claim is given up if it went well. */
  lemma TakenBackInTwo(x: Snap, y: Snap, z: Snap, i: Iface, place: Place, ok: bool)
    requires ShowsNetem(TreeAt(x, i)) && FirstNetem(TreeAt(x, i)).value.place == place
    requires IsDetached(x, y, i, place, ok) && z == y.(view := z.view)
    requires if ok then Lookup(z.view, i) == None && forall k | k != i :: IsSameAt(y, z, k) else z.view == y.view
    ensures IsTakenBackAs(x, z, i, Ours, ok)
  {
    forall k | k != i ensures IsSameAt(x, z, k) {
      assert ok ==> IsSameAt(y, z, k);
    }
  }

  /** What undoing does to an end, from what its sighting and its taking back did. */
  lemma TakingBackUndoes(a: Snap, x: Snap, y: Snap, z: Snap, r: EndReport, h: Handle, ok: bool)
    requires IsStillCut(a, x, r, h) && y == x.(failed := y.failed) && OnlyAt(x.failed, y.failed, r.iface, {ReadToSight})
    requires IsTakenBackAs(y, z, r.iface, SightedAs(y, y.failed, r.iface).provenance, ok)
    ensures IsEndUndone(a, x, z, r.iface, ok)
  {
    RecoveredIsUndone(TreeAt(a, r.iface), TreeAt(x, r.iface), h);
    forall i | i != r.iface ensures IsSameAt(x, z, i) {
      assert IsSameAt(y, z, i);
    }
    assert !UndoFailedAt(z.failed, r.iface) ==> SightedAs(y, y.failed, r.iface).provenance.Ours?;
  }

  lemma RecoveredIsUndone(before: Tree, cut: Tree, h: Handle)
    requires IsCut(before, cut, h)
    ensures ShowsNetem(cut) && FirstNetem(cut).value.handle == h
    ensures IsUndone(before, Delete(cut, FirstNetem(cut).value.place))
    ensures !ShowsNetem(Delete(cut, FirstNetem(cut).value.place))
  {
    CutHasOneNetem(before, cut, h);
    UndoRestores(before, cut, h);
  }

  // ---------------------------------------------------------------- the reports after a rollback

  /** An end's report after the rollback: if its interface was cut, it says so and how the undoing went. */
  function Annotated(r: EndReport, cut: seq<EndReport>, undone: seq<bool>): EndReport
    requires |cut| == |undone|
  {
    if cut == [] then r
    else if cut[0].iface == r.iface then r.(ok := false, refused := true, rolledBack := Some(undone[0]))
    else Annotated(r, cut[1..], undone[1..])
  }

  lemma {:induction false} AnnotatedAt(r: EndReport, cut: seq<EndReport>, undone: seq<bool>, k: nat)
    requires |cut| == |undone| && k < |cut| && cut[k].iface == r.iface
    requires forall i, j | 0 <= i < j < |cut| :: cut[i].iface != cut[j].iface
    ensures Annotated(r, cut, undone) == r.(ok := false, refused := true, rolledBack := Some(undone[k]))
  {
    if k > 0 {
      AnnotatedAt(r, cut[1..], undone[1..], k - 1);
    }
  }

  lemma {:induction false} AnnotatedElsewhere(r: EndReport, cut: seq<EndReport>, undone: seq<bool>)
    requires |cut| == |undone| && IsNotAmong(r.iface, cut)
    ensures Annotated(r, cut, undone) == r
  {
    if cut != [] {
      AnnotatedElsewhere(r, cut[1..], undone[1..]);
    }
  }

  /** The reports on the end that failed and on those after it. */
  function NotTried(ifaces: seq<Iface>, k: nat, failed: EndReport): (r: seq<EndReport>)
    requires k < |ifaces| && failed.iface == ifaces[k] && SaysWhyNot(failed)
    ensures |r| == |ifaces| - k
    ensures r[0] == failed && forall i | 0 <= i < |r| :: r[i].iface == ifaces[k + i] && SaysWhyNot(r[i])
    ensures forall i | 0 < i < |r| :: !r[i].failed && r[i].rolledBack == None
  {
    seq(|ifaces| - k, i requires 0 <= i < |ifaces| - k =>
          if i == 0 then failed else EndReport(ifaces[k + i], false, true, false, false, None))
  }

  /** The reports on all ends before the rollback, right about why each was not cut. */
  ghost predicate AreReasons(a: Snap, failed: set<Command>, ifaces: seq<Iface>, cut: seq<EndReport>,
                             others: seq<EndReport>) {
    && |cut| + |others| == |ifaces| && AreFirst(ifaces, cut)
    && forall i | 0 <= i < |others| ::
         others[i].iface == ifaces[|cut| + i] && SaysWhyNot(others[i]) && HasReason(a, failed, others[i])
  }

  lemma StopCanRollBack(a: Snap, z: Snap, ifaces: seq<Iface>, cut: seq<EndReport>, handles: seq<Handle>, r: EndReport)
    requires CutStopped(a, z, ifaces, cut, handles, r)
    ensures UndoSoFar(a, z, z, cut, handles, []) && AreReasons(a, z.failed, ifaces, cut, NotTried(ifaces, |cut|, r))
    ensures CutFailed(z.failed) || !HasDistinct(ifaces)
            || exists i :: 0 <= i < |ifaces| && !CanBeCut(TreeAt(a, ifaces[i]), ifaces[i])
  {
    assert cut[..0] == [];
    forall i | 0 <= i < |cut| ensures Lookup(z.mine, handles[i]) == Some(cut[i].iface) {
      assert IsCutEnd(a, z, cut[i], handles[i]);
    }
  }

  lemma AccountFor(a: Snap, b: Snap, z: Snap, cut: seq<EndReport>, undone: seq<bool>, handles: seq<Handle>,
                   r: EndReport)
    requires |undone| == |cut| && UndoSoFar(a, b, z, cut, handles, undone)
    requires ((r in cut && !r.failed) || SaysWhyNot(r)) && HasReason(a, z.failed, r)
    ensures Annotated(r, cut, undone).iface == r.iface && IsAccountedFor(a, z, Annotated(r, cut, undone))
  {
    assert cut[..|cut|] == cut;
    if k :| 0 <= k < |cut| && cut[k].iface == r.iface {
      AnnotatedAt(r, cut, undone, k);
      assert IsSettled(a, z, cut[k].iface, handles[k], undone[k]) && Lookup(z.mine, handles[k]) == Some(cut[k].iface);
    } else {
      AnnotatedElsewhere(r, cut, undone);
      assert IsNotAmong(r.iface, cut) && IsSameAt(a, z, r.iface);
    }
  }

  lemma AllAreAccountedFor(a: Snap, b: Snap, z: Snap, ifaces: seq<Iface>, cut: seq<EndReport>, others: seq<EndReport>,
                           handles: seq<Handle>, undone: seq<bool>, reports: seq<EndReport>)
    requires |undone| == |cut| && UndoSoFar(a, b, z, cut, handles, undone)
    requires AreReasons(a, b.failed, ifaces, cut, others) && |reports| == |ifaces|
    requires forall i | 0 <= i < |reports| :: reports[i] == Annotated((cut + others)[i], cut, undone)
    ensures AreNotCut(a, z, ifaces, reports)
  {
    forall i | 0 <= i < |reports| ensures reports[i].iface == ifaces[i] && IsAccountedFor(a, z, reports[i]) {
      var r := (cut + others)[i];
      assert i < |cut| ==> r == cut[i];
      assert i >= |cut| ==> r == others[i - |cut|];
      assert HasReason(a, z.failed, r);
      AccountFor(a, b, z, cut, undone, handles, r);
    }
    OthersAreNotAmong(ifaces, cut);
  }

  lemma OthersAreNotAmong(ifaces: seq<Iface>, cut: seq<EndReport>)
    requires |cut| <= |ifaces| && forall i | 0 <= i < |cut| :: cut[i].iface == ifaces[i]
    ensures forall x | x !in ifaces :: IsNotAmong(x, cut)
  {
    assert forall i | 0 <= i < |cut| :: cut[i].iface in ifaces;
  }

  /** Blocked in the planning phase, nothing has been touched. */
  lemma NothingTouched(a: Snap, z: Snap, ifaces: seq<Iface>, reports: seq<EndReport>)
    requires z == a.(failed := z.failed) && |reports| == |ifaces| && forall c | c in z.failed :: c.step.ReadToPlan?
    requires forall i | 0 <= i < |ifaces| ::
               reports[i].iface == ifaces[i] && SaysWhyNot(reports[i]) && HasReason(a, z.failed, reports[i])
    ensures AreNotCut(a, z, ifaces, reports)
  {
  }

  // ---------------------------------------------------------------- taking back, end by end

  /** What the recovery saw of an end, given which commands failed. */
  ghost function SightedAs(s: Snap, failed: set<Command>, i: Iface): Sighting {
    SightingOf(TreeAt(s, i), s.view, i, Command(ReadToSight, i) !in failed)
  }

  /** The end is taken back as its sighting and the failures call for. */
  ghost predicate IsEndTakenBack(a: Snap, z: Snap, i: Iface, ok: bool) {
    IsTakenBack(SightedAs(a, z.failed, i).provenance, TreeAt(a, i), TreeAt(z, i), Lookup(a.view, i), Lookup(z.view, i),
                Command(DelNetem, i) in z.failed, Command(ReadToCheck, i) in z.failed, ok)
  }

  /** The first ends are taken back, and nothing else has changed. */
  ghost predicate AreTakenBack(a: Snap, z: Snap, ifaces: seq<Iface>, oks: seq<bool>) {
    && |oks| <= |ifaces|
    && (forall k | 0 <= k < |oks| :: IsEndTakenBack(a, z, ifaces[k], oks[k]))
    && (forall x | x !in ifaces[..|oks|] :: IsSameAt(a, z, x))
  }

  /** The recovery refuses: nothing is declared, nothing of this kernel's is seen, and somebody's netem is. */
  ghost predicate IsRefused(s: Snap, failed: set<Command>, ifaces: seq<Iface>, declared: bool) {
    && !declared
    && (forall i | i in ifaces :: !SightedAs(s, failed, i).provenance.Ours?)
    && exists i :: i in ifaces && SightedAs(s, failed, i).provenance.Foreign?
  }

  lemma RefusalBySight(s: Snap, failed: set<Command>, ifaces: seq<Iface>, declared: bool, sighted: seq<Sighting>)
    requires |sighted| == |ifaces| && forall k | 0 <= k < |ifaces| :: sighted[k] == SightedAs(s, failed, ifaces[k])
    ensures IsRefused(s, failed, ifaces, declared) <==>
              && !declared && (forall i | 0 <= i < |sighted| :: !sighted[i].provenance.Ours?)
              && exists i | 0 <= i < |sighted| :: sighted[i].provenance.Foreign?
  {
    if IsRefused(s, failed, ifaces, declared) {
      var i :| i in ifaces && SightedAs(s, failed, i).provenance.Foreign?;
      var k :| 0 <= k < |ifaces| && ifaces[k] == i;
      assert sighted[k].provenance.Foreign?;
    }
    if i :| 0 <= i < |sighted| && sighted[i].provenance.Foreign? {
      assert ifaces[i] in ifaces;
    }
  }

  /** The reads that failed have not changed. */
  ghost predicate SameSights(failed: set<Command>, failed': set<Command>) {
    forall i :: Command(ReadToSight, i) in failed' <==> Command(ReadToSight, i) in failed
  }

  lemma SightsDecide(a: Snap, b: Snap, failed: set<Command>, ifaces: seq<Iface>, declared: bool)
    requires b == a.(failed := b.failed) && SameSights(b.failed, failed)
    ensures IsRefused(a, failed, ifaces, declared) == IsRefused(b, b.failed, ifaces, declared)
  {
    assert forall i :: SightedAs(a, failed, i) == SightedAs(b, b.failed, i);
  }

  lemma TakenBackSinceBegun(a: Snap, b: Snap, z: Snap, ifaces: seq<Iface>, oks: seq<bool>)
    requires b == a.(failed := b.failed) && AreTakenBack(b, z, ifaces, oks)
    ensures AreTakenBack(a, z, ifaces, oks)
  {
    assert forall x :: IsSameAt(b, z, x) ==> IsSameAt(a, z, x);
    assert forall i, ok :: IsEndTakenBack(b, z, i, ok) ==> IsEndTakenBack(a, z, i, ok);
  }

  /** The taking back under way, begun at `a` with every end sighted. */
  ghost predicate TakenSoFar(a: Snap, z: Snap, ifaces: seq<Iface>, oks: seq<bool>) {
    && AreTakenBack(a, z, ifaces, oks) && SameSights(a.failed, z.failed)
    && forall c | c in z.failed :: c.step.ReadToSight? || (c.iface.Mininet? && c.iface in ifaces[..|oks|])
  }

  lemma NextEnd(ifaces: seq<Iface>, k: nat)
    requires HasNoRepeats(ifaces) && k < |ifaces|
    ensures ifaces[k].Mininet? ==> ifaces[k] !in ifaces[..k]
    ensures ifaces[..k + 1] == ifaces[..k] + [ifaces[k]]
  {
  }

  /** The next end to take back is as it was sighted, and nothing of it has been tried. */
  lemma NotYetTakenBack(a: Snap, z: Snap, ifaces: seq<Iface>, oks: seq<bool>, seen: Sighting)
    requires HasNoRepeats(ifaces) && |oks| < |ifaces| && TakenSoFar(a, z, ifaces, oks)
    requires seen == SightedAs(a, a.failed, ifaces[|oks|])
    ensures var i := ifaces[|oks|];
            && IsSameAt(a, z, i) && IsSightingOf(seen, TreeAt(z, i), z.view, i)
            && Command(DelNetem, i) !in z.failed && Command(ReadToCheck, i) !in z.failed
  {
    NextEnd(ifaces, |oks|);
    if k :| 0 <= k < |oks| && ifaces[k] == ifaces[|oks|] {
      assert IsEndTakenBack(a, z, ifaces[k], oks[k]);
    } else {
      assert IsSameAt(a, z, ifaces[|oks|]);
    }
  }

  /** An end on which nothing has happened since is taken back as before. */
  lemma StaysTakenBack(a: Snap, y: Snap, z: Snap, i: Iface, ok: bool)
    requires IsEndTakenBack(a, y, i, ok) && IsSameAt(y, z, i)
    requires forall c | c in z.failed - y.failed || c in y.failed - z.failed :: c.iface != i
    ensures IsEndTakenBack(a, z, i, ok)
  {
    assert forall s :: Command(s, i) in z.failed <==> Command(s, i) in y.failed;
  }

  /** One more end taken back: those before it stay as they were. */
  lemma OneMoreTakenBack(a: Snap, y: Snap, z: Snap, ifaces: seq<Iface>, oks: seq<bool>, seen: Sighting, ok: bool)
    requires HasNoRepeats(ifaces) && |oks| < |ifaces| && TakenSoFar(a, y, ifaces, oks)
    requires seen == SightedAs(a, a.failed, ifaces[|oks|]) && IsTakenBackAs(y, z, ifaces[|oks|], seen.provenance, ok)
    ensures TakenSoFar(a, z, ifaces, oks + [ok])
  {
    var n := |oks|;
    NextEnd(ifaces, n);
    NotYetTakenBack(a, y, ifaces, oks, seen);
    assert SameSights(a.failed, z.failed) && SightedAs(a, z.failed, ifaces[n]) == seen;
    assert IsEndTakenBack(a, z, ifaces[n], ok);
    OneMoreIsTakenBack(a, y, z, ifaces, oks, seen, ok);
  }

  lemma OneMoreIsTakenBack(a: Snap, y: Snap, z: Snap, ifaces: seq<Iface>, oks: seq<bool>, seen: Sighting, ok: bool)
    requires HasNoRepeats(ifaces) && |oks| < |ifaces| && AreTakenBack(a, y, ifaces, oks)
    requires IsTakenBackAs(y, z, ifaces[|oks|], seen.provenance, ok) && IsEndTakenBack(a, z, ifaces[|oks|], ok)
    requires seen == SightedAs(a, a.failed, ifaces[|oks|])
    ensures AreTakenBack(a, z, ifaces, oks + [ok])
  {
    var n := |oks|;
    NextEnd(ifaces, n);
    forall k | 0 <= k < n ensures IsEndTakenBack(a, z, ifaces[k], oks[k]) {
      assert ifaces[k] == ifaces[n] ==> seen.provenance.Unreadable?;
      assert IsSameAt(y, z, ifaces[k]);
      StaysTakenBack(a, y, z, ifaces[k], oks[k]);
    }
    forall x | x !in ifaces[..n + 1] ensures IsSameAt(a, z, x) {
      assert IsSameAt(a, y, x) && IsSameAt(y, z, x);
    }
  }

  /** The end carries a netem the ledger names, at a place that is printed. */
  predicate IsOurs(tree: Tree, view: View, i: Iface) {
    i.Mininet? && ShowsNetem(tree) && Lookup(view, i) == Some(Some(FirstNetem(tree).value.handle))
  }

  /** When no read and no delete fails, a recovery takes this kernel's netem off every end that carries one, and
      changes nothing on any other. */
  lemma RecoveryTakesOffOurs(a: Snap, z: Snap, ifaces: seq<Iface>, oks: seq<bool>, k: nat)
    requires AreTakenBack(a, z, ifaces, oks) && k < |oks| == |ifaces|
    requires forall c | c in z.failed :: !c.step.ReadToSight? && !c.step.DelNetem?
    ensures var i, tree := ifaces[k], TreeAt(a, ifaces[k]);
            TreeAt(z, i) == if IsOurs(tree, a.view, i) then Delete(tree, FirstNetem(tree).value.place) else tree
    ensures oks[k] ==> ifaces[k] !in z.view
  {
    assert IsEndTakenBack(a, z, ifaces[k], oks[k]);
  }

  /** A cut that could be read back, followed by a recovery in which no read and no delete fails, leaves every
      interface as if nothing had been attached, exactly as it was under a shaper or the default root, and no claim. */
  lemma RecoveryUndoesCut(a: Snap, y: Snap, z: Snap, ifaces: seq<Iface>, reports: seq<EndReport>, oks: seq<bool>)
    requires AreAllCut(a, y, ifaces, reports) && AreTakenBack(y, z, ifaces, oks) && |oks| == |ifaces|
    requires forall c | c in y.failed :: !c.step.ReadBack?
    requires forall c | c in z.failed :: !c.step.ReadToSight? && !c.step.DelNetem?
    ensures forall x :: IsUndone(TreeAt(a, x), TreeAt(z, x))
    ensures forall x | !IsUnshaped(TreeAt(a, x)) || HasDefaultRoot(TreeAt(a, x)) :: TreeAt(z, x) == TreeAt(a, x)
    ensures forall k | 0 <= k < |ifaces| :: oks[k] && ifaces[k] !in z.view
  {
    var handles :| AreCut(a, y, reports, handles);
    forall k | 0 <= k < |ifaces|
      ensures IsUndone(TreeAt(a, ifaces[k]), TreeAt(z, ifaces[k])) && oks[k] && ifaces[k] !in z.view
    {
      assert IsCutEnd(a, y, reports[k], handles[k]) && IsEndTakenBack(y, z, ifaces[k], oks[k]);
      RecoveredIsUndone(TreeAt(a, ifaces[k]), TreeAt(y, ifaces[k]), handles[k]);
    }
    assert ifaces[..|oks|] == ifaces;
    OthersAreNotAmong(ifaces, reports);
    forall x ensures IsUndone(TreeAt(a, x), TreeAt(z, x)) {
      if x in ifaces {
        var k :| 0 <= k < |ifaces| && ifaces[k] == x;
      } else {
        assert IsNotAmong(x, reports) && IsSameAt(a, y, x) && IsSameAt(y, z, x);
      }
    }
    forall x | !IsUnshaped(TreeAt(a, x)) || HasDefaultRoot(TreeAt(a, x)) ensures TreeAt(z, x) == TreeAt(a, x) {
      UndoneIsSame(TreeAt(a, x), TreeAt(z, x));
    }
  }

  // ---------------------------------------------------------------- other parties

  /** What another party does to an interface: `tc qdisc add`, `replace` and `del`, of any kind and anywhere. */
  datatype Edit =
    | AddAt(kind: Kind, place: Place, fallback: Option<Class>)
    | ReplaceAt(kind: Kind, place: Place, fallback: Option<Class>)
    | DelAt(place: Place)

  /** An edit and the next handle the system gives out; a command that cannot be carried out does nothing. */
  function Edited(tree: Tree, e: Edit, next: int): (Tree, int) {
    match e
    case AddAt(kind, place, fallback) =>
      if place.Under? && (place.parent.n >= next || !IsVacant(tree, place)) then (tree, next)
      else (AddQdisc(tree, Qdisc(kind, Handle(next), place, fallback)), next + 1)
    case ReplaceAt(kind, place, fallback) =>
      if place.Unprinted? || (place.Under? && place.parent.n >= next) then (tree, next)
      else (AddQdisc(Prune(tree, place), Qdisc(kind, Handle(next), place, fallback)), next + 1)
    case DelAt(place) => if place.Unprinted? then (tree, next) else (Delete(tree, place), next)
  }

  lemma EditKeepsSound(tree: Tree, e: Edit, next: int, mine: Mine, i: Iface)
    requires IsSound(tree, next, mine, i) && next > 0 && forall h | h in mine :: 0 < h.n < next
    ensures IsSound(Edited(tree, e, next).0, Edited(tree, e, next).1, mine, i) && Edited(tree, e, next).1 >= next
  {
    match e
    case AddAt(kind, place, fallback) =>
      if !(place.Under? && (place.parent.n >= next || !IsVacant(tree, place))) {
        AddKeepsSound(tree, Qdisc(kind, Handle(next), place, fallback), next, mine, i);
      }
    case ReplaceAt(kind, place, fallback) =>
      if !(place.Unprinted? || (place.Under? && place.parent.n >= next)) {
        PruneKeepsListing(tree, place);
        PruneKeepsOld(tree, place);
        AddKeepsSound(Prune(tree, place), Qdisc(kind, Handle(next), place, fallback), next, mine, i);
      }
    case DelAt(place) =>
      DeleteKeepsSound(tree, place, next, mine, i);
  }

  lemma AddKeepsSound(tree: Tree, q: Qdisc, next: int, mine: Mine, i: Iface)
    requires IsSound(tree, next, mine, i) && q.handle == Handle(next) && next > 0
    requires q.place.Root? || q.place.Unprinted? || (q.place.parent.n < next && IsVacant(tree, q.place))
    requires Handle(next) in mine ==> q.kind.Netem? && mine[Handle(next)] == i
    ensures IsSound(AddQdisc(tree, q), next + 1, mine, i)
  {
    AddKeepsListing(tree, q);
    PruneKeepsOld(tree, Root);
  }

  lemma DeleteKeepsSound(tree: Tree, place: Place, next: int, mine: Mine, i: Iface)
    requires IsSound(tree, next, mine, i) && next > 0 && forall h | h in mine :: 0 < h.n
    ensures IsSound(Delete(tree, place), next, mine, i)
  {
    DeleteKeepsListing(tree, place);
    PruneKeepsOld(tree, place);
  }

  /** A sound tree stays sound when more handles are out. */
  lemma SoundLater(tree: Tree, next: int, next': int, mine: Mine, mine': Mine, i: Iface)
    requires IsSound(tree, next, mine, i) && next <= next'
    requires forall h | h in mine' && h.n < next :: h in mine && mine'[h] == mine[h]
    ensures IsSound(tree, next', mine', i)
  {
  }

  lemma TreesStaySound(trees: Trees, trees': Trees, next: int, next': int, mine: Mine, mine': Mine, iface: Iface)
    requires TreesAreSound(trees, next, mine) && next <= next' && trees' == trees[iface := TreeOf(trees', iface)]
    requires IsSound(TreeOf(trees', iface), next', mine', iface)
    requires forall h | h in mine' && h.n < next :: h in mine && mine'[h] == mine[h]
    requires forall h | h in mine' :: 0 < h.n < next'
    ensures TreesAreSound(trees', next', mine')
  {
    forall i ensures IsSound(TreeOf(trees', i), next', mine', i) {
      if i != iface {
        assert IsSound(TreeOf(trees, i), next, mine, i);
        SoundLater(TreeOf(trees, i), next, next', mine, mine', i);
      }
    }
  }

  /** A delete of this kernel's first netem loses nothing but that and what hangs below it. */
  lemma DeletionIsLawful(tree: Tree, mine: Mine, i: Iface)
    requires IsWellListed(tree) && ShowsNetem(tree) && Lookup(mine, FirstNetem(tree).value.handle) == Some(i)
    ensures var q := FirstNetem(tree).value; IsLawful(Deletion(i, q, tree, Delete(tree, q.place)), mine)
  {
    var q := FirstNetem(tree).value;
    var t :| 0 <= t < |tree| && tree[t] == q;
    forall j | 0 <= j < |tree| && tree[j] !in Delete(tree, q.place) ensures tree[j] == q || HangsBelow(tree, t, j) {
      DeleteTakesTargetAndBelow(tree, t, j);
    }
  }
}
