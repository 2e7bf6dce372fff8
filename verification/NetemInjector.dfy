/** Cutting a link at both its ends and taking the cut back, on a machine whose qdisc trees others edit
    too (`include/utils/NetemLinkFault.hpp`; the recovery as `src/ndt_core/http/HttpSession.cpp` runs it). */
module NetemInjector {
  import opened Prelude
  import opened QdiscTree
  import opened NetemLedger
  import opened NetemState

  datatype Cut = Cut(ok: bool, refused: bool, failed: bool, shown: Tree)

  datatype Op =
    | CutOp(ifaces: seq<Iface>)
    | RecoverOp(ifaces: seq<Iface>, declared: bool)
    | EditOp(iface: Iface, edit: Edit)

  class Injector {
    /** Whether the n-th command succeeds, as far as it can: any sequence at all. */
    const world: nat -> bool
    const ledger: InjectedNetemLedger
    var trees: Trees
    var next: int
    var log: seq<Command>
    ghost var mine: Mine
    ghost var deletions: seq<Deletion>
    /** Where in the log the current call began, and which of its commands failed. */
    ghost var start: nat
    ghost var failed: set<Command>

    ghost predicate Valid()
      reads this, ledger
    {
      && ledger.Valid()
      && TreesAreSound(trees, next, mine)
      && ClaimsAreTrue(ViewOf(ledger.entries), mine)
      && (forall i | 0 <= i < |deletions| :: IsLawful(deletions[i], mine))
      && start <= |log| && failed == Failed(log, world, start)
    }

    /** The machine as it is now. */
    ghost function Now(): Snap
      reads this, ledger
    {
      Snap(trees, mine, ViewOf(ledger.entries), failed)
    }

    /** The tree shows a netem at this place, and it is this kernel's. */
    ghost predicate ShowsOurs(iface: Iface, place: Place)
      reads this
    {
      && ShowsNetem(TreeOf(trees, iface)) && FirstNetem(TreeOf(trees, iface)).value.place == place
      && Lookup(mine, FirstNetem(TreeOf(trees, iface)).value.handle) == Some(iface)
    }

    constructor (world: nat -> bool, trees: Trees, next: int)
      requires TreesAreSound(trees, next, map[])
      ensures Valid() && this.world == world && this.trees == trees && mine == map[] && deletions == [] && fresh(ledger)
    {
      this.world, this.trees, this.next := world, trees, next;
      ledger := new InjectedNetemLedger();
      log, mine, deletions, start, failed := [], map[], [], 0, {};
    }

    /** A command goes to the machine. */
    method Tc(step: Step, iface: Iface) returns (ok: bool)
      requires Valid()
      modifies this`log, this`failed
      ensures Valid() && log == old(log) + [Command(step, iface)] && ok == world(|old(log)|)
      ensures failed == old(failed) + (if ok then {} else {Command(step, iface)})
    {
      ok := world(|log|);
      FailedGrows(log, world, start, Command(step, iface));
      log := log + [Command(step, iface)];
      failed := Failed(log, world, start);
    }

    /** `tc qdisc show dev`: truthful, unless it fails. */
    method Show(step: Step, iface: Iface) returns (shown: Option<Tree>)
      requires Valid()
      modifies this`log, this`failed
      ensures Valid() && old(log) <= log
      ensures shown.Some? ==> shown.value == TreeOf(trees, iface)
      ensures failed == old(failed) + (if shown.Some? then {} else {Command(step, iface)})
    {
      var ok := Tc(step, iface);
      shown := if ok then Some(TreeOf(trees, iface)) else None;
    }

    /** `tc qdisc add ... netem`: fails by itself, or because the place is taken. */
    method Add(iface: Iface, place: Place) returns (ok: bool)
      requires Valid() && !place.Unprinted? && (place.Under? ==> place.parent.n < next)
      requires Command(Step.AddNetem, iface) !in failed
      modifies this`log, this`failed, this`trees, this`next, this`mine
      ensures Valid() && old(log) <= log
      ensures OnlyAt(old(failed), failed, iface, {Step.AddNetem})
      ensures ok <==> && Command(Step.AddNetem, iface) !in failed
                      && (place.Root? || IsVacant(TreeOf(old(trees), iface), place))
      ensures !ok ==> trees == old(trees) && next == old(next) && mine == old(mine)
      ensures ok ==>
                && trees == old(trees)[iface := QdiscTree.AddNetem(TreeOf(old(trees), iface), place, Handle(old(next)))]
                && next == old(next) + 1 && mine == old(mine)[Handle(old(next)) := iface]
    {
      ok := Tc(Step.AddNetem, iface);
      if place.Under? && !IsVacant(TreeOf(trees, iface), place) {
        ok := false;
      }
      if ok {
        AttachNetem(iface, place);
      }
    }

    /** What a successful add does to the tree. */
    method AttachNetem(iface: Iface, place: Place)
      requires Valid()
      requires place.Root? || (place.Under? && place.parent.n < next && IsVacant(TreeOf(trees, iface), place))
      modifies this`trees, this`next, this`mine
      ensures Valid() && next == old(next) + 1 && mine == old(mine)[Handle(old(next)) := iface]
      ensures trees == old(trees)[iface := QdiscTree.AddNetem(TreeOf(old(trees), iface), place, Handle(old(next)))]
    {
      var h := Handle(next);
      ghost var mine' := mine[h := iface];
      assert IsSound(TreeOf(trees, iface), next, mine, iface);
      SoundLater(TreeOf(trees, iface), next, next, mine, mine', iface);
      AddKeepsSound(TreeOf(trees, iface), Qdisc(Netem, h, place, None), next, mine', iface);
      ghost var trees' := trees;
      trees := trees[iface := QdiscTree.AddNetem(TreeOf(trees, iface), place, h)];
      TreesStaySound(trees', trees, next, next + 1, mine, mine', iface);
      mine, next := mine', next + 1;
      forall i | 0 <= i < |deletions| ensures IsLawful(deletions[i], mine) {
        assert IsLawful(deletions[i], old(mine));
      }
    }

    /** `tc qdisc del`. This kernel only runs it on the first netem of a tree it has just read. */
    method Del(iface: Iface, place: Place) returns (ok: bool)
      requires Valid() && ShowsOurs(iface, place)
      requires Command(DelNetem, iface) !in failed
      modifies this`log, this`failed, this`trees, this`deletions
      ensures Valid() && old(log) <= log && IsDeleted(old(Now()), Now(), iface, place, ok)
      ensures deletions == old(deletions) + (if ok then [DeletionAt(old(Now()), Now(), iface)] else [])
    {
      ok := Tc(DelNetem, iface);
      if ok {
        DetachNetem(iface, place);
      }
    }

    /** What a successful delete does to the tree. */
    method DetachNetem(iface: Iface, place: Place)
      requires Valid() && ShowsOurs(iface, place)
      modifies this`trees, this`deletions
      ensures Valid() && trees == old(trees)[iface := Delete(TreeOf(old(trees), iface), place)]
      ensures deletions == old(deletions) + [DeletionAt(old(Now()), Now(), iface)]
    {
      ghost var tree, trees' := TreeOf(trees, iface), trees;
      assert IsSound(tree, next, mine, iface);
      DeleteKeepsSound(tree, place, next, mine, iface);
      DeletionIsLawful(tree, mine, iface);
      trees := trees[iface := Delete(TreeOf(trees, iface), place)];
      TreesStaySound(trees', trees, next, next, mine, mine, iface);
      deletions := deletions + [Deletion(iface, FirstNetem(tree).value, tree, Delete(tree, place))];
    }

    // ---------------------------------------------------------------- looking and taking back

    /** `inspectNetem`: one read, and whether the netem it shows is this kernel's. */
    method Inspect(iface: Iface) returns (seen: Sighting)
      requires Valid() && Command(ReadToSight, iface) !in failed
      modifies this`log, this`failed
      ensures Valid() && old(log) <= log
      ensures OnlyAt(old(failed), failed, iface, {ReadToSight}) && (!iface.Mininet? ==> failed == old(failed))
      ensures seen == SightedAs(Now(), failed, iface)
    {
      if !iface.Mininet? {
        return Sighting(Unreadable, None);
      }
      var shown := Show(ReadToSight, iface);
      if shown.None? {
        return Sighting(Unreadable, None);
      }
      var netem := FirstNetem(shown.value);
      if netem.None? {
        return Sighting(NoNetem, None);
      }
      var recorded := ledger.Find(iface);
      if recorded == Some(netem.value.handle) && !netem.value.place.Unprinted? {
        return Sighting(Ours, netem);
      }
      return Sighting(Foreign, netem);
    }

    /** `restoreSightedNetem`: delete what is this kernel's, and only that. */
    method Restore(iface: Iface, seen: Sighting) returns (ok: bool)
      requires Valid() && Command(DelNetem, iface) !in failed && Command(ReadToCheck, iface) !in failed
      requires IsSightingOf(seen, TreeOf(trees, iface), ViewOf(ledger.entries), iface)
      modifies this`log, this`failed, this`trees, this`deletions, ledger
      ensures Valid() && old(log) <= log
      ensures IsTakenBackAs(old(Now()), Now(), iface, seen.provenance, ok)
    {
      match seen.provenance {
        case Ours =>
          OursIsShown(seen, TreeOf(trees, iface), ViewOf(ledger.entries), mine, iface);
          ok := RestoreOurs(iface, seen.netem.value.place);
        case NoNetem =>
          GiveUpClaim(iface);
          ok := true;
        case Foreign => ok := false;
        case Unreadable => ok := false;
      }
    }

    method RestoreOurs(iface: Iface, place: Place) returns (ok: bool)
      requires Valid() && Command(DelNetem, iface) !in failed && Command(ReadToCheck, iface) !in failed
      requires ShowsOurs(iface, place)
      modifies this`log, this`failed, this`trees, this`deletions, ledger
      ensures Valid() && old(log) <= log
      ensures IsTakenBackAs(old(Now()), Now(), iface, Ours, ok)
    {
      ok := Detach(iface, place);
      ghost var detached := Now();
      if ok {
        GiveUpClaim(iface);
      }
      TakenBackInTwo(old(Now()), detached, Now(), iface, place, ok);
    }

    method GiveUpClaim(iface: Iface)
      requires Valid()
      modifies ledger
      ensures Valid() && Now() == old(Now()).(view := Now().view) && Lookup(Now().view, iface) == None
      ensures forall i | i != iface :: IsSameAt(old(Now()), Now(), i)
    {
      ledger.Forget(iface);
    }

    /** `detachSightedNetem`: delete, then look whether it is gone. */
    method Detach(iface: Iface, place: Place) returns (ok: bool)
      requires Valid() && Command(DelNetem, iface) !in failed && Command(ReadToCheck, iface) !in failed
      requires ShowsOurs(iface, place)
      modifies this`log, this`failed, this`trees, this`deletions
      ensures Valid() && old(log) <= log
      ensures IsDetached(old(Now()), Now(), iface, place, ok)
    {
      var deleted := Del(iface, place);
      if !deleted {
        return false;
      }
      ghost var gone := Now();
      ok := LookAgain(iface);
      DetachedInTwo(old(Now()), gone, Now(), iface, place, ok);
    }

    /** Whether no netem is shown; a read that fails is taken for a yes. */
    method LookAgain(iface: Iface) returns (gone: bool)
      requires Valid() && Command(ReadToCheck, iface) !in failed
      modifies this`log, this`failed
      ensures Valid() && old(log) <= log && IsLookedAt(old(Now()), Now(), iface, gone)
    {
      var shown := Show(ReadToCheck, iface);
      gone := !(shown.Some? && ShowsNetem(shown.value));
    }

    // ---------------------------------------------------------------- cutting

    /** `cutInterface`: read, plan, attach, read again. */
    method CutInterface(iface: Iface) returns (cut: Cut)
      requires Valid() && Command(ReadToCut, iface) !in failed && Command(Step.AddNetem, iface) !in failed
      modifies this`log, this`failed, this`trees, this`next, this`mine
      ensures Valid() && old(log) <= log
      ensures cut.ok <==> CanBeCut(TreeOf(old(trees), iface), iface)
                          && Command(ReadToCut, iface) !in failed && Command(Step.AddNetem, iface) !in failed
      ensures !cut.ok ==> trees == old(trees) && mine == old(mine) && (cut.refused || cut.failed)
      ensures cut.failed ==> CutFailedAt(failed, iface) || IsOccupied(TreeOf(old(trees), iface), iface)
      ensures !cut.ok ==> OnlyAt(old(failed), failed, iface, {ReadToCut, Step.AddNetem})
      ensures cut.ok ==>
                && IsCut(TreeOf(old(trees), iface), TreeOf(trees, iface), Handle(old(next)))
                && trees == old(trees)[iface := TreeOf(trees, iface)]
                && mine == old(mine)[Handle(old(next)) := iface]
                && (cut.shown == [] || cut.shown == TreeOf(trees, iface))
                && failed == old(failed) + (if cut.shown == [] then {Command(ReadBack, iface)} else {})
    {
      if !iface.Mininet? {
        return Cut(false, true, false, []);
      }
      var before := Show(ReadToCut, iface);
      if before.None? {
        return Cut(false, false, true, []);
      }
      var plan := PlanAttach(before.value);
      PlanIsForPlace(before.value);
      if plan.Refuse? {
        return Cut(false, true, false, []);
      }
      var added, shown := AttachPlanned(iface, plan.place);
      cut := Cut(added, false, !added, shown);
    }

    /** An attach where planning put it is a cut. */
    method AttachPlanned(iface: Iface, place: Place) returns (ok: bool, shown: Tree)
      requires Valid() && Command(Step.AddNetem, iface) !in failed && PlanAttach(TreeOf(trees, iface)) == Attach(place)
      modifies this`log, this`failed, this`trees, this`next, this`mine
      ensures Valid() && old(log) <= log
      ensures ok <==> Command(Step.AddNetem, iface) !in failed && HasFreePlace(TreeOf(old(trees), iface))
      ensures !ok ==> trees == old(trees) && mine == old(mine) && OnlyAt(old(failed), failed, iface, {Step.AddNetem})
      ensures ok ==>
                && IsCut(TreeOf(old(trees), iface), TreeOf(trees, iface), Handle(old(next)))
                && trees == old(trees)[iface := TreeOf(trees, iface)]
                && mine == old(mine)[Handle(old(next)) := iface]
                && (shown == [] || shown == TreeOf(trees, iface))
                && failed == old(failed) + (if shown == [] then {Command(ReadBack, iface)} else {})
    {
      assert IsSound(TreeOf(trees, iface), next, mine, iface);
      PlanFindsPlace(TreeOf(trees, iface), Handle(next));
      ok, shown := AttachAndRead(iface, place);
    }

    /** The attach of `cutInterface` and its read-back. */
    method AttachAndRead(iface: Iface, place: Place) returns (ok: bool, shown: Tree)
      requires Valid() && Command(Step.AddNetem, iface) !in failed
      requires !place.Unprinted? && (place.Under? ==> place.parent.n < next)
      modifies this`log, this`failed, this`trees, this`next, this`mine
      ensures Valid() && old(log) <= log
      ensures ok <==> && Command(Step.AddNetem, iface) !in failed
                      && (place.Root? || IsVacant(TreeOf(old(trees), iface), place))
      ensures !ok ==> trees == old(trees) && mine == old(mine) && OnlyAt(old(failed), failed, iface, {Step.AddNetem})
      ensures ok ==>
                && trees == old(trees)[iface := QdiscTree.AddNetem(TreeOf(old(trees), iface), place, Handle(old(next)))]
                && mine == old(mine)[Handle(old(next)) := iface]
                && (shown == [] || shown == TreeOf(trees, iface))
                && failed == old(failed) + (if shown == [] then {Command(ReadBack, iface)} else {})
    {
      shown := [];
      ok := Add(iface, place);
      if ok {
        var after := Show(ReadBack, iface);
        if after.Some? {
          shown := after.value;
        }
      }
    }

    /** Phase 1 of `cutLinkEnds`: every end is read and planned, nothing is changed. */
    method PlanEnds(ifaces: seq<Iface>) returns (blocked: bool, reports: seq<EndReport>)
      requires Valid() && failed == {}
      modifies this`log, this`failed
      ensures Valid() && old(log) <= log && forall c | c in failed :: c.step.ReadToPlan?
      ensures !blocked ==> failed == {}
      ensures blocked ==>
                && (|| CutFailed(failed)
                    || exists i :: 0 <= i < |ifaces| && !CanBePlanned(TreeOf(trees, ifaces[i]), ifaces[i]))
                && |reports| == |ifaces|
                && forall i | 0 <= i < |ifaces| ::
                     reports[i].iface == ifaces[i] && SaysWhyNot(reports[i]) && HasReason(Now(), failed, reports[i])
      ensures !blocked ==> forall i | 0 <= i < |ifaces| :: CanBePlanned(TreeOf(trees, ifaces[i]), ifaces[i])
    {
      blocked, reports := false, [];
      for i := 0 to |ifaces|
        invariant Valid() && old(log) <= log && |reports| == i && forall c | c in failed :: c.step.ReadToPlan?
        invariant !blocked ==> failed == {}
        invariant !blocked ==> forall k | 0 <= k < i :: CanBePlanned(TreeOf(trees, ifaces[k]), ifaces[k])
        invariant blocked ==> || CutFailed(failed)
                              || exists k :: 0 <= k < i && !CanBePlanned(TreeOf(trees, ifaces[k]), ifaces[k])
        invariant forall k | 0 <= k < i ::
                    reports[k].iface == ifaces[k] && !reports[k].ok && HasReason(Now(), failed, reports[k])
      {
        var report := PlanEnd(ifaces[i]);
        blocked := blocked || report.refused || report.failed;
        reports := reports + [report];
      }
      if blocked {
        // The ends that could have been cut say why they were not.
        reports := seq(|reports|, i requires 0 <= i < |reports| =>
                         if SaysWhyNot(reports[i]) then reports[i] else reports[i].(refused := true));
      }
    }

    method PlanEnd(iface: Iface) returns (report: EndReport)
      requires Valid() && forall c | c in failed :: c.step.ReadToPlan?
      modifies this`log, this`failed
      ensures Valid() && old(log) <= log && old(failed) <= failed && forall c | c in failed :: c.step.ReadToPlan?
      ensures report.iface == iface && !report.ok && report.rolledBack == None
      ensures report.failed ==> Command(ReadToPlan, iface) in failed
      ensures !report.failed ==> failed == old(failed)
      ensures !report.failed ==> (report.refused <==> !CanBePlanned(TreeOf(trees, iface), iface))
    {
      report := EndReport(iface, false, false, false, false, None);
      if !iface.Mininet? {
        return report.(refused := true);
      }
      PlanIsForPlace(TreeOf(trees, iface));
      var before := Show(ReadToPlan, iface);
      if before.None? {
        report := report.(failed := true);
      } else if PlanAttach(before.value).Refuse? {
        report := report.(refused := true);
      }
    }

    /** One end of phase 2: cut it and write the netem down. */
    method AttachEnd(iface: Iface) returns (report: EndReport, ghost h: Handle)
      requires Valid() && Command(ReadToCut, iface) !in failed && Command(Step.AddNetem, iface) !in failed
      modifies this`log, this`failed, this`trees, this`next, this`mine, ledger
      ensures Valid() && old(log) <= log && report.iface == iface
      ensures report.ok <==> CanBeCut(TreeOf(old(trees), iface), iface)
                             && Command(ReadToCut, iface) !in failed && Command(Step.AddNetem, iface) !in failed
      ensures !report.ok ==> IsNoneCut(old(Now()), Now(), report)
      ensures report.ok ==> IsOneCut(old(Now()), Now(), report, h)
    {
      h := Handle(next);
      var cut := CutInterface(iface);
      if !cut.ok {
        return EndReport(iface, false, cut.refused, cut.failed, false, None), h;
      }
      CutHasOneNetem(TreeOf(old(trees), iface), TreeOf(trees, iface), h);
      var shown := FirstNetem(cut.shown);
      ledger.Record(iface, if shown.Some? then Some(shown.value.handle) else None);
      report := EndReport(iface, true, false, false, cut.shown != [], None);
    }

    /** Phase 2: attach to one end after the other, up to the first that fails. */
    method AttachEnds(ifaces: seq<Iface>)
      returns (cut: seq<EndReport>, stopped: Option<EndReport>, ghost handles: seq<Handle>)
      requires Valid() && failed == {}
      modifies this`log, this`failed, this`trees, this`next, this`mine, ledger
      ensures Valid() && old(log) <= log
      ensures stopped.None? ==> |cut| == |ifaces| && CutSoFar(old(Now()), Now(), ifaces, cut, handles)
      ensures stopped.Some? ==> CutStopped(old(Now()), Now(), ifaces, cut, handles, stopped.value)
    {
      cut, handles := [], [];
      while |cut| < |ifaces|
        invariant Valid() && old(log) <= log && |cut| <= |ifaces|
        invariant CutSoFar(old(Now()), Now(), ifaces, cut, handles)
      {
        ghost var last := Now();
        var report, h := AttachEnd(ifaces[|cut|]);
        if !report.ok {
          StopHasReason(old(Now()), last, Now(), ifaces, cut, handles, report);
          return cut, Some(report), handles;
        }
        OneMoreCut(old(Now()), last, Now(), ifaces, cut, handles, report, h);
        cut, handles := cut + [report], handles + [h];
      }
      stopped := None;
    }

    /** One end of phase 3: look at it again, and take the netem back if it is this kernel's. */
    method UndoEnd(r: EndReport, ghost first: Snap, ghost h: Handle) returns (ok: bool)
      requires Valid() && IsStillCut(first, Now(), r, h)
      modifies this`log, this`failed, this`trees, this`deletions, ledger
      ensures Valid() && old(log) <= log && IsEndUndone(first, old(Now()), Now(), r.iface, ok)
    {
      var seen := Inspect(r.iface);
      ghost var sighted := Now();
      ok := Restore(r.iface, seen);
      TakingBackUndoes(first, old(Now()), sighted, Now(), r, h, ok);
    }

    /** The loop of phase 3: every end that was cut is taken back, as far as that goes. */
    method UndoEnds(cut: seq<EndReport>, ghost handles: seq<Handle>, ghost first: Snap) returns (undone: seq<bool>)
      requires Valid() && UndoSoFar(first, Now(), Now(), cut, handles, [])
      modifies this`log, this`failed, this`trees, this`deletions, ledger
      ensures Valid() && old(log) <= log && |undone| == |cut|
      ensures UndoSoFar(first, old(Now()), Now(), cut, handles, undone)
    {
      undone := [];
      while |undone| < |cut|
        invariant Valid() && old(log) <= log && |undone| <= |cut|
        invariant UndoSoFar(first, old(Now()), Now(), cut, handles, undone)
      {
        var k := |undone|;
        ghost var last := Now();
        NotYetUndone(first, old(Now()), last, cut, handles, undone);
        var ok := UndoEnd(cut[k], first, handles[k]);
        OneMoreUndone(first, old(Now()), last, Now(), cut, handles, undone, ok);
        undone := undone + [ok];
      }
    }

    /** Phase 3: the rollback, after which every report on an end says how its undoing went. */
    method RollBack(cut: seq<EndReport>, others: seq<EndReport>, ghost handles: seq<Handle>, ghost first: Snap,
                    ghost ifaces: seq<Iface>)
      returns (reports: seq<EndReport>)
      requires Valid() && UndoSoFar(first, Now(), Now(), cut, handles, [])
      requires AreReasons(first, failed, ifaces, cut, others)
      modifies this`log, this`failed, this`trees, this`deletions, ledger
      ensures Valid() && old(log) <= log && FailsOnlyToUndo(old(failed), failed)
      ensures AreNotCut(first, Now(), ifaces, reports)
    {
      var undone := UndoEnds(cut, handles, first);
      var all := cut + others;
      reports := seq(|all|, i requires 0 <= i < |all| => Annotated(all[i], cut, undone));
      AllAreAccountedFor(first, old(Now()), Now(), ifaces, cut, others, handles, undone, reports);
    }

    /** Phases 2 and 3. */
    method AttachOrRollBack(ifaces: seq<Iface>) returns (attached: bool, reports: seq<EndReport>)
      requires Valid() && failed == {}
      modifies this`log, this`failed, this`trees, this`next, this`mine, this`deletions, ledger
      ensures Valid() && old(log) <= log
      ensures attached <==> HasDistinct(ifaces) && !CutFailed(failed)
                            && forall i | 0 <= i < |ifaces| :: CanBeCut(TreeOf(old(trees), ifaces[i]), ifaces[i])
      ensures attached ==> AreAllCut(old(Now()), Now(), ifaces, reports)
      ensures !attached ==> AreNotCut(old(Now()), Now(), ifaces, reports)
    {
      var cut, stopped, handles := AttachEnds(ifaces);
      if stopped.None? {
        CutIsComplete(old(Now()), Now(), ifaces, cut, handles);
        return true, cut;
      }
      var others := NotTried(ifaces, |cut|, stopped.value);
      StopCanRollBack(old(Now()), Now(), ifaces, cut, handles, stopped.value);
      reports := RollBack(cut, others, handles, old(Now()), ifaces);
      attached := false;
    }

    /** `cutLinkEnds`: every end of the link is cut, or none is. It is cut exactly when the ends are different
        interfaces that can all be cut, and no planning read, second read or attach fails. */
    method CutLinkEnds(ifaces: seq<Iface>) returns (attached: bool, reports: seq<EndReport>)
      requires Valid()
      modifies this`log, this`start, this`failed, this`trees, this`next, this`mine, this`deletions, ledger
      ensures Valid() && old(log) <= log && start == |old(log)|
      ensures attached <==> HasDistinct(ifaces) && !CutFailed(failed)
                            && forall i | 0 <= i < |ifaces| :: CanBeCut(TreeOf(old(trees), ifaces[i]), ifaces[i])
      ensures attached ==> AreAllCut(old(Now()), Now(), ifaces, reports)
      ensures !attached ==> AreNotCut(old(Now()), Now(), ifaces, reports)
    {
      start, failed := |log|, {};
      var blocked;
      blocked, reports := PlanEnds(ifaces);
      if blocked {
        NothingTouched(old(Now()), Now(), ifaces, reports);
        return false, reports;
      }
      ghost var begun := Now();
      attached, reports := AttachOrRollBack(ifaces);
      CutSinceBegun(old(Now()), begun, Now(), ifaces, reports);
    }

    // ---------------------------------------------------------------- recovering

    /** The reads of the recovery, one per end. */
    method SightEnds(ifaces: seq<Iface>) returns (sighted: seq<Sighting>)
      requires Valid() && failed == {} && HasNoRepeats(ifaces)
      modifies this`log, this`failed
      ensures Valid() && old(log) <= log && |sighted| == |ifaces| && forall c | c in failed :: c.step.ReadToSight?
      ensures forall k | 0 <= k < |ifaces| :: sighted[k] == SightedAs(Now(), failed, ifaces[k])
    {
      sighted := [];
      for i := 0 to |ifaces|
        invariant Valid() && old(log) <= log && |sighted| == i
        invariant forall c | c in failed :: c.step.ReadToSight? && c.iface.Mininet? && c.iface in ifaces[..i]
        invariant forall k | 0 <= k < i :: sighted[k] == SightedAs(Now(), failed, ifaces[k])
      {
        NextEnd(ifaces, i);
        var seen := Inspect(ifaces[i]);
        assert forall k | 0 <= k < i && ifaces[k].Mininet? :: ifaces[k] != ifaces[i];
        sighted := sighted + [seen];
      }
    }

    /** The deletes of the recovery, one end after the other. */
    method RestoreEnds(ifaces: seq<Iface>, sighted: seq<Sighting>) returns (oks: seq<bool>)
      requires Valid() && HasNoRepeats(ifaces) && |sighted| == |ifaces| && forall c | c in failed :: c.step.ReadToSight?
      requires forall k | 0 <= k < |ifaces| :: sighted[k] == SightedAs(Now(), failed, ifaces[k])
      modifies this`log, this`failed, this`trees, this`deletions, ledger
      ensures Valid() && old(log) <= log && |oks| == |ifaces|
      ensures TakenSoFar(old(Now()), Now(), ifaces, oks)
    {
      oks := [];
      while |oks| < |ifaces|
        invariant Valid() && old(log) <= log && |oks| <= |ifaces|
        invariant TakenSoFar(old(Now()), Now(), ifaces, oks)
      {
        ghost var last := Now();
        NotYetTakenBack(old(Now()), last, ifaces, oks, sighted[|oks|]);
        var ok := RestoreEnd(ifaces[|oks|], sighted[|oks|]);
        OneMoreTakenBack(old(Now()), last, Now(), ifaces, oks, sighted[|oks|], ok);
        oks := oks + [ok];
      }
    }

    /** One end of the recovery; an end without a name is only reported. */
    method RestoreEnd(iface: Iface, seen: Sighting) returns (ok: bool)
      requires Valid() && Command(DelNetem, iface) !in failed && Command(ReadToCheck, iface) !in failed
      requires IsSightingOf(seen, TreeOf(trees, iface), ViewOf(ledger.entries), iface)
      modifies this`log, this`failed, this`trees, this`deletions, ledger
      ensures Valid() && old(log) <= log
      ensures IsTakenBackAs(old(Now()), Now(), iface, seen.provenance, ok)
    {
      if iface.Nameless? {
        return false;
      }
      ok := Restore(iface, seen);
    }

    /** `/ndt/inject_link_recovery`: the ends are read before anything is done; it refuses exactly when nothing
        is declared, nothing of this kernel's is seen and somebody's netem is; otherwise what is seen to be
        this kernel's comes off. */
    method Recover(ifaces: seq<Iface>, declared: bool) returns (refused: bool, oks: seq<bool>)
      requires Valid() && HasNoRepeats(ifaces)
      modifies this`log, this`start, this`failed, this`trees, this`deletions, ledger
      ensures Valid() && old(log) <= log && start == |old(log)|
      ensures refused <==> IsRefused(old(Now()), failed, ifaces, declared)
      ensures refused ==> trees == old(trees) && deletions == old(deletions) && ledger.entries == old(ledger.entries)
      ensures !refused ==> |oks| == |ifaces| && AreTakenBack(old(Now()), Now(), ifaces, oks)
    {
      start, failed := |log|, {};
      var sighted := SightEnds(ifaces);
      var anyOurs := exists i | 0 <= i < |sighted| :: sighted[i].provenance.Ours?;
      var anyForeign := exists i | 0 <= i < |sighted| :: sighted[i].provenance.Foreign?;
      refused, oks := !declared && !anyOurs && anyForeign, [];
      RefusalBySight(Now(), failed, ifaces, declared, sighted);
      ghost var begun := Now();
      if !refused {
        oks := RestoreEnds(ifaces, sighted);
        TakenBackSinceBegun(old(Now()), begun, Now(), ifaces, oks);
      }
      SightsDecide(old(Now()), begun, failed, ifaces, declared);
    }

    // ---------------------------------------------------------------- runs

    /** Somebody else edits an interface. */
    method OthersEdit(iface: Iface, edit: Edit)
      requires Valid()
      modifies this`trees, this`next
      ensures Valid() && trees == old(trees)[iface := Edited(TreeOf(old(trees), iface), edit, old(next)).0]
    {
      var (tree, used) := Edited(TreeOf(trees, iface), edit, next);
      assert IsSound(TreeOf(trees, iface), next, mine, iface);
      EditKeepsSound(TreeOf(trees, iface), edit, next, mine, iface);
      ghost var trees' := trees;
      trees := trees[iface := tree];
      TreesStaySound(trees', trees, next, used, mine, mine, iface);
      next := used;
    }

    /** Any run of cuts, recoveries and other parties' edits: every netem this kernel ever deletes, it attached
        itself, and nothing is lost with it but what hangs below it. */
    method Run(ops: seq<Op>)
      requires Valid() && forall op | op in ops && op.RecoverOp? :: HasNoRepeats(op.ifaces)
      modifies this, ledger
      ensures Valid() && forall i | 0 <= i < |deletions| :: IsLawful(deletions[i], mine)
    {
      for i := 0 to |ops|
        invariant Valid()
      {
        var op := ops[i];
        assert op in ops;
        match op {
          case CutOp(ifaces) =>
            var _, _ := CutLinkEnds(ifaces);
          case RecoverOp(ifaces, declared) =>
            var _, _ := Recover(ifaces, declared);
          case EditOp(iface, edit) =>
            OthersEdit(iface, edit);
        }
      }
    }
  }
}
