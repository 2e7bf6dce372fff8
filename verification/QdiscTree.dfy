/** Queueing-discipline trees as `tc qdisc show` lists them, and where a netem may be hung without
    losing what is there (`include/utils/NetemLinkFault.hpp`). */
module QdiscTree {
  import opened Prelude

  datatype Handle = Handle(n: int)
  datatype Class = Class(minor: int)

  /** Where a qdisc is attached. `Unprinted` stands for a line that does not say. */
  datatype Place = Root | Under(parent: Handle, minor: Class) | Unprinted

  datatype Kind = Netem | Htb | Other(name: string)

  /** One line of the listing. `fallback` is the default class an htb line may name. */
  datatype Qdisc = Qdisc(kind: Kind, handle: Handle, place: Place, fallback: Option<Class>)

  type Tree = seq<Qdisc>

  /** What the system puts at the root of an interface nobody has configured. */
  const DefaultRoot := Qdisc(Other("noqueue"), Handle(0), Root, None)

  const DefaultTree: Tree := [DefaultRoot]

  // ---------------------------------------------------------------- reading a tree

  function FirstNetem(tree: Tree): (r: Option<Qdisc>)
    ensures r.Some? ==> r.value in tree && r.value.kind.Netem?
    ensures r.None? ==> forall q | q in tree :: !q.kind.Netem?
  {
    if tree == [] then None else if tree[0].kind.Netem? then Some(tree[0]) else FirstNetem(tree[1..])
  }

  /** It is the first in the listing. */
  lemma {:induction false} FirstNetemIsFirst(tree: Tree, i: nat)
    requires i < |tree| && tree[i].kind.Netem? && forall k | 0 <= k < i :: !tree[k].kind.Netem?
    ensures FirstNetem(tree) == Some(tree[i])
  {
    if i > 0 {
      FirstNetemIsFirst(tree[1..], i - 1);
    }
  }

  function RootOf(tree: Tree): (r: Option<Qdisc>)
    ensures r.Some? ==> r.value in tree && r.value.place.Root?
    ensures r.None? ==> forall q | q in tree :: !q.place.Root?
  {
    if tree == [] then None else if tree[0].place.Root? then Some(tree[0]) else RootOf(tree[1..])
  }

  datatype Refusal = EmptyTree | NetemPresent | NoRoot | NoDefaultClass

  datatype Plan = Attach(place: Place) | Refuse(why: Refusal)

  /** `planAttach`: under the default class of an htb shaper, at the root of anything else, nowhere when
      a netem is there already or the tree cannot be made out. */
  function PlanAttach(tree: Tree): Plan {
    if tree == [] then Refuse(EmptyTree)
    else if FirstNetem(tree).Some? then Refuse(NetemPresent)
    else
      var root := RootOf(tree);
      if root.None? then Refuse(NoRoot)
      else if root.value.kind.Htb? then
        if root.value.fallback.Some? then Attach(Under(root.value.handle, root.value.fallback.value))
            else Refuse(NoDefaultClass)
      else Attach(Root)
  }

  // ---------------------------------------------------------------- what a tree is, line by line

  predicate HasNetem(tree: Tree) {
    exists q | q in tree :: q.kind.Netem?
  }

  /** Line `i` is the first root line. */
  ghost predicate IsRootLine(tree: Tree, i: nat) {
    i < |tree| && tree[i].place.Root? && forall k | 0 <= k < i :: !tree[k].place.Root?
  }

  /** The root is an htb shaper with this handle, which names this default class. */
  ghost predicate IsShapedBy(tree: Tree, h: Handle, c: Class) {
    exists i: nat :: IsRootLine(tree, i) && tree[i].kind.Htb? && tree[i].handle == h && tree[i].fallback == Some(c)
  }

  /** The root is an htb shaper that names no default class. */
  ghost predicate IsShapedBlindly(tree: Tree) {
    exists i: nat :: IsRootLine(tree, i) && tree[i].kind.Htb? && tree[i].fallback.None?
  }

  /** The root is anything but an htb shaper. */
  ghost predicate IsUnshaped(tree: Tree) {
    exists i: nat :: IsRootLine(tree, i) && !tree[i].kind.Htb?
  }

  lemma {:induction false} RootOfIsRootLine(tree: Tree, i: nat)
    requires IsRootLine(tree, i)
    ensures RootOf(tree) == Some(tree[i])
  {
    if i > 0 {
      RootOfIsRootLine(tree[1..], i - 1);
    }
  }

  lemma {:induction false} RootLineOf(tree: Tree) returns (i: nat)
    requires RootOf(tree).Some?
    ensures IsRootLine(tree, i)
  {
    if tree[0].place.Root? {
      i := 0;
    } else {
      i := RootLineOf(tree[1..]);
      i := i + 1;
    }
  }

  /** Where planning puts a netem, told from the lines: on the default class of a shaper that names one, at the
      root of what is no shaper, and nowhere if there is a netem, no root, or a shaper that names no class. */
  lemma PlanByLines(tree: Tree)
    ensures forall h, c :: PlanAttach(tree) == Attach(Under(h, c)) <==> !HasNetem(tree) && IsShapedBy(tree, h, c)
    ensures PlanAttach(tree) == Attach(Root) <==> !HasNetem(tree) && IsUnshaped(tree)
    ensures PlanAttach(tree) != Attach(Unprinted)
    ensures PlanAttach(tree) == Refuse(EmptyTree) <==> tree == []
    ensures PlanAttach(tree) == Refuse(NetemPresent) <==> HasNetem(tree)
    ensures PlanAttach(tree) == Refuse(NoRoot) <==>
              tree != [] && !HasNetem(tree) && forall q | q in tree :: !q.place.Root?
    ensures PlanAttach(tree) == Refuse(NoDefaultClass) <==> !HasNetem(tree) && IsShapedBlindly(tree)
  {
    if RootOf(tree).Some? {
      var i := RootLineOf(tree);
      RootOfIsRootLine(tree, i);
      assert tree[i] in tree;
      forall k: nat | IsRootLine(tree, k) ensures k == i {
      }
    }
  }

  // ---------------------------------------------------------------- changing a tree

  predicate HangsFrom(q: Qdisc, h: Handle) {
    q.place.Under? && q.place.parent == h
  }

  /** The line goes when the qdisc at `place` goes, and with it what hangs from the handles in `gone`. */
  predicate Goes(q: Qdisc, place: Place, gone: set<Handle>) {
    q.place == place || (q.place.Under? && q.place.parent in gone)
  }

  /** The handles that go with the qdisc at `place`. Lines stand below the line they hang from. */
  function Gone(tree: Tree, place: Place): set<Handle> {
    if tree == [] then {}
    else
      var gone, q := Gone(tree[..|tree| - 1], place), tree[|tree| - 1];
      if Goes(q, place, gone) then gone + {q.handle} else gone
  }

  /** The lines that stay. */
  function Prune(tree: Tree, place: Place): Tree {
    if tree == [] then []
    else
      var rest, q := tree[..|tree| - 1], tree[|tree| - 1];
      Prune(rest, place) + (if Goes(q, place, Gone(rest, place)) then [] else [q])
  }

  /** The tree after `tc qdisc add`: at the root it takes the place of what is there and hangs from it. */
  function AddQdisc(tree: Tree, q: Qdisc): Tree {
    if q.place.Root? then [q] + Prune(tree, Root) else tree + [q]
  }

  function AddNetem(tree: Tree, place: Place, h: Handle): Tree {
    AddQdisc(tree, Qdisc(Netem, h, place, None))
  }

  predicate IsVacant(tree: Tree, place: Place) {
    forall q | q in tree :: q.place != place
  }

  /** The tree after `tc qdisc del`: at the root the system's default comes back. */
  function Delete(tree: Tree, place: Place): Tree {
    (if place.Root? then DefaultTree else []) + Prune(tree, place)
  }

  /** No line uses a handle from `next` on. */
  ghost predicate IsBelow(tree: Tree, next: int) {
    forall q | q in tree :: q.handle.n < next && (q.place.Under? ==> q.place.parent.n < next)
  }

  // ---------------------------------------------------------------- what a delete takes

  /** Handles and places are all different, and a line stands below the line it hangs from. */
  ghost predicate IsWellListed(tree: Tree) {
    && (forall i, j | 0 <= i < j < |tree| :: AreApart(tree[i], tree[j]))
    && (forall i, j | 0 <= i < |tree| && 0 <= j < |tree| && HangsFrom(tree[j], tree[i].handle) :: i < j)
  }

  predicate AreApart(q: Qdisc, r: Qdisc) {
    q.handle != r.handle && (q.place != r.place || q.place.Unprinted?)
  }

  /** Line `j` hangs from line `i`, or from a line that hangs below it. */
  ghost predicate HangsBelow(tree: Tree, i: nat, j: nat)
    requires i < |tree| && j < |tree|
    decreases j
  {
    && i < j
    && (|| HangsFrom(tree[j], tree[i].handle)
        || exists k :: i < k < j && HangsBelow(tree, i, k) && HangsFrom(tree[j], tree[k].handle))
  }

  /** The handles gone among the first `n` lines are those of line `i` and of the lines below it. */
  lemma {:induction false} GoneIsBelow(tree: Tree, i: nat, n: nat)
    requires IsWellListed(tree) && i < |tree| && n <= |tree| && !tree[i].place.Unprinted?
    ensures forall j | 0 <= j < n :: tree[j].handle in Gone(tree[..n], tree[i].place) <==>
        j == i || HangsBelow(tree, i, j)
    ensures forall h | h in Gone(tree[..n], tree[i].place) :: exists j :: 0 <= j < n && tree[j].handle == h
    decreases n
  {
    if n > 0 {
      GoneIsBelow(tree, i, n - 1);
      assert tree[..n][..n - 1] == tree[..n - 1];
      LineGoes(tree, i, n - 1);
    }
  }

  lemma LineGoes(tree: Tree, i: nat, j: nat)
    requires IsWellListed(tree) && i < |tree| && j < |tree| && !tree[i].place.Unprinted?
    requires forall k | 0 <= k < j :: tree[k].handle in Gone(tree[..j], tree[i].place) <==>
        k == i || HangsBelow(tree, i, k)
    requires forall h | h in Gone(tree[..j], tree[i].place) :: exists k :: 0 <= k < j && tree[k].handle == h
    ensures Goes(tree[j], tree[i].place, Gone(tree[..j], tree[i].place)) <==> j == i || HangsBelow(tree, i, j)
  {
    var gone := Gone(tree[..j], tree[i].place);
    assert j != i ==> AreApart(tree[j], tree[i]);
    if tree[j].place.Under? && tree[j].place.parent in gone {
      var k :| 0 <= k < j && tree[k].handle == tree[j].place.parent;
      assert k == i || HangsBelow(tree, i, k);
    }
    if HangsBelow(tree, i, j) {
      if HangsFrom(tree[j], tree[i].handle) {
        assert tree[i].handle in gone;
      } else {
        var k :| i < k < j && HangsBelow(tree, i, k) && HangsFrom(tree[j], tree[k].handle);
        assert tree[k].handle in gone;
      }
    }
  }

  lemma {:induction false} PruneKeepsOthers(tree: Tree, i: nat, n: nat, j: nat)
    requires IsWellListed(tree) && i < |tree| && n <= |tree| && j < |tree| && !tree[i].place.Unprinted?
    ensures tree[j] in Prune(tree[..n], tree[i].place) <==> j < n && j != i && !HangsBelow(tree, i, j)
    decreases n
  {
    if n > 0 {
      PruneKeepsOthers(tree, i, n - 1, j);
      assert tree[..n][..n - 1] == tree[..n - 1];
      GoneIsBelow(tree, i, n - 1);
      LineGoes(tree, i, n - 1);
      assert j != n - 1 ==> tree[j] != tree[n - 1] by {
        assert j < n - 1 ==> AreApart(tree[j], tree[n - 1]);
        assert j > n - 1 ==> AreApart(tree[n - 1], tree[j]);
      }
    }
  }

  /** A delete takes exactly its target and what hangs below it, at the root as anywhere else. */
  lemma DeleteTakesTargetAndBelow(tree: Tree, i: nat, j: nat)
    requires IsWellListed(tree) && i < |tree| && j < |tree| && !tree[i].place.Unprinted? && tree[i] != DefaultRoot
    ensures tree[j] in Delete(tree, tree[i].place) <==> j != i && !HangsBelow(tree, i, j)
  {
    assert tree[..|tree|] == tree;
    PruneKeepsOthers(tree, i, |tree|, j);
    assert i < j ==> AreApart(tree[i], tree[j]);
    assert j < i ==> AreApart(tree[j], tree[i]);
  }

  /** It takes nothing but its target exactly when nothing hangs from that: another party's qdisc that was
      stacked onto it goes with it. */
  lemma DeleteTakesOnlyTarget(tree: Tree, i: nat)
    requires IsWellListed(tree) && i < |tree| && !tree[i].place.Unprinted? && tree[i] != DefaultRoot
    ensures (forall q | q in tree && q != tree[i] :: q in Delete(tree, tree[i].place))
            <==> (forall q | q in tree :: !HangsFrom(q, tree[i].handle))
  {
    forall j | 0 <= j < |tree| ensures tree[j] in Delete(tree, tree[i].place) <==> j != i && !HangsBelow(tree, i, j) {
      DeleteTakesTargetAndBelow(tree, i, j);
    }
    forall q | q in tree && HangsFrom(q, tree[i].handle) ensures q != tree[i] && q !in Delete(tree, tree[i].place) {
      var j :| 0 <= j < |tree| && tree[j] == q;
      assert i < j && HangsBelow(tree, i, j);
    }
    if forall q | q in tree :: !HangsFrom(q, tree[i].handle) {
      forall j | 0 <= j < |tree| ensures !HangsBelow(tree, i, j) {
        NothingBelow(tree, i, j);
      }
    }
  }

  lemma {:induction false} NothingBelow(tree: Tree, i: nat, j: nat)
    requires i < |tree| && j < |tree| && forall q | q in tree :: !HangsFrom(q, tree[i].handle)
    ensures !HangsBelow(tree, i, j)
    decreases j
  {
    forall k | i < k < j ensures !HangsBelow(tree, i, k) {
      NothingBelow(tree, i, k);
    }
  }

  // ---------------------------------------------------------------- trees stay well listed

  /** Pruning keeps lines, in order, and takes the place itself. */
  lemma {:induction false} PruneKeepsOld(tree: Tree, place: Place)
    ensures forall q | q in Prune(tree, place) :: q in tree && q.place != place
  {
    if tree != [] {
      PruneKeepsOld(tree[..|tree| - 1], place);
    }
  }

  lemma {:induction false} PruneKeepsListing(tree: Tree, place: Place)
    requires IsWellListed(tree)
    ensures IsWellListed(Prune(tree, place))
  {
    if tree != [] {
      var rest, q := tree[..|tree| - 1], tree[|tree| - 1];
      PruneKeepsListing(rest, place);
      PruneKeepsOld(rest, place);
      forall x | x in rest ensures AreApart(x, q) && !HangsFrom(x, q.handle) {
        var k :| 0 <= k < |rest| && rest[k] == x;
        assert tree[k] == x && AreApart(tree[k], tree[|rest|]);
        assert HangsFrom(tree[k], q.handle) ==> |rest| < k;
      }
      assert !HangsFrom(q, q.handle) by {
        assert HangsFrom(tree[|rest|], tree[|rest|].handle) ==> |rest| < |rest|;
      }
      ListOneMore(Prune(rest, place), q);
    }
  }

  lemma ListOneMore(tree: Tree, q: Qdisc)
    requires IsWellListed(tree) && !HangsFrom(q, q.handle)
    requires forall x | x in tree :: AreApart(x, q) && !HangsFrom(x, q.handle)
    ensures IsWellListed(tree + [q])
  {
    var t := tree + [q];
    assert forall k | 0 <= k < |tree| :: t[k] == tree[k] && tree[k] in tree;
  }

  lemma ListOneBefore(q: Qdisc, tree: Tree)
    requires IsWellListed(tree) && q.place.Root?
    requires forall x | x in tree :: AreApart(q, x)
    ensures IsWellListed([q] + tree)
  {
    var t := [q] + tree;
    assert forall k | 0 < k < |t| :: t[k] == tree[k - 1] && tree[k - 1] in tree;
    forall i, j | 0 <= i < |t| && 0 <= j < |t| && HangsFrom(t[j], t[i].handle) ensures i < j {
      if i > 0 {
        assert HangsFrom(tree[j - 1], tree[i - 1].handle);
      }
    }
  }

  /** A fresh qdisc at a vacant place, or at the root, keeps the listing. */
  lemma AddKeepsListing(tree: Tree, q: Qdisc)
    requires IsWellListed(tree) && IsBelow(tree, q.handle.n) && (q.place.Under? ==> q.place.parent.n < q.handle.n)
    requires q.place.Root? || q.place.Unprinted? || IsVacant(tree, q.place)
    ensures IsWellListed(AddQdisc(tree, q))
  {
    PruneKeepsListing(tree, Root);
    PruneKeepsOld(tree, Root);
    if q.place.Root? {
      ListOneBefore(q, Prune(tree, Root));
    } else {
      ListOneMore(tree, q);
    }
  }

  /** The system's own root is no other qdisc's handle. */
  ghost predicate KeepsZero(tree: Tree) {
    forall q | q in tree && q.handle == Handle(0) :: q.place.Root?
  }

  lemma DeleteKeepsListing(tree: Tree, place: Place)
    requires IsWellListed(tree) && KeepsZero(tree)
    ensures IsWellListed(Delete(tree, place)) && KeepsZero(Delete(tree, place))
  {
    PruneKeepsListing(tree, place);
    PruneKeepsOld(tree, place);
    if place.Root? {
      ListOneBefore(DefaultRoot, Prune(tree, place));
    } else {
      assert [] + Prune(tree, place) == Prune(tree, place);
    }
  }

  // ---------------------------------------------------------------- a cut and its undoing

  lemma {:induction false} PruneNothing(tree: Tree, place: Place)
    requires IsVacant(tree, place)
    ensures Prune(tree, place) == tree && Gone(tree, place) == {}
  {
    if tree != [] {
      PruneNothing(tree[..|tree| - 1], place);
    }
  }

  lemma {:induction false} PruneFirst(q: Qdisc, tree: Tree)
    requires IsVacant(tree, q.place) && forall x | x in tree :: !HangsFrom(x, q.handle)
    ensures Prune([q] + tree, q.place) == tree && Gone([q] + tree, q.place) == {q.handle}
  {
    if tree == [] {
      assert [q] + tree == [q] && [q][..0] == [];
    } else {
      var rest, x := tree[..|tree| - 1], tree[|tree| - 1];
      assert ([q] + tree)[..|tree|] == [q] + rest && ([q] + tree)[|tree|] == x && x in tree;
      assert forall y | y in rest :: y in tree;
      PruneFirst(q, rest);
      assert !Goes(x, q.place, {q.handle});
      assert rest + [x] == tree;
    }
  }

  /** The root is the system's default and nothing hangs from it. */
  predicate HasDefaultRoot(tree: Tree) {
    && tree != [] && tree[0] == DefaultRoot
    && forall q | q in tree[1..] :: !q.place.Root? && !HangsFrom(q, DefaultRoot.handle)
  }

  /** The tree with the system's default at the root, whatever was there. */
  function Reset(tree: Tree): Tree {
    DefaultTree + Prune(tree, Root)
  }

  lemma ResetIsSame(tree: Tree)
    ensures Reset(tree) == tree <==> HasDefaultRoot(tree)
  {
    PruneKeepsOld(tree, Root);
    if HasDefaultRoot(tree) {
      PruneFirst(DefaultRoot, tree[1..]);
      assert tree == [DefaultRoot] + tree[1..];
    }
    if Reset(tree) == tree {
      assert tree[1..] == Prune(tree, Root);
      DefaultHasNothingBelow(tree);
    }
  }

  lemma DefaultHasNothingBelow(tree: Tree)
    requires tree != [] && tree[0] == DefaultRoot && Prune(tree, Root) == tree[1..]
    ensures forall q | q in tree[1..] :: !HangsFrom(q, DefaultRoot.handle)
  {
    forall k | 1 <= k < |tree| ensures !HangsFrom(tree[k], DefaultRoot.handle) {
      PruneTakesUnderDefault(tree, k, |tree|);
      assert tree[..|tree|] == tree;
    }
  }

  lemma {:induction false} PruneShrinks(tree: Tree, n: nat)
    requires tree != [] && tree[0].place.Root? && 1 <= n <= |tree|
    ensures |Prune(tree[..n], Root)| <= n - 1 && tree[0].handle in Gone(tree[..n], Root)
  {
    if n == 1 {
      assert tree[..1][..0] == [];
    } else {
      assert tree[..n][..n - 1] == tree[..n - 1];
      PruneShrinks(tree, n - 1);
    }
  }

  lemma {:induction false} PruneTakesUnderDefault(tree: Tree, k: nat, n: nat)
    requires tree != [] && tree[0].place.Root? && 1 <= k < n <= |tree|
    ensures HangsFrom(tree[k], tree[0].handle) ==> |Prune(tree[..n], Root)| < n - 1
    decreases n
  {
    assert tree[..n][..n - 1] == tree[..n - 1];
    PruneShrinks(tree, n - 1);
    if k < n - 1 {
      PruneTakesUnderDefault(tree, k, n - 1);
    }
  }

  /** A cut of a shaped tree keeps every line, hangs its one netem on the shaper's default class, and is undone
      without a trace. */
  lemma ShaperIsKept(tree: Tree, r: Handle, c: Class, h: Handle)
    requires !HasNetem(tree) && IsShapedBy(tree, r, c) && IsVacant(tree, Under(r, c))
    ensures PlanAttach(tree).Attach?
    ensures var place, netem := PlanAttach(tree).place, Qdisc(Netem, h, Under(r, c), None);
            AddNetem(tree, place, h) == tree + [netem] && Delete(AddNetem(tree, place, h), netem.place) == tree
  {
    PlanByLines(tree);
    UndoBelow(tree, Qdisc(Netem, h, Under(r, c), None));
  }

  /** A cut of any other tree takes the root's place: the old root is lost, and what hangs below it, and nothing
      else. */
  lemma OtherRootIsReplaced(tree: Tree, i: nat, j: nat, h: Handle)
    requires !HasNetem(tree) && IsUnshaped(tree) && IsWellListed(tree) && IsBelow(tree, h.n)
    requires IsRootLine(tree, i) && j < |tree|
    ensures PlanAttach(tree).Attach?
    ensures var after := AddNetem(tree, PlanAttach(tree).place, h);
            && after != [] && after[0] == Qdisc(Netem, h, Root, None)
            && (tree[j] in after <==> j != i && !HangsBelow(tree, i, j))
            && forall q | q in after[1..] :: q in tree
  {
    PlanByLines(tree);
    PruneKeepsOld(tree, Root);
    assert tree[..|tree|] == tree;
    PruneKeepsOthers(tree, i, |tree|, j);
  }

  /** A netem could be hung somewhere: on the default class of a shaper, or in place of another root. */
  ghost predicate HasPlace(tree: Tree) {
    !HasNetem(tree) && (IsUnshaped(tree) || exists r, c :: IsShapedBy(tree, r, c))
  }

  /** ... and nothing is in the way. */
  ghost predicate HasFreePlace(tree: Tree) {
    !HasNetem(tree) && (IsUnshaped(tree) || exists r, c :: IsShapedBy(tree, r, c) && IsVacant(tree, Under(r, c)))
  }

  /** The tree is cut by a netem with handle `h`, the only one: it hangs on the default class of the shaper and
      every line is kept, or it has taken the place of a root that is no shaper. */
  ghost predicate IsCut(before: Tree, after: Tree, h: Handle) {
    && !HasNetem(before) && IsBelow(before, h.n)
    && (|| (IsUnshaped(before) && after == [Qdisc(Netem, h, Root, None)] + Prune(before, Root))
        || exists r, c ::
             && IsShapedBy(before, r, c) && IsVacant(before, Under(r, c))
             && after == before + [Qdisc(Netem, h, Under(r, c), None)])
  }

  lemma PlanIsForPlace(tree: Tree)
    ensures PlanAttach(tree).Attach? <==> HasPlace(tree)
    ensures HasFreePlace(tree) ==> HasPlace(tree)
  {
    PlanByLines(tree);
  }

  /** Planning finds a place exactly in trees that have one, and a cut there is one in the sense above. */
  lemma PlanFindsPlace(tree: Tree, h: Handle)
    ensures var plan := PlanAttach(tree);
            && (plan.Attach? <==> HasPlace(tree))
            && (plan.Attach? && (plan.place.Root? || IsVacant(tree, plan.place)) <==> HasFreePlace(tree))
            && (HasFreePlace(tree) && IsBelow(tree, h.n) ==> IsCut(tree, AddNetem(tree, plan.place, h), h))
            && forall after | IsCut(tree, after, h) :: HasFreePlace(tree) && after == AddNetem(tree, plan.place, h)
  {
    PlanByLines(tree);
  }

  /** A cut and its undoing give back the tree exactly when the root is a shaper, or the system's default with
      nothing hanging from it; otherwise the root and what hung from it are lost. */
  lemma UndoRestores(tree: Tree, cut: Tree, h: Handle)
    requires IsCut(tree, cut, h)
    ensures FirstNetem(cut).Some?
    ensures Delete(cut, FirstNetem(cut).value.place) == (if IsUnshaped(tree) then Reset(tree) else tree)
    ensures Delete(cut, FirstNetem(cut).value.place) == tree <==> !IsUnshaped(tree) || HasDefaultRoot(tree)
  {
    PlanByLines(tree);
    ResetIsSame(tree);
    CutHasOneNetem(tree, cut, h);
    if IsUnshaped(tree) {
      UndoAtRoot(tree, Qdisc(Netem, h, Root, None));
    } else {
      UndoBelow(tree, FirstNetem(cut).value);
    }
  }

  lemma UndoAtRoot(tree: Tree, q: Qdisc)
    requires q.place.Root? && IsBelow(tree, q.handle.n)
    ensures Delete(AddQdisc(tree, q), Root) == Reset(tree)
  {
    PruneKeepsOld(tree, Root);
    PruneFirst(q, Prune(tree, Root));
  }

  lemma UndoBelow(tree: Tree, q: Qdisc)
    requires q.place.Under? && IsVacant(tree, q.place)
    ensures Delete(AddQdisc(tree, q), q.place) == tree
  {
    PruneNothing(tree, q.place);
    assert (tree + [q])[..|tree|] == tree;
  }

  /** A tree that was cut held no netem, and now holds exactly the one added. */
  lemma CutHasOneNetem(tree: Tree, cut: Tree, h: Handle)
    requires IsCut(tree, cut, h)
    ensures FirstNetem(cut).Some? && FirstNetem(cut).value.handle == h && !FirstNetem(cut).value.place.Unprinted?
    ensures forall q | q in cut && q.kind.Netem? :: q == FirstNetem(cut).value
    ensures FirstNetem(tree).None? && FirstNetem(Reset(tree)).None?
    ensures !IsUnshaped(tree) ==> cut == tree + [FirstNetem(cut).value] && IsVacant(tree, FirstNetem(cut).value.place)
  {
    PruneKeepsOld(tree, Root);
    PlanByLines(tree);
    if !IsUnshaped(tree) {
      var r, c :| IsShapedBy(tree, r, c) && cut == tree + [Qdisc(Netem, h, Under(r, c), None)]
                  && IsVacant(tree, Under(r, c));
      assert cut[|tree|] in cut;
    } else {
      assert cut[0] in cut;
    }
  }

  /** A shaper whose root is neither htb nor the default is lost by a cut that is undone. */
  lemma OtherShaperIsLost(h: Handle)
    requires h.n > 5
    ensures var tree := [Qdisc(Other("tbf"), Handle(5), Root, None)];
            IsCut(tree, AddNetem(tree, Root, h), h) && Delete(AddNetem(tree, Root, h), Root) != tree
  {
    var tree := [Qdisc(Other("tbf"), Handle(5), Root, None)];
    assert IsRootLine(tree, 0) && tree[1..] == [];
    UndoRestores(tree, AddNetem(tree, Root, h), h);
  }
}
