/** Which netem qdiscs this kernel attached (`include/utils/InjectedNetemLedger.hpp`). */
module NetemLedger {
  import opened Prelude
  import opened QdiscTree

  /** An interface as the topology names it: not at all, oddly, or `s<N>-eth<M>`. */
  datatype Iface = Nameless | Odd(name: string) | Mininet(sw: int, port: int)

  /** `handle` is None when the tree could not be read back after the attach. */
  datatype Injected = Injected(iface: Iface, handle: Option<Handle>)

  type View = map<Iface, Option<Handle>>

  /** What the entries say, the first of an interface counting. */
  function ViewOf(entries: seq<Injected>): View {
    if entries == [] then map[] else ViewOf(entries[1..])[entries[0].iface := entries[0].handle]
  }

  ghost predicate HasUniqueIfaces(entries: seq<Injected>) {
    forall i, j | 0 <= i < j < |entries| :: entries[i].iface != entries[j].iface
  }

  lemma {:induction false} ViewOfEntry(entries: seq<Injected>, i: nat)
    requires HasUniqueIfaces(entries) && i < |entries|
    ensures Lookup(ViewOf(entries), entries[i].iface) == Some(entries[i].handle)
  {
    if i > 0 {
      ViewOfEntry(entries[1..], i - 1);
    }
  }

  lemma {:induction false} ViewOfAbsent(entries: seq<Injected>, iface: Iface)
    requires forall i | 0 <= i < |entries| :: entries[i].iface != iface
    ensures iface !in ViewOf(entries)
  {
    if entries != [] {
      ViewOfAbsent(entries[1..], iface);
    }
  }

  lemma {:induction false} ViewAfterUpdate(entries: seq<Injected>, i: nat, e: Injected)
    requires HasUniqueIfaces(entries) && i < |entries| && entries[i].iface == e.iface
    ensures ViewOf(entries[i := e]) == ViewOf(entries)[e.iface := e.handle]
  {
    if i == 0 {
      assert entries[0 := e][1..] == entries[1..];
    } else {
      assert entries[i := e][1..] == entries[1..][i - 1 := e];
      ViewAfterUpdate(entries[1..], i - 1, e);
    }
  }

  lemma {:induction false} ViewAfterAppend(entries: seq<Injected>, e: Injected)
    requires forall i | 0 <= i < |entries| :: entries[i].iface != e.iface
    ensures ViewOf(entries + [e]) == ViewOf(entries)[e.iface := e.handle]
  {
    if entries == [] {
      assert ([] + [e])[1..] == [];
    } else {
      assert (entries + [e])[1..] == entries[1..] + [e];
      ViewAfterAppend(entries[1..], e);
    }
  }

  lemma {:induction false} ViewAfterErase(entries: seq<Injected>, i: nat)
    requires HasUniqueIfaces(entries) && i < |entries|
    ensures ViewOf(entries[..i] + entries[i + 1..]) == ViewOf(entries) - {entries[i].iface}
  {
    if i == 0 {
      assert entries[..0] + entries[1..] == entries[1..];
      ViewOfAbsent(entries[1..], entries[0].iface);
    } else {
      var e := entries[..i] + entries[i + 1..];
      assert e[1..] == entries[1..][..i - 1] + entries[1..][i..];
      ViewAfterErase(entries[1..], i - 1);
    }
  }

  class InjectedNetemLedger {
    var entries: seq<Injected>

    ghost predicate Valid()
      reads this
    {
      HasUniqueIfaces(entries)
    }

    constructor ()
      ensures Valid() && ViewOf(entries) == map[]
    {
      entries := [];
    }

    /** Replaces the interface's entry, or adds one. */
    method Record(iface: Iface, handle: Option<Handle>)
      requires Valid()
      modifies this
      ensures Valid() && ViewOf(entries) == ViewOf(old(entries))[iface := handle]
    {
      for i := 0 to |entries|
        invariant entries == old(entries) && forall k | 0 <= k < i :: entries[k].iface != iface
      {
        if entries[i].iface == iface {
          ViewAfterUpdate(entries, i, Injected(iface, handle));
          entries := entries[i := Injected(iface, handle)];
          return;
        }
      }
      ViewAfterAppend(entries, Injected(iface, handle));
      entries := entries + [Injected(iface, handle)];
    }

    /** The handle this kernel can name on the interface, if any: an entry without one is not a claim. */
    method Find(iface: Iface) returns (handle: Option<Handle>)
      requires Valid()
      ensures handle == if iface in ViewOf(entries) then ViewOf(entries)[iface] else None
    {
      for i := 0 to |entries|
        invariant forall k | 0 <= k < i :: entries[k].iface != iface || entries[k].handle.None?
      {
        if entries[i].iface == iface && entries[i].handle.Some? {
          ViewOfEntry(entries, i);
          return entries[i].handle;
        }
      }
      if k :| 0 <= k < |entries| && entries[k].iface == iface {
        ViewOfEntry(entries, k);
      } else {
        ViewOfAbsent(entries, iface);
      }
      return None;
    }

    method Forget(iface: Iface)
      requires Valid()
      modifies this
      ensures Valid() && ViewOf(entries) == ViewOf(old(entries)) - {iface}
    {
      for i := 0 to |entries|
        invariant entries == old(entries) && forall k | 0 <= k < i :: entries[k].iface != iface
      {
        if entries[i].iface == iface {
          ViewAfterErase(entries, i);
          entries := entries[..i] + entries[i + 1..];
          return;
        }
      }
      ViewOfAbsent(entries, iface);
    }
  }
}
