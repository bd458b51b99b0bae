/** cJSON_Duplicate: a copy of an item and, if asked for, of everything below it. */
module CJsonDuplicate {
  import opened Bytes
  import opened JsonText
  import opened CJsonHeap
  import CStrings
  import CJsonDelete

  function ClearReference(kind: int): int {
    if IsReference(kind) then kind - REFERENCE else kind
  }

  /** `d` copies `t`: same type apart from the reference flag, same payload. */
  ghost predicate Copies(t: Tree, d: Tree) {
    && CopiesRoot(t, d)
    && |d.kids| == |t.kids| && forall i :: 0 <= i < |t.kids| ==> Copies(t.kids[i], d.kids[i])
  }

  ghost predicate CopiesRoot(t: Tree, d: Tree) {
    && t.Item? && d.Item?
    && d.kind == ClearReference(t.kind) && d.number == t.number
    && Content(d.text) == Content(t.text) && Content(d.name) == Content(t.name)
  }

  /** A copy stands for the same value, so it prints the same text at any depth. */
  lemma {:induction false} CopyHasSameValue(t: Tree, d: Tree)
    requires Viewed(t) && Copies(t, d)
    ensures Viewed(d) && Value(d) == Value(t)
    ensures d.kind % 256 == t.kind % 256 && !IsReference(d.kind) && d.number == t.number
    ensures Content(d.text) == Content(t.text) && Content(d.name) == Content(t.name)
    decreases t, 1
  {
    hide Holds;
    assert d.kind % 256 == t.kind % 256 by {
      NotReference(t.kind);
    }
    CopiesHaveSameValues(t.kids, d.kids);
  }

  lemma {:induction false} CopiesHaveSameValues(ks: seq<Tree>, ds: seq<Tree>)
    requires ViewedAll(ks) && |ks| == |ds| && forall i :: 0 <= i < |ks| ==> Copies(ks[i], ds[i])
    ensures ViewedAll(ds) && Values(ds) == Values(ks) && Members(ds) == Members(ks)
    decreases ks, 0
  {
    if ks != [] {
      CopyHasSameValue(ks[0], ds[0]);
      CopiesHaveSameValues(ks[1..], ds[1..]);
      assert forall d | d in ds :: d == ds[0] || d in ds[1..];
    }
  }

  method Duplicate(alloc: Allocator, item: Node?, recurse: bool, ghost t: Tree)
    returns (newitem: Node?, ghost d: Tree)
    requires item != null ==> item == t.root && Holds(t) && Viewed(t)
    modifies alloc
    ensures newitem == null ==> alloc.live == old(alloc.live)
    ensures newitem == null <==> item == null || alloc.failures > old(alloc.failures)
    ensures alloc.failures >= old(alloc.failures)
    ensures newitem != null ==> newitem == d.root && Detached(d) && fresh(Blocks(d))
    ensures newitem != null ==> alloc.live == old(alloc.live) + Blocks(d)
    ensures newitem != null ==> if recurse then Copies(t, d) else CopiesRoot(t, d) && d.kids == []
    decreases t, 1
  {
    hide Blocks, Body, BlocksOf, Separate, Owner, Holds, HoldsRoot, Linked, Viewed;
    assert allocated(Blocks(t));
    d := t;
    if item == null {
      return null, t;
    }
    NotAllocator(t, alloc);
    newitem, d := DuplicateRoot(alloc, item, t);
    if newitem == null || !recurse {
      return;
    }
    HoldsStrings(d);
    NotAllocator(d, alloc);
    assert newitem in Blocks(d);
    var ok;
    ghost var ds;
    ok, ds := DuplicateKids(alloc, item, newitem, t);
    GrowItem(d, ds);
    d := d.(kids := ds);
    if !ok {
      CJsonDelete.DeleteTree(alloc, newitem, d);
      newitem := null;
    }
  }

  /** The item itself with its strings. */
  method DuplicateRoot(alloc: Allocator, item: Node, ghost t: Tree) returns (newitem: Node?, ghost d: Tree)
    requires item == t.root && Holds(t) && Viewed(t)
    modifies alloc
    ensures newitem == null ==> alloc.live == old(alloc.live)
    ensures newitem == null <==> alloc.failures > old(alloc.failures)
    ensures alloc.failures >= old(alloc.failures)
    ensures newitem != null ==> newitem == d.root && Detached(d) && fresh(Blocks(d))
    ensures newitem != null ==> alloc.live == old(alloc.live) + Blocks(d)
    ensures newitem != null ==> CopiesRoot(t, d) && d.kids == []
  {
    hide Blocks, Body, Separate, Owner, Holds, HoldsStr, IsReference, Content;
    assert allocated(Blocks(t));
    NotAllocator(t, alloc);
    HoldsStrings(t);
    NotReference(t.kind);
    NoStrHolds();
    d := t;
    newitem := alloc.NewItem();
    if newitem == null {
      return;
    }
    newitem.kind := ClearReference(item.kind);
    newitem.number := item.number;
    var ok;
    ghost var text, name;
    ok, text, name := DuplicateStrings(alloc, item, newitem, t);
    d := Item(newitem, newitem.kind, newitem.number, text, name, []);
    LeafHolds(d);
    if !ok {
      CJsonDelete.DeleteTree(alloc, newitem, d);
      newitem := null;
    }
  }

  method DuplicateStrings(alloc: Allocator, item: Node, newitem: Node, ghost t: Tree)
    returns (ok: bool, ghost text: Str, ghost name: Str)
    requires t.Item? && HoldsStr(item.text, t.text) && HoldsStr(item.name, t.name)
    requires newitem != item && newitem.text == null && newitem.name == null
    modifies alloc, newitem`text, newitem`name
    ensures HoldsStr(newitem.text, text) && HoldsStr(newitem.name, name)
    ensures StrBlocks(text) !! StrBlocks(name) && fresh(StrBlocks(text)) && fresh(StrBlocks(name))
    ensures alloc.live == old(alloc.live) + StrBlocks(text) + StrBlocks(name)
    ensures alloc.failures >= old(alloc.failures) && (ok <==> alloc.failures == old(alloc.failures))
    ensures ok ==> Content(text) == Content(t.text) && Content(name) == Content(t.name)
  {
    hide HoldsText, Content;
    assert allocated(StrBlocks(t.name));
    name := NoStr;
    ok, newitem.text, text := CStrings.StrDupIfAny(alloc, item.text, t.text);
    if ok {
      ok, newitem.name, name := CStrings.StrDupIfAny(alloc, item.name, t.name);
    }
  }

  lemma NotReference(kind: int)
    ensures !IsReference(ClearReference(kind)) && ClearReference(kind) % 256 == kind % 256
  {
  }

  /** Copies of the children, one after the other, under the new item. */
  method DuplicateKids(alloc: Allocator, item: Node, newitem: Node, ghost t: Tree)
    returns (ok: bool, ghost ds: seq<Tree>)
    requires item == t.root && Holds(t) && Viewed(t)
    requires newitem.child == null && newitem !in Blocks(t)
    modifies alloc, newitem`child
    ensures newitem.child == First(ds) && Linked(ds) && SeparateAll(ds) && OwnerAll(ds)
    ensures fresh(BlocksOf(ds)) && alloc.live == old(alloc.live) + BlocksOf(ds)
    ensures alloc.failures >= old(alloc.failures) && (ok <==> alloc.failures == old(alloc.failures))
    ensures ok ==> |ds| == |t.kids| && forall i :: 0 <= i < |t.kids| ==> Copies(t.kids[i], ds[i])
    decreases t, 0
  {
    hide Copies, Separate, Owner, Holds, Blocks, Body, BlocksOf, Linked, SeparateAll, OwnerAll, RootAt;
    assert allocated(Blocks(t));
    NoKids();
    KidAt(t, 0);
    NotAllocator(t, alloc);
    ds := [];
    var cptr, nptr: Node? := item.child, null;
    while cptr != null
      invariant |ds| <= |t.kids| && cptr == RootAt(t.kids, |ds|) && nptr == Last(ds) && newitem.child == First(ds)
      invariant Linked(ds) && SeparateAll(ds) && OwnerAll(ds)
      invariant fresh(BlocksOf(ds)) && alloc.live == old(alloc.live) + BlocksOf(ds)
      invariant alloc.failures == old(alloc.failures)
      invariant forall j :: 0 <= j < |ds| ==> Copies(t.kids[j], ds[j])
      decreases |t.kids| - |ds|
    {
      KidAt(t, |ds|);
      RootsWithin(ds);
      ghost var e;
      nptr, e := DuplicateKid(alloc, newitem, cptr, nptr, t.kids[|ds|], ds);
      if nptr == null {
        return false, ds;
      }
      KidAt(t, |ds|);
      ds := ds + [e];
      cptr := cptr.next;
    }
    KidAt(t, |ds|);
    ok := true;
  }

  /** One more child: a copy of `cptr` becomes the successor of `nptr`, or the first child. */
  method DuplicateKid(alloc: Allocator, newitem: Node, cptr: Node, nptr: Node?, ghost kid: Tree, ghost ds: seq<Tree>)
    returns (newchild: Node?, ghost e: Tree)
    requires cptr == kid.root && Holds(kid) && Viewed(kid)
    requires newitem.child == First(ds) && nptr == Last(ds)
    requires Linked(ds) && SeparateAll(ds) && OwnerAll(ds) && newitem !in BlocksOf(ds)
    modifies alloc, newitem`child, Roots(ds)`next
    ensures alloc.failures >= old(alloc.failures) && (newchild == null <==> alloc.failures > old(alloc.failures))
    ensures newchild == null ==> newitem.child == First(ds) && Linked(ds) && alloc.live == old(alloc.live)
    ensures newchild != null ==> newchild == e.root && Copies(kid, e)
    ensures newchild != null ==> newitem.child == First(ds + [e]) && Last(ds + [e]) == newchild
    ensures newchild != null ==> Linked(ds + [e]) && SeparateAll(ds + [e]) && OwnerAll(ds + [e])
    ensures newchild != null ==> BlocksOf(ds + [e]) == BlocksOf(ds) + Blocks(e) && fresh(Blocks(e))
    ensures newchild != null ==> alloc.live == old(alloc.live) + Blocks(e)
    decreases kid, 2
  {
    hide Copies, Separate, Owner, Holds, HoldsRoot, Blocks, Body, BlocksOf, Linked, SeparateAll, OwnerAll, Viewed;
    assert allocated(BlocksOf(ds));
    NotBlock(ds, alloc);
    newchild, e := Duplicate(alloc, cptr, true, kid);
    if newchild != null {
      assert newchild in Blocks(e);
      OwnerAppend(ds, e);
      if nptr != null {
        Link(nptr, newchild, ds, e);
      } else {
        LinkedOne(e);
        newitem.child := newchild;
      }
    }
  }
}
