/** cJSON_Delete: frees an item, its payload and its successors. */
module CJsonDelete {
  import opened Bytes
  import opened CJsonHeap

  /** Deletes the chain that starts at `c`.  Exactly the blocks of its trees are freed, each once:
      freeing needs a live block, and what references point at is not touched. */
  method Delete(alloc: Allocator, c: Node?, ghost ks: seq<Tree>)
    requires c == First(ks) && NextLinks(ks) && HoldsAll(ks)
    requires SeparateAll(ks) && OwnerAll(ks) && BlocksOf(ks) <= alloc.live
    modifies alloc, BlocksOf(ks)
    ensures alloc.live == old(alloc.live) - BlocksOf(ks)
    ensures alloc.failures == old(alloc.failures)
    decreases ks
  {
    hide Blocks, Body, BlocksOf, Holds, Separate, Owner;
    var c := c;
    ghost var i := 0;
    BlocksWithin(ks);
    forall k | k in ks ensures alloc !in Blocks(k) {
      NotAllocator(k, alloc);
    }
    assert BlocksOf(ks[..0]) == {} by { NoBlocks(ks[..0]); }
    while c != null
      invariant 0 <= i <= |ks| && c == RootAt(ks, i)
      invariant forall j :: i <= j < |ks| ==> Holds(ks[j])
      invariant forall j :: i <= j < |ks| ==> ks[j].root.next == RootAt(ks, j + 1)
      invariant alloc.live == old(alloc.live) - BlocksOf(ks[..i])
      invariant alloc.failures == old(alloc.failures)
      decreases |ks| - i
    {
      var next := c.next;
      BlocksOfStep(ks, i);
      SeparateStep(ks, i);
      assert ks[i] in ks;
      assert next == RootAt(ks, i + 1);
      DeleteOne(alloc, c, ks[i]);
      c := next;
      i := i + 1;
    }
    assert ks[..i] == ks;
  }

  method DeleteOne(alloc: Allocator, c: Node, ghost t: Tree)
    requires c == t.root && Holds(t)
    requires Separate(t) && Owner(t) && Blocks(t) <= alloc.live
    modifies alloc, Blocks(t)
    ensures alloc.live == old(alloc.live) - Blocks(t)
    ensures alloc.failures == old(alloc.failures)
    decreases t
  {
    NotAllocator(t, alloc);
    if !IsReference(c.kind) && c.child != null {
      Delete(alloc, c.child, t.kids);
    }
    if !IsReference(c.kind) && c.text != null {
      alloc.FreeBytes(c.text);
    }
    if c.name != null {
      alloc.FreeBytes(c.name);
    }
    alloc.FreeItem(c);
  }

  /** Deletes one tree whose root has no successor. */
  method DeleteTree(alloc: Allocator, c: Node, ghost t: Tree)
    requires c == t.root && Holds(t) && c.next == null
    requires Separate(t) && Owner(t) && Blocks(t) <= alloc.live
    modifies alloc, Blocks(t)
    ensures alloc.live == old(alloc.live) - Blocks(t)
    ensures alloc.failures == old(alloc.failures)
  {
    BlocksOfOne(t);
    Delete(alloc, c, [t]);
  }

  /** Deleting one tree leaves any other intact that shares no block with it: a copy and its source,
      for one, in either order. */
  method DeleteOneOfTwo(alloc: Allocator, c: Node, ghost gone: Tree, ghost kept: Tree)
    requires c == gone.root && Detached(gone) && Detached(kept)
    requires Blocks(gone) !! Blocks(kept) && Blocks(gone) + Blocks(kept) <= alloc.live
    modifies alloc, Blocks(gone)
    ensures Detached(kept) && Blocks(kept) <= alloc.live && alloc.live == old(alloc.live) - Blocks(gone)
    ensures alloc.failures == old(alloc.failures)
  {
    hide Holds, Separate, Owner, Blocks, Body;
    NotAllocator(gone, alloc);
    NotAllocator(kept, alloc);
    DeleteTree(alloc, c, gone);
  }
}
