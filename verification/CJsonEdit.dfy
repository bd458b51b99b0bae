/** The list operations of cJSON: look up, add, detach, delete and replace children,
    and references that share a payload. */
module CJsonEdit {
  import opened Bytes
  import opened CJsonHeap
  import CStrings
  import CJsonDelete

  /** The children of an item, and no more: the chain hangs under `parent`, which owns it. */
  ghost predicate HasChildren(parent: Node, ks: seq<Tree>)
    reads parent`child, BlocksOf(ks)
  {
    && parent.child == First(ks) && Linked(ks)
    && SeparateAll(ks) && OwnerAll(ks) && parent !in BlocksOf(ks)
  }

  // ---------- names ----------

  /** tolower, in the C locale. */
  function ToLower(b: byte): byte {
    if 65 <= b <= 90 then b + 32 else b
  }

  /** The same byte, or the two cases of one of the 26 letters. */
  predicate SameLetter(a: byte, b: byte) {
    a == b || (65 <= a <= 90 && b == a + 32) || (65 <= b <= 90 && a == b + 32)
  }

  lemma LowerMeansSameLetter(a: byte, b: byte)
    ensures ToLower(a) == ToLower(b) <==> SameLetter(a, b)
  {
  }

  predicate SameLetters(a: seq<byte>, b: seq<byte>) {
    |a| == |b| && forall i :: 0 <= i < |a| ==> SameLetter(a[i], b[i])
  }

  /** A name is found in any spelling of its letters. */
  lemma {:induction false} LookupIgnoresCase(ks: seq<Tree>, a: seq<byte>, b: seq<byte>)
    requires SameLetters(a, b)
    ensures FindName(ks, Some(a)) == FindName(ks, Some(b))
  {
    if ks != [] {
      LookupIgnoresCase(ks[1..], a, b);
      var name := Content(ks[0].name);
      if name.Some? && SameLetters(name.value, a) {
        SpellingsMatch(name.value, a, b);
      } else if name.Some? && SameLetters(name.value, b) {
        SpellingsMatch(name.value, b, a);
      }
    }
  }

  lemma SpellingsMatch(x: seq<byte>, a: seq<byte>, b: seq<byte>)
    requires SameLetters(a, b) && SameLetters(x, a)
    ensures SameLetters(x, b)
  {
    forall i | 0 <= i < |x| ensures SameLetter(x[i], b[i]) {
      LowerMeansSameLetter(x[i], a[i]);
      LowerMeansSameLetter(a[i], b[i]);
      LowerMeansSameLetter(x[i], b[i]);
    }
  }

  /** Names match apart from case; a missing name matches only a missing name. */
  predicate SameName(a: Option<seq<byte>>, b: Option<seq<byte>>) {
    match (a, b)
    case (None, None) => true
    case (Some(x), Some(y)) => SameLetters(x, y)
    case _ => false
  }

  /** cJSON_strcasecmp: zero exactly when the names match. */
  method StrCaseCmp(p: array?<byte>, q: array?<byte>, ghost a: Str, ghost b: Str) returns (r: int)
    requires HoldsStr(p, a) && HoldsStr(q, b)
    ensures r == 0 <==> SameName(Content(a), Content(b))
  {
    if p == null {
      return if q == null then 0 else 1;
    }
    if q == null {
      return 1;
    }
    var i := 0;
    while ToLower(p[i]) == ToLower(q[i])
      invariant i <= |a.content| && i <= |b.content|
      invariant forall j :: 0 <= j < i ==> SameLetter(a.content[j], b.content[j])
      decreases |a.content| - i
    {
      LowerMeansSameLetter(p[i], q[i]);
      if p[i] == 0 {
        return 0;
      }
      i := i + 1;
    }
    LowerMeansSameLetter(p[i], q[i]);
    r := ToLower(p[i]) - ToLower(q[i]);
  }

  // ---------- looking up ----------

  /** The place of the first child with a matching name, or the number of children. */
  function FindName(ks: seq<Tree>, name: Option<seq<byte>>): (i: nat)
    ensures i <= |ks|
    ensures i < |ks| ==> SameName(Content(ks[i].name), name)
    ensures forall j :: 0 <= j < i ==> !SameName(Content(ks[j].name), name)
  {
    if ks == [] || SameName(Content(ks[0].name), name) then 0
    else
      assert forall j :: 0 < j < |ks| ==> ks[j] == ks[1..][j - 1];
      FindName(ks[1..], name) + 1
  }

  /** The place that an index argument selects: a negative one selects the first child. */
  function Place(which: int): nat {
    if which > 0 then which else 0
  }

  method GetArraySize(parent: Node, ghost ks: seq<Tree>) returns (n: nat)
    requires HasChildren(parent, ks)
    ensures n == |ks|
  {
    hide Holds, Blocks, Body, BlocksOf;
    n := 0;
    var c := parent.child;
    while c != null
      invariant n <= |ks| && c == RootAt(ks, n)
      decreases |ks| - n
    {
      n, c := n + 1, c.next;
    }
  }

  method GetArrayItem(parent: Node, item: int, ghost ks: seq<Tree>) returns (c: Node?)
    requires HasChildren(parent, ks)
    ensures c == RootAt(ks, if item < 0 then 0 else item)
  {
    hide Holds, Blocks, Body, BlocksOf;
    c := parent.child;
    ghost var i := 0;
    var n := item;
    while c != null && n > 0
      invariant i <= |ks| && c == RootAt(ks, i) && Place(item) == i + Place(n)
      decreases |ks| - i
    {
      n, c := n - 1, c.next;
      i := i + 1;
    }
  }

  /** The place of the first match, counted along the chain. */
  method FindItem(parent: Node, name: array?<byte>, ghost ks: seq<Tree>, ghost s: Str) returns (c: Node?, i: nat)
    requires HasChildren(parent, ks) && HoldsStr(name, s)
    ensures i == FindName(ks, Content(s)) && c == RootAt(ks, i)
  {
    hide Blocks, Body, BlocksOf, SameName, Holds, Linked, SeparateAll, OwnerAll, HoldsStr, RootAt;
    assert allocated(BlocksOf(ks)) && allocated(StrBlocks(s));
    ChildAt(ks, 0);
    i, c := 0, parent.child;
    while c != null
      invariant i <= |ks| && c == RootAt(ks, i)
      invariant forall j :: 0 <= j < i ==> !SameName(Content(ks[j].name), Content(s))
      decreases |ks| - i
    {
      ChildAt(ks, i);
      var r := StrCaseCmp(c.name, name, ks[i].name, s);
      if r == 0 {
        return;
      }
      i, c := i + 1, c.next;
    }
    ChildAt(ks, i);
  }

  lemma ChildAt(ks: seq<Tree>, i: nat)
    requires Linked(ks) && i <= |ks|
    ensures RootAt(ks, i) == null <==> i == |ks|
    ensures RootAt(ks, 0) == First(ks)
    ensures i < |ks| ==> RootAt(ks, i) == ks[i].root && ks[i].root.next == RootAt(ks, i + 1)
    ensures i < |ks| ==> HoldsStr(ks[i].root.name, ks[i].name)
  {
    LinkedUses(ks);
  }

  method GetObjectItem(parent: Node, name: array?<byte>, ghost ks: seq<Tree>, ghost s: Str) returns (c: Node?)
    requires HasChildren(parent, ks) && HoldsStr(name, s)
    ensures c == RootAt(ks, FindName(ks, Content(s)))
  {
    var i;
    c, i := FindItem(parent, name, ks, s);
  }

  // ---------- detaching ----------

  function Without<T>(s: seq<T>, i: nat): seq<T>
    requires i < |s|
  {
    s[..i] + s[i + 1..]
  }

  /** The next link of place `j` once place `i` has been taken out. */
  function NextAround(ks: seq<Tree>, i: nat, j: nat): Node? {
    if j + 1 == i then RootAt(ks, i + 1) else RootAt(ks, j + 1)
  }

  function PrevAround(ks: seq<Tree>, i: nat, j: nat): Node? {
    if j == i + 1 then RootAt(ks, i - 1) else RootAt(ks, j - 1)
  }

  /** The chain with one item left out of the links. */
  ghost predicate LinkedAround(ks: seq<Tree>, i: nat)
    reads Roots(ks)`next, Roots(ks)`prev
  {
    forall j :: 0 <= j < |ks| && j != i ==>
      ks[j].root.next == NextAround(ks, i, j) && ks[j].root.prev == PrevAround(ks, i, j)
  }

  lemma WithoutAt<T>(s: seq<T>, i: nat)
    requires i < |s|
    ensures |Without(s, i)| == |s| - 1
    ensures forall j :: 0 <= j < |s| - 1 ==> Without(s, i)[j] == s[if j < i then j else j + 1]
    ensures forall x | x in Without(s, i) :: x in s
  {
  }

  lemma LinksWithout(ks: seq<Tree>, i: nat)
    requires i < |ks| && LinkedAround(ks, i)
    ensures NextLinks(Without(ks, i)) && PrevLinks(Without(ks, i))
  {
    hide Without, RootAt;
    var rest := Without(ks, i);
    WithoutAt(ks, i);
    forall j | 0 <= j < |rest|
      ensures rest[j].root.next == RootAt(rest, j + 1) && rest[j].root.prev == RootAt(rest, j - 1)
    {
      RootWithout(ks, i, j + 1);
      RootWithout(ks, i, j - 1);
    }
  }

  /** What stands at a place once place `i` has been taken out. */
  lemma RootWithout(ks: seq<Tree>, i: nat, j: int)
    requires i < |ks|
    ensures RootAt(Without(ks, i), j) == RootAt(ks, if j < i then j else j + 1)
  {
  }

  lemma SeparateWithout(ks: seq<Tree>, i: nat)
    requires i < |ks| && SeparateAll(ks) && OwnerAll(ks)
    ensures SeparateAll(Without(ks, i)) && OwnerAll(Without(ks, i))
    ensures Separate(ks[i]) && Owner(ks[i])
    ensures BlocksOf(Without(ks, i)) + Blocks(ks[i]) == BlocksOf(ks) && BlocksOf(Without(ks, i)) !! Blocks(ks[i])
  {
    hide Blocks, Body, BlocksOf, Separate, Owner;
    WithoutAt(ks, i);
    SeparateUses(ks);
    BlocksOfAppend(ks[..i], ks[i + 1..]);
    BlocksOfStep(ks, i);
    BlocksOfAppend(ks[..i + 1], ks[i + 1..]);
    assert ks[..i + 1] + ks[i + 1..] == ks;
    ApartFromOthers(ks, i);
  }

  lemma ApartFromOthers(ks: seq<Tree>, i: nat)
    requires i < |ks| && SeparateAll(ks)
    ensures BlocksOf(Without(ks, i)) !! Blocks(ks[i])
  {
    hide Blocks, Body;
    WithoutAt(ks, i);
    SeparateUses(ks);
    var rest := Without(ks, i);
    hide Without;
    forall k | k in rest ensures Blocks(k) !! Blocks(ks[i]) {
      var j :| 0 <= j < |rest| && rest[j] == k;
    }
  }

  lemma LinkedWithout(ks: seq<Tree>, i: nat)
    requires i < |ks| && HoldsAll(ks) && LinkedAround(ks, i)
    ensures Linked(Without(ks, i)) && Holds(ks[i])
  {
    hide Holds, LinkedAround;
    LinksWithout(ks, i);
    WithoutAt(ks, i);
    assert ks[i] in ks;
  }

  /** Roots are no bodies, and they differ. */
  lemma AllRootsApart(ks: seq<Tree>)
    requires SeparateAll(ks)
    ensures forall i :: 0 <= i < |ks| ==> ks[i].root !in BodyOf(ks)
    ensures forall i, j :: 0 <= i < j < |ks| ==> ks[i].root != ks[j].root
    ensures Roots(ks) !! BodyOf(ks)
  {
    hide Blocks, Body, BodyOf, SeparateAll;
    forall i | 0 <= i < |ks| ensures ks[i].root !in BodyOf(ks) {
      RootApart(ks, i);
    }
    SeparateUses(ks);
    forall o | o in Roots(ks) ensures o !in BodyOf(ks) {
      var k :| k in ks && k.root == o;
      var i :| 0 <= i < |ks| && ks[i] == k;
    }
  }

  lemma UnlinkFacts(ks: seq<Tree>, i: nat)
    requires i < |ks| && NextLinks(ks) && PrevLinks(ks)
    requires forall j, k :: 0 <= j < k < |ks| ==> ks[j].root != ks[k].root
    ensures First(ks) == ks[i].root <==> i == 0
    ensures First(Without(ks, i)) == if i == 0 then RootAt(ks, 1) else First(ks)
    ensures ks[i].root.next == RootAt(ks, i + 1) && ks[i].root.prev == RootAt(ks, i - 1)
    ensures RootAt(ks, i - 1) == if i == 0 then null else ks[i - 1].root
    ensures RootAt(ks, i + 1) == if i + 1 == |ks| then null else ks[i + 1].root
    ensures forall j :: 0 <= j < |ks| && j + 1 != i ==> ks[j].root.next == NextAround(ks, i, j)
    ensures forall j :: 0 <= j < |ks| && j != i + 1 ==> ks[j].root.prev == PrevAround(ks, i, j)
  {
    WithoutAt(ks, i);
  }

  /** Takes `c` out of its chain: its neighbours are joined and its own links cleared. */
  method Unlink(parent: Node, c: Node, ghost ks: seq<Tree>, ghost i: nat)
    requires i < |ks| && c == ks[i].root && parent.child == First(ks)
    requires NextLinks(ks) && PrevLinks(ks)
    requires forall j, k :: 0 <= j < k < |ks| ==> ks[j].root != ks[k].root
    modifies parent`child, Roots(ks)`next, Roots(ks)`prev
    ensures LinkedAround(ks, i) && c.next == null && c.prev == null
    ensures parent.child == First(Without(ks, i))
  {
    hide RootAt;
    UnlinkFacts(ks, i);
    if c.prev != null {
      c.prev.next := c.next;
    }
    if c.next != null {
      c.next.prev := c.prev;
    }
    if c == parent.child {
      parent.child := c.next;
    }
    c.prev, c.next := null, null;
  }

  method DetachItemFromArray(parent: Node, which: int, ghost ks: seq<Tree>) returns (c: Node?)
    requires HasChildren(parent, ks)
    modifies parent`child, Roots(ks)`next, Roots(ks)`prev
    ensures var i := if which < 0 then 0 else which;
      && c == RootAt(ks, i)
      && (c == null ==> HasChildren(parent, ks))
      && (c != null ==> HasChildren(parent, Without(ks, i)) && Detached(ks[i]))
  {
    hide Holds, Blocks, Body, BlocksOf, BodyOf, HoldsAll, SeparateAll, OwnerAll, Linked, Without, LinkedAround,
         NextLinks, PrevLinks;
    assert allocated(BlocksOf(ks));
    c := GetArrayItem(parent, which, ks);
    if c != null {
      ghost var i := Place(which);
      AllRootsApart(ks);
      LinkedUses(ks);
      SeparateWithout(ks, i);
      RootsWithin(ks);
      BodiesWithin(ks);
      Unlink(parent, c, ks, i);
      LinkedWithout(ks, i);
    }
  }

  method DetachItemFromObject(parent: Node, name: array?<byte>, ghost ks: seq<Tree>, ghost s: Str) returns (c: Node?)
    requires HasChildren(parent, ks) && HoldsStr(name, s)
    modifies parent`child, Roots(ks)`next, Roots(ks)`prev
    ensures var i := FindName(ks, Content(s));
      && c == RootAt(ks, i)
      && (c == null ==> HasChildren(parent, ks))
      && (c != null ==> HasChildren(parent, Without(ks, i)) && Detached(ks[i]))
  {
    hide HasChildren, Holds, Separate, Owner, Blocks, Body;
    assert allocated(BlocksOf(ks));
    var i;
    c, i := FindItem(parent, name, ks, s);
    if c != null {
      c := DetachItemFromArray(parent, i, ks);
    }
  }

  /** Deletes the child at a place, if there is one: its blocks are freed, the rest of the chain is kept. */
  method DeleteItemFromArray(alloc: Allocator, parent: Node, which: int, ghost ks: seq<Tree>)
    requires HasChildren(parent, ks) && BlocksOf(ks) <= alloc.live
    modifies alloc, parent`child, BlocksOf(ks)
    ensures var i := if which < 0 then 0 else which;
      if i < |ks| then HasChildren(parent, Without(ks, i)) && alloc.live == old(alloc.live) - Blocks(ks[i])
      else HasChildren(parent, ks) && alloc.live == old(alloc.live)
  {
    hide Holds, Separate, Owner, Blocks, Body, BlocksOf, SeparateAll, OwnerAll, Linked, Without;
    ghost var i := Place(which);
    RootsWithin(ks);
    NotBlock(ks, alloc);
    if i < |ks| {
      SeparateWithout(ks, i);
    }
    var c := DetachItemFromArray(parent, which, ks);
    if c != null {
      CJsonDelete.DeleteTree(alloc, c, ks[i]);
    }
  }

  method DeleteItemFromObject(alloc: Allocator, parent: Node, name: array?<byte>, ghost ks: seq<Tree>, ghost s: Str)
    requires HasChildren(parent, ks) && HoldsStr(name, s) && BlocksOf(ks) <= alloc.live
    modifies alloc, parent`child, BlocksOf(ks)
    ensures var i := FindName(ks, Content(s));
      if i < |ks| then HasChildren(parent, Without(ks, i)) && alloc.live == old(alloc.live) - Blocks(ks[i])
      else HasChildren(parent, ks) && alloc.live == old(alloc.live)
  {
    hide Holds, Separate, Owner, Blocks, Body, BlocksOf, SeparateAll, OwnerAll, Linked, Without;
    ghost var i := FindName(ks, Content(s));
    RootsWithin(ks);
    NotBlock(ks, alloc);
    if i < |ks| {
      SeparateWithout(ks, i);
    }
    var c := DetachItemFromObject(parent, name, ks, s);
    if c != null {
      CJsonDelete.DeleteTree(alloc, c, ks[i]);
    }
  }

  // ---------- adding ----------

  /** Appends a detached item; without an item nothing happens.
      `added` is what joins the chain: one tree, or none. */
  method AddItemToArray(parent: Node, item: Node?, ghost ks: seq<Tree>, ghost added: seq<Tree>)
    requires HasChildren(parent, ks)
    requires if item == null then added == [] else |added| == 1 && item == added[0].root
    requires forall k | k in added :: Detached(k) && Blocks(k) !! BlocksOf(ks) && parent !in Blocks(k)
    modifies parent`child, Roots(ks)`next, Roots(added)`prev
    ensures HasChildren(parent, ks + added)
  {
    hide Holds, Separate, Owner, Blocks, Body, BlocksOf, SeparateAll, OwnerAll, Linked;
    var c := parent.child;
    if item == null {
      assert ks + added == ks;
      return;
    }
    ghost var k := added[0];
    assert added == [k] && k in added && Detached(k);
    OwnerAppend(ks, k);
    assert parent != item by {
      assert item in Blocks(k);
    }
    if c == null {
      LinkedOne(k);
      parent.child := item;
    } else {
      LinkedUses(ks);
      ghost var i := 0;
      while c != null && c.next != null
        invariant 0 <= i < |ks| && c == RootAt(ks, i)
        decreases |ks| - i
      {
        c := c.next;
        i := i + 1;
      }
      Link(c, item, ks, k);
    }
  }

  /** Gives the item a copy of a name, or none if it cannot be copied. */
  method SetName(alloc: Allocator, item: Node, name: array<byte>, ghost k: Tree, ghost s: seq<byte>)
    returns (ghost named: Tree)
    requires item == k.root && HoldsNameless(k) && Separate(k) && Owner(k) && HoldsText(name, s)
    requires k.Item? ==> item !in BlocksOf(k.kids)
    modifies alloc, item`name
    ensures named == k.(name := named.name) && Holds(named) && Separate(named) && Owner(named)
    ensures Blocks(named) == Blocks(k) - StrBlocks(k.name) + StrBlocks(named.name) && fresh(StrBlocks(named.name))
    ensures alloc.live == old(alloc.live) + StrBlocks(named.name) && alloc.failures >= old(alloc.failures)
    ensures Content(named.name) == if alloc.failures == old(alloc.failures) then Some(s) else None
  {
    hide Separate, Owner, Blocks, Body, BlocksOf, Linked, HoldsText, Holds;
    assert allocated(Blocks(k)) && (k.Item? ==> allocated(BlocksOf(k.kids)));
    NotAllocator(k, alloc);
    item.name := CStrings.StrDup(alloc, name, s);
    named := k.(name := if item.name == null then NoStr else Str(item.name, s));
    Renamed(k, named.name);
    RenamedHolds(k, named.name);
  }

  /** The name that the item had goes before the new one is copied: the new one is still there to be copied exactly
      if it is not the item's own. */
  method FreeOldName(alloc: Allocator, item: Node, name: array<byte>, ghost k: Tree)
    requires item == k.root && Holds(k) && Separate(k) && Blocks(k) <= alloc.live
    modifies alloc, StrBlocks(k.name)
    ensures alloc.live == old(alloc.live) - StrBlocks(k.name) && alloc.failures == old(alloc.failures)
    ensures old(name in alloc.live) ==> (name in alloc.live <==> name !in StrBlocks(k.name))
  {
    hide Separate, Blocks, Body, Linked;
    NotAllocator(k, alloc);
    RenameFacts(k);
    if item.name != null {
      alloc.FreeBytes(item.name);
    }
  }

  /** Names the item, freeing the name it had, and appends it.
      When the name cannot be copied the item is added without one. */
  method AddItemToObject(alloc: Allocator, parent: Node, name: array<byte>, item: Node?,
                         ghost ks: seq<Tree>, ghost k: Tree, ghost s: seq<byte>)
    returns (ghost named: Tree)
    requires HasChildren(parent, ks) && HoldsText(name, s)
    requires item != null ==>
      && item == k.root && Detached(k) && Blocks(k) !! BlocksOf(ks) && parent !in Blocks(k)
      && Blocks(k) <= alloc.live && name !in StrBlocks(k.name)
    modifies alloc, parent`child, Roots(ks)`next, k.root`prev, k.root`name, StrBlocks(k.name)
    ensures item == null ==> HasChildren(parent, ks) && alloc.live == old(alloc.live)
    ensures item != null ==> HasChildren(parent, ks + [named]) && named == k.(name := named.name)
    ensures item != null ==>
      Content(named.name) == (if alloc.failures == old(alloc.failures) then Some(s) else None)
    ensures item != null ==> alloc.live == old(alloc.live) - StrBlocks(k.name) + StrBlocks(named.name)
    ensures item != null ==> fresh(StrBlocks(named.name))
  {
    hide Holds, Separate, Owner, Blocks, Body, BlocksOf, SeparateAll, OwnerAll, Linked, HoldsText, HoldsNameless;
    assert allocated(BlocksOf(ks)) && allocated(Blocks(k)) && allocated(Body(k));
    NotBlock(ks, alloc);
    NotAllocator(k, alloc);
    named := k;
    if item == null {
      return;
    }
    RenameFacts(k);
    assert k.Item? ==> allocated(BlocksOf(k.kids));
    FreeOldName(alloc, item, name, k);
    named := SetName(alloc, item, name, k, s);
    assert named.root in Blocks(named);
    AddItemToArray(parent, item, ks, [named]);
  }

  // ---------- references ----------

  function SetReference(kind: int): (r: int)
    ensures IsReference(r) && r % 256 == kind % 256 && r in {kind, kind + 256}
  {
    NextReference(kind);
    if IsReference(kind) then kind else kind + REFERENCE
  }

  lemma NextReference(kind: int)
    ensures (kind + 256) % 256 == kind % 256 && (kind + 256) / 256 == kind / 256 + 1
  {
  }

  /** A new item that shares the payload of `item`: to its owner a reference with nothing of its own,
      to a reader the same payload under another root. */
  method CreateReference(alloc: Allocator, item: Node, ghost t: Tree) returns (ref: Node?, ghost r: Tree)
    requires item == t.root && t.Item? && Holds(t)
    modifies alloc
    ensures ref == null ==> alloc.live == old(alloc.live) && alloc.failures == old(alloc.failures) + 1
    ensures ref != null ==> alloc.live == old(alloc.live) + Blocks(r) && alloc.failures == old(alloc.failures)
    ensures ref != null ==> fresh(Blocks(r)) && r == Ref(ref, SetReference(t.kind), NoStr) && Detached(r)
    ensures ref != null ==> ref.child == item.child && ref.text == item.text
    ensures ref != null ==> Holds(Item(ref, SetReference(t.kind), t.number, t.text, NoStr, t.kids))
    ensures ref != null && Viewed(t) ==>
      var shown := Item(ref, SetReference(t.kind), t.number, t.text, NoStr, t.kids);
      Viewed(shown) && Value(shown) == Value(t)
    ensures Holds(t)
  {
    hide Blocks, Separate, Owner, Linked, HoldsText;
    assert allocated(Blocks(t)) && allocated(Body(t));
    NotAllocator(t, alloc);
    r := t;
    ref := alloc.NewItem();
    if ref == null {
      return;
    }
    ref.child, ref.kind, ref.text, ref.number := item.child, SetReference(item.kind), item.text, item.number;
    r := Ref(ref, SetReference(t.kind), NoStr);
    RefLeaf(r);
  }

  lemma RefLeaf(r: Tree)
    requires r.Ref?
    ensures Blocks(r) == {r.root} + StrBlocks(r.name) && Separate(r) && (Owner(r) <==> IsReference(r.kind))
  {
  }

  /** Adds a reference to an item that stays where it is.  If no reference can be made nothing is added. */
  method AddItemReferenceToArray(alloc: Allocator, parent: Node, item: Node, ghost ks: seq<Tree>, ghost t: Tree)
    returns (ghost r: seq<Tree>)
    requires HasChildren(parent, ks) && item == t.root && t.Item? && Holds(t)
    modifies alloc, parent`child, Roots(ks)`next
    ensures HasChildren(parent, ks + r) && fresh(BlocksOf(r)) && alloc.live == old(alloc.live) + BlocksOf(r)
    ensures r == [] <==> alloc.failures > old(alloc.failures)
    ensures r != [] ==> r == [Ref(r[0].root, SetReference(t.kind), NoStr)]
    ensures r != [] ==> r[0].root.child == old(item.child) && r[0].root.text == old(item.text)
  {
    hide Holds, Separate, Owner, Blocks, Body, BlocksOf, SeparateAll, OwnerAll, Linked, HoldsText;
    assert allocated(BlocksOf(ks)) && allocated(Blocks(t));
    NotBlock(ks, alloc);
    ghost var k;
    var ref;
    ref, k := CreateReference(alloc, item, t);
    r := if ref == null then [] else [k];
    NoKids();
    BlocksOfOne(k);
    assert ref != null ==> ref in Blocks(k);
    AddItemToArray(parent, ref, ks, r);
  }

  /** The same under a name, of which the reference gets its own copy, if there is memory for it. */
  method AddItemReferenceToObject(alloc: Allocator, parent: Node, name: array<byte>, item: Node,
                                  ghost ks: seq<Tree>, ghost t: Tree, ghost s: seq<byte>)
    returns (ghost r: seq<Tree>)
    requires HasChildren(parent, ks) && item == t.root && t.Item? && Holds(t) && HoldsText(name, s)
    modifies alloc, parent`child, Roots(ks)`next
    ensures HasChildren(parent, ks + r) && fresh(BlocksOf(r)) && alloc.live == old(alloc.live) + BlocksOf(r)
    ensures |r| <= 1 && (r != [] ==> r[0] == Ref(r[0].root, SetReference(t.kind), r[0].name))
    ensures r != [] ==> r[0].root.child == old(item.child) && r[0].root.text == old(item.text)
    ensures alloc.failures == old(alloc.failures) ==> r != [] && Content(r[0].name) == Some(s)
  {
    hide Holds, Separate, Owner, Blocks, Body, BlocksOf, SeparateAll, OwnerAll, Linked, HoldsText;
    assert allocated(BlocksOf(ks)) && allocated(Blocks(t)) && allocated(Body(t));
    NotBlock(ks, alloc);
    NoKids();
    ghost var k;
    var ref;
    ref, k := CreateReference(alloc, item, t);
    r := [];
    if ref == null {
      assert ks + r == ks;
      return;
    }
    RefLeaf(k);
    k := AddItemToObject(alloc, parent, name, ref, ks, k, s);
    RefLeaf(k);
    BlocksOfOne(k);
    r := [k];
  }

  /** A reference is added to an array, the array is deleted, and then the item that was referred to: the payload that
      the two shared for a while stays with its owner, and every block is freed once, the reference included. */
  method AddReferenceThenDeleteBoth(alloc: Allocator, holder: Node, item: Node, ghost h: Tree, ghost t: Tree)
    returns (ghost r: seq<Tree>)
    requires holder == h.root && h.Item? && Detached(h) && item == t.root && t.Item? && Detached(t)
    requires Blocks(h) !! Blocks(t) && Blocks(h) + Blocks(t) <= alloc.live
    modifies alloc, Blocks(h), Blocks(t)
    ensures alloc.live == old(alloc.live) - Blocks(h) - Blocks(t)
    ensures fresh(BlocksOf(r)) && BlocksOf(r) !! alloc.live && (r == [] <==> alloc.failures > old(alloc.failures))
  {
    hide Holds, Separate, Owner, Blocks, Body, BlocksOf, SeparateAll, OwnerAll, Linked;
    assert allocated(Blocks(h)) && allocated(Blocks(t));
    HolderFacts(h);
    NotAllocator(h, alloc);
    NotAllocator(t, alloc);
    r := AddItemReferenceToArray(alloc, holder, item, h.kids, t);
    ghost var grown := h.(kids := h.kids + r);
    BlocksOfAppend(h.kids, r);
    Grown(h, r);
    assert Blocks(grown) == Blocks(h) + BlocksOf(r);
    CJsonDelete.DeleteOneOfTwo(alloc, holder, grown, t);
    CJsonDelete.DeleteTree(alloc, item, t);
  }

  lemma HolderFacts(h: Tree)
    requires h.Item? && Holds(h) && Separate(h) && Owner(h)
    ensures HasChildren(h.root, h.kids) && BlocksOf(h.kids) <= Blocks(h)
    ensures Roots(h.kids) <= BlocksOf(h.kids)
    ensures h.root.kind == h.kind && h.root.number == h.number
    ensures HoldsStr(h.root.text, h.text) && HoldsStr(h.root.name, h.name)
    ensures StrBlocks(h.text) + StrBlocks(h.name) <= Blocks(h) - BlocksOf(h.kids) - {h.root}
  {
    RootsWithin(h.kids);
  }

  lemma Grown(h: Tree, r: seq<Tree>)
    requires h.Item? && Separate(h) && Owner(h) && HasChildren(h.root, h.kids + r)
    requires BlocksOf(h.kids + r) == BlocksOf(h.kids) + BlocksOf(r) && BlocksOf(r) !! Blocks(h)
    requires h.root.kind == h.kind && h.root.number == h.number
    requires HoldsStr(h.root.text, h.text) && HoldsStr(h.root.name, h.name)
    ensures var g := h.(kids := h.kids + r);
      Holds(g) && Separate(g) && Owner(g) && Blocks(g) == Blocks(h) + BlocksOf(r)
  {
    hide Linked, SeparateAll, BlocksOf;
  }

  // ---------- replacing ----------

  /** Puts `newitem` in the place of `c`: the links of `c` pass to it. */
  method Relink(parent: Node, c: Node, newitem: Node, ghost ks: seq<Tree>, ghost k: Tree, ghost i: nat)
    requires i < |ks| && c == ks[i].root && newitem == k.root && parent.child == First(ks)
    requires NextLinks(ks) && PrevLinks(ks)
    requires forall j, l :: 0 <= j < l < |ks| ==> ks[j].root != ks[l].root
    requires newitem !in Roots(ks)
    modifies parent`child, Roots(ks)`next, Roots(ks)`prev, newitem`next, newitem`prev
    ensures NextLinks(ks[i := k]) && PrevLinks(ks[i := k]) && c.next == null && c.prev == null
    ensures parent.child == First(ks[i := k])
  {
    hide RootAt, NextLinks, PrevLinks, First;
    RelinkFacts(ks, k, i);
    newitem.next := c.next;
    newitem.prev := c.prev;
    if newitem.next != null {
      newitem.next.prev := newitem;
    }
    if c == parent.child {
      parent.child := newitem;
    } else {
      newitem.prev.next := newitem;
    }
    c.next, c.prev := null, null;
    LinksByPlace(ks, k, i);
  }

  lemma RelinkFacts(ks: seq<Tree>, k: Tree, i: nat)
    requires i < |ks| && NextLinks(ks) && PrevLinks(ks)
    requires forall j, l :: 0 <= j < l < |ks| ==> ks[j].root != ks[l].root
    ensures First(ks) == ks[i].root <==> i == 0
    ensures First(ks[i := k]) == if i == 0 then k.root else First(ks)
    ensures ks[i].root.next == RootAt(ks, i + 1) && ks[i].root.prev == RootAt(ks, i - 1)
    ensures RootAt(ks, i - 1) == if i == 0 then null else ks[i - 1].root
    ensures RootAt(ks, i + 1) == if i + 1 == |ks| then null else ks[i + 1].root
    ensures RootAt(ks[i := k], i + 1) == RootAt(ks, i + 1) && RootAt(ks[i := k], i - 1) == RootAt(ks, i - 1)
    ensures RootAt(ks[i := k], i) == k.root
    ensures forall j :: 0 <= j < |ks| && j + 1 != i ==> ks[j].root.next == RootAt(ks[i := k], j + 1)
    ensures forall j :: 0 <= j < |ks| && j != i + 1 ==> ks[j].root.prev == RootAt(ks[i := k], j - 1)
  {
  }

  lemma LinksByPlace(ks: seq<Tree>, k: Tree, i: nat)
    requires i < |ks|
    requires k.root.next == RootAt(ks[i := k], i + 1) && k.root.prev == RootAt(ks[i := k], i - 1)
    requires forall j :: 0 <= j < |ks| && j != i ==> ks[j].root.next == RootAt(ks[i := k], j + 1)
    requires forall j :: 0 <= j < |ks| && j != i ==> ks[j].root.prev == RootAt(ks[i := k], j - 1)
    ensures NextLinks(ks[i := k]) && PrevLinks(ks[i := k])
  {
    hide RootAt;
    var all := ks[i := k];
    forall j | 0 <= j < |all|
      ensures all[j].root.next == RootAt(all, j + 1) && all[j].root.prev == RootAt(all, j - 1)
    {
      assert all[j] == if j == i then k else ks[j];
    }
  }

  lemma SeparateReplaced(ks: seq<Tree>, k: Tree, i: nat)
    requires i < |ks| && SeparateAll(ks) && OwnerAll(ks)
    requires Separate(k) && Owner(k) && Blocks(k) !! BlocksOf(ks)
    ensures SeparateAll(ks[i := k]) && OwnerAll(ks[i := k])
    ensures BlocksOf(ks[i := k]) == BlocksOf(Without(ks, i)) + Blocks(k)
    ensures BlocksOf(ks[i := k]) !! Blocks(ks[i])
  {
    hide Blocks, Body, BlocksOf, Separate, Owner;
    var all := ks[i := k];
    SeparateUses(ks);
    BlocksWithin(ks);
    SeparateWithout(ks, i);
    assert forall j :: 0 <= j < |all| ==> all[j] == if j == i then k else ks[j];
    assert forall x | x in all :: x in ks || x == k;
    ReplacedBlocks(ks, k, i);
  }

  lemma ReplacedBlocks(ks: seq<Tree>, k: Tree, i: nat)
    requires i < |ks|
    ensures BlocksOf(ks[i := k]) == BlocksOf(Without(ks, i)) + Blocks(k)
  {
    hide Blocks, Body, BlocksOf;
    var all := ks[i := k];
    assert all == all[..i] + [k] + all[i + 1..];
    assert all[..i] == ks[..i] && all[i + 1..] == ks[i + 1..];
    BlocksOfAppend(all[..i] + [k], all[i + 1..]);
    BlocksOfAppend(all[..i], [k]);
    BlocksOfOne(k);
    BlocksOfAppend(ks[..i], ks[i + 1..]);
  }

  /** Replaces the child at a place and deletes it; without such a child nothing happens. */
  method ReplaceItemInArray(alloc: Allocator, parent: Node, which: int, newitem: Node,
                            ghost ks: seq<Tree>, ghost k: Tree)
    requires HasChildren(parent, ks) && BlocksOf(ks) <= alloc.live
    requires newitem == k.root && Holds(k) && Separate(k) && Owner(k)
    requires Blocks(k) !! BlocksOf(ks) && parent !in Blocks(k)
    modifies alloc, parent`child, BlocksOf(ks), newitem`next, newitem`prev
    ensures alloc.failures == old(alloc.failures)
    ensures var i := if which < 0 then 0 else which;
      if i < |ks| then HasChildren(parent, ks[i := k]) && alloc.live == old(alloc.live) - Blocks(ks[i])
      else HasChildren(parent, ks) && alloc.live == old(alloc.live) && Holds(k)
  {
    hide Holds, HoldsAll, Separate, Owner, Blocks, Body, BlocksOf, BodyOf, SeparateAll, OwnerAll, Linked, Without,
            NextLinks, PrevLinks;
    assert allocated(BlocksOf(ks)) && allocated(BodyOf(ks)) && allocated(Blocks(k)) && allocated(Body(k));
    NotBlock(ks, alloc);
    NotAllocator(k, alloc);
    ghost var i := Place(which);
    var c := GetArrayItem(parent, which, ks);
    if c != null {
      ReplaceFacts(parent, ks, k, i);
      Relink(parent, c, newitem, ks, k, i);
      HoldsAllReplaced(ks, k, i);
      NotBlock(ks[i := k], alloc);
      assert HasChildren(parent, ks[i := k]);
      assert allocated(BlocksOf(ks[i := k]));
      CJsonDelete.DeleteTree(alloc, c, ks[i]);
      assert Linked(ks[i := k]);
      assert parent.child == First(ks[i := k]);
    }
  }

  lemma HoldsAllReplaced(ks: seq<Tree>, k: Tree, i: nat)
    requires i < |ks| && HoldsAll(ks) && Holds(k) && NextLinks(ks[i := k]) && PrevLinks(ks[i := k])
    ensures Linked(ks[i := k]) && Holds(ks[i])
  {
    hide Holds, NextLinks, PrevLinks;
    assert ks[i] in ks;
    assert forall x | x in ks[i := k] :: x in ks || x == k;
  }

  lemma ReplaceFacts(parent: Node, ks: seq<Tree>, k: Tree, i: nat)
    requires HasChildren(parent, ks) && i < |ks|
    requires Separate(k) && Owner(k) && Blocks(k) !! BlocksOf(ks) && parent !in Blocks(k)
    ensures HoldsAll(ks) && NextLinks(ks) && PrevLinks(ks)
    ensures forall j, l :: 0 <= j < l < |ks| ==> ks[j].root != ks[l].root
    ensures k.root !in Roots(ks) && k.root !in BodyOf(ks) && k.root !in Body(k) && k.root !in BlocksOf(ks)
    ensures Roots(ks) !! BodyOf(ks) && Roots(ks) !! Body(k) && Roots(ks) <= BlocksOf(ks)
    ensures parent !in Roots(ks) && parent !in BodyOf(ks) && parent !in Body(k) && parent != k.root
    ensures SeparateAll(ks[i := k]) && OwnerAll(ks[i := k]) && BlocksOf(ks[i := k]) !! Blocks(ks[i])
    ensures parent !in BlocksOf(ks[i := k]) && parent !in Blocks(ks[i])
    ensures Separate(ks[i]) && Owner(ks[i]) && Blocks(ks[i]) <= BlocksOf(ks)
  {
    hide Holds, HoldsAll, Separate, Owner, Blocks, Body, BlocksOf, BodyOf, SeparateAll, OwnerAll, Linked, Without;
    LinkedUses(ks);
    AllRootsApart(ks);
    RootsWithin(ks);
    BodiesWithin(ks);
    OwnBlocks(k);
    SeparateReplaced(ks, k, i);
    SeparateWithout(ks, i);
    assert k.root in Blocks(k) && Body(k) <= Blocks(k);
  }

  /** What belongs to somebody after a replacement, against what is still allocated of the blocks that took part:
      the difference is the name that the new item brought along. */
  lemma OldNameIsLost(ks: seq<Tree>, k: Tree, i: nat, named: Tree)
    requires i < |ks| && SeparateAll(ks) && OwnerAll(ks) && Separate(k) && Owner(k) && Blocks(k) !! BlocksOf(ks)
    requires named == k.(name := named.name) && StrBlocks(named.name) !! Blocks(k) + BlocksOf(ks)
    ensures var kept := BlocksOf(ks) + Blocks(k) + StrBlocks(named.name) - Blocks(ks[i]);
      && kept - BlocksOf(ks[i := named]) == StrBlocks(k.name) && BlocksOf(ks[i := named]) <= kept
      && (kept == BlocksOf(ks[i := named]) <==> k.name == NoStr)
  {
    hide Blocks, Body, BlocksOf, Separate, Owner, SeparateAll, OwnerAll;
    Renamed(k, named.name);
    NamedParts(k);
    SeparateWithout(ks, i);
    ReplacedBlocks(ks, named, i);
  }

  lemma NamedParts(k: Tree)
    requires Separate(k)
    ensures StrBlocks(k.name) <= Blocks(k) && (StrBlocks(k.name) == {} <==> k.name == NoStr)
  {
    if k.name.Str? {
      assert k.name.block in StrBlocks(k.name);
    }
  }

  /** Replaces the first child with a matching name.  The new item takes a copy of the name that was
      looked for; the name it brought along is dropped without being freed: of the blocks that took part,
      exactly that name stays allocated without an owner, if there was one. */
  method ReplaceItemInObject(alloc: Allocator, parent: Node, name: array<byte>, newitem: Node,
                             ghost ks: seq<Tree>, ghost k: Tree, ghost s: seq<byte>)
    returns (ghost named: Tree)
    requires HasChildren(parent, ks) && BlocksOf(ks) <= alloc.live
    requires newitem == k.root && Holds(k) && Separate(k) && Owner(k)
    requires Blocks(k) !! BlocksOf(ks) && parent !in Blocks(k) && HoldsText(name, s)
    modifies alloc, parent`child, BlocksOf(ks), newitem`next, newitem`prev, newitem`name
    ensures var i := FindName(ks, Some(s));
      if i < |ks| then
        && named == k.(name := named.name) && fresh(StrBlocks(named.name))
        && HasChildren(parent, ks[i := named])
        && alloc.live == old(alloc.live) + StrBlocks(named.name) - Blocks(ks[i])
        && Content(named.name) == (if alloc.failures == old(alloc.failures) then Some(s) else None)
        && (old(Blocks(k) <= alloc.live) ==>
              Orphans(alloc, ks, k, named, i) == StrBlocks(k.name)
              && (Orphans(alloc, ks, k, named, i) == {} <==> k.name == NoStr))
      else HasChildren(parent, ks) && named == k && Holds(k) && unchanged(newitem) && unchanged(alloc)
  {
    hide Holds, HoldsAll, Separate, Owner, Blocks, Body, BlocksOf, BodyOf, SeparateAll, OwnerAll, Linked, HoldsText,
         Orphans;
    assert allocated(BlocksOf(ks)) && allocated(Blocks(k)) && allocated(Body(k));
    NotBlock(ks, alloc);
    NotAllocator(k, alloc);
    named := k;
    var c, i := FindItem(parent, name, ks, Str(name, s));
    if c == null {
      return;
    }
    RenameFacts(k);
    named := SetName(alloc, newitem, name, k, s);
    OldNameIsLost(ks, k, i, named);
    NamedParts(k);
    ReplaceItemInArray(alloc, parent, i, newitem, ks, named);
    OrphansAre(alloc, ks, k, named, i, old(alloc.live));
  }

  /** The blocks of the old children, of the new item and of its new name that are allocated and in no child. */
  ghost function Orphans(alloc: Allocator, ks: seq<Tree>, k: Tree, named: Tree, i: nat): set<object>
    requires i < |ks|
    reads alloc
  {
    alloc.live * (BlocksOf(ks) + Blocks(k) + StrBlocks(named.name)) - BlocksOf(ks[i := named])
  }

  lemma OrphansAre(alloc: Allocator, ks: seq<Tree>, k: Tree, named: Tree, i: nat, before: set<object>)
    requires i < |ks| && alloc.live == before + StrBlocks(named.name) - Blocks(ks[i])
    requires BlocksOf(ks) <= before
    requires BlocksOf(ks) + Blocks(k) + StrBlocks(named.name) - Blocks(ks[i]) - BlocksOf(ks[i := named])
          == StrBlocks(k.name)
    ensures Blocks(k) <= before ==> Orphans(alloc, ks, k, named, i) == StrBlocks(k.name)
  {
    hide Blocks, BlocksOf;
  }
}
