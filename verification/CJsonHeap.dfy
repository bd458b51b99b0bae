/** The heap of cJSON: items chained by pointers, their strings, and the allocator they come from.

    A ghost `Tree` describes a piece of that heap completely: which blocks it is made of and what
    they hold.  `Holds` says that the heap agrees with it; everything else is a function of the tree. */
module CJsonHeap {
  import opened Bytes
  import opened JsonText

  const FALSE_KIND := 0
  const TRUE_KIND := 1
  const NULL_KIND := 2
  const NUMBER_KIND := 3
  const STRING_KIND := 4
  const ARRAY_KIND := 5
  const OBJECT_KIND := 6
  const REFERENCE := 256

  /** The source's `cJSON` struct.  `kind`, `text`, `number` and `name` are its fields
      `type`, `valuestring`, `valueint` and `string`. */
  class Node {
    var next: Node?
    var prev: Node?
    var child: Node?
    var kind: int
    var text: array?<byte>
    var number: int32
    var name: array?<byte>

    constructor Zeroed()
      ensures IsZeroed()
    {
      next, prev, child, kind, text, number, name := null, null, null, 0, null, 0, null;
    }

    predicate IsZeroed()
      reads this
    {
      next == null && prev == null && child == null && kind == 0 && text == null && number == 0 && name == null
    }
  }

  /** malloc and free.  Any allocation may fail.  A freed block keeps no promise about its content. */
  class Allocator {
    ghost var live: set<object>
    ghost var failures: nat

    method NewItem() returns (n: Node?)
      modifies this
      ensures n == null ==> live == old(live) && failures == old(failures) + 1
      ensures n != null ==> fresh(n) && n.IsZeroed() && live == old(live) + {n} && failures == old(failures)
    {
      if * {
        n := null;
        failures := failures + 1;
      } else {
        n := new Node.Zeroed();
        live := live + {n};
      }
    }

    method NewBytes(size: nat) returns (p: array?<byte>)
      modifies this
      ensures p == null ==> live == old(live) && failures == old(failures) + 1
      ensures p != null ==> fresh(p) && p.Length == size && live == old(live) + {p} && failures == old(failures)
    {
      if * {
        p := null;
        failures := failures + 1;
      } else {
        p := new byte[size];
        live := live + {p};
      }
    }

    /** A table of string pointers, already cleared. */
    method NewTable(size: nat) returns (p: array?<array?<byte>>)
      modifies this
      ensures p == null ==> live == old(live) && failures == old(failures) + 1
      ensures p != null ==> fresh(p) && p.Length == size && live == old(live) + {p} && failures == old(failures)
      ensures p != null ==> forall i :: 0 <= i < size ==> p[i] == null
    {
      if * {
        p := null;
        failures := failures + 1;
      } else {
        p := new array?<byte>[size](_ => null);
        live := live + {p};
      }
    }

    method FreeItem(n: Node)
      requires n in live
      modifies this, n
      ensures live == old(live) - {n} && failures == old(failures)
    {
      live := live - {n};
    }

    method FreeBytes(p: array<byte>)
      requires p in live
      modifies this, p
      ensures live == old(live) - {p} && failures == old(failures)
    {
      live := live - {p};
    }

    method FreeTable(p: array<array?<byte>>)
      requires p in live
      modifies this, p
      ensures live == old(live) - {p} && failures == old(failures)
    {
      live := live - {p};
    }
  }

  // ---------- strings ----------

  /** A string pointer and what it points at. */
  datatype Str = NoStr | Str(block: array<byte>, content: seq<byte>)

  ghost predicate HoldsText(p: array<byte>, s: seq<byte>)
    reads p
  {
    |s| < p.Length && (forall i :: 0 <= i < |s| ==> p[i] == s[i]) && p[|s|] == 0 && NulFree(s)
  }

  ghost predicate HoldsStr(q: array?<byte>, b: Str)
    reads StrBlocks(b)
  {
    match b
    case NoStr => q == null
    case Str(p, s) => q == p && HoldsText(p, s)
  }

  ghost function StrBlocks(b: Str): set<object> {
    match b
    case NoStr => {}
    case Str(p, _) => {p}
  }

  function Content(b: Str): Option<seq<byte>> {
    match b
    case NoStr => None
    case Str(_, s) => Some(s)
  }

  // ---------- trees ----------

  /** Item: an item with its payload.  Ref: a reference item as its owner sees it,
      whose payload belongs to another tree. */
  datatype Tree =
    | Item(root: Node, kind: int, number: int32, text: Str, name: Str, kids: seq<Tree>)
    | Ref(root: Node, kind: int, name: Str)

  predicate IsReference(kind: int) {
    kind / REFERENCE % 2 == 1
  }

  /** All blocks of a tree: its root and its body. */
  ghost function Blocks(t: Tree): (b: set<object>)
    ensures t.root in b && Body(t) <= b
    decreases t, 2
  {
    {t.root} + Body(t)
  }

  ghost function Body(t: Tree): set<object>
    decreases t, 1
  {
    match t
    case Item(_, _, _, text, name, kids) => StrBlocks(text) + StrBlocks(name) + BlocksOf(kids)
    case Ref(_, _, name) => StrBlocks(name)
  }

  ghost function BlocksOf(ks: seq<Tree>): set<object>
    decreases ks, 0
  {
    set k, o | k in ks && o in Blocks(k) :: o
  }

  ghost function BodyOf(ks: seq<Tree>): set<object> {
    set k, o | k in ks && o in Body(k) :: o
  }

  function First(ks: seq<Tree>): Node? {
    if ks == [] then null else ks[0].root
  }

  function Last(ks: seq<Tree>): Node? {
    if ks == [] then null else ks[|ks| - 1].root
  }

  ghost function Roots(ks: seq<Tree>): set<Node> {
    set k | k in ks :: k.root
  }

  /** The item at place `i` of a chain, or none. */
  function RootAt(ks: seq<Tree>, i: int): Node? {
    if 0 <= i < |ks| then ks[i].root else null
  }

  /** Each item points at the next one, and the last at none. */
  ghost predicate NextLinks(ks: seq<Tree>)
    reads Roots(ks)`next
  {
    forall i :: 0 <= i < |ks| ==> ks[i].root.next == RootAt(ks, i + 1)
  }

  /** Each item points back at the one before it, and the first at none. */
  ghost predicate PrevLinks(ks: seq<Tree>)
    reads Roots(ks)`prev
  {
    forall i :: 0 <= i < |ks| ==> ks[i].root.prev == RootAt(ks, i - 1)
  }

  /** The fields of the root, its own links apart. */
  ghost predicate HoldsRoot(t: Tree)
    reads t.root`kind, t.root`number, t.root`text, t.root`name, t.root`child
    reads StrBlocks(t.name), if t.Item? then StrBlocks(t.text) else {}
  {
    && t.root.kind == t.kind && HoldsStr(t.root.name, t.name)
    && match t
       case Ref(_, kind, _) => IsReference(kind)
       case Item(root, _, number, text, _, kids) =>
         root.number == number && HoldsStr(root.text, text) && root.child == First(kids)
  }

  /** The heap holds what the tree says, from its root down.  The root's own links are left open. */
  ghost predicate Holds(t: Tree)
    reads t.root`kind, t.root`number, t.root`text, t.root`name, t.root`child, Body(t)
    decreases t, 0
  {
    HoldsRoot(t) && (t.Item? ==> Linked(t.kids))
  }

  ghost predicate HoldsAll(ks: seq<Tree>)
    reads Roots(ks)`kind, Roots(ks)`number, Roots(ks)`text, Roots(ks)`name, Roots(ks)`child, BodyOf(ks)
    decreases ks, 1
  {
    forall k | k in ks :: Holds(k)
  }

  /** A chain of items in the heap: linked both ways, with open ends. */
  ghost predicate Linked(ks: seq<Tree>)
    reads BlocksOf(ks)
    decreases ks, 2
  {
    RootsWithin(ks);
    BodiesWithin(ks);
    HoldsAll(ks) && NextLinks(ks) && PrevLinks(ks)
  }

  /** No block is used twice. */
  ghost predicate Separate(t: Tree) {
    match t
    case Ref(root, _, name) => true
    case Item(root, _, _, text, name, kids) =>
      && root !in BlocksOf(kids)
      && StrBlocks(text) !! StrBlocks(name)
      && StrBlocks(text) !! BlocksOf(kids)
      && StrBlocks(name) !! BlocksOf(kids)
      && SeparateAll(kids)
  }

  ghost predicate SeparateAll(ks: seq<Tree>) {
    && (forall k | k in ks :: Separate(k))
    && (forall i, j :: 0 <= i < j < |ks| ==> Blocks(ks[i]) !! Blocks(ks[j]))
  }

  /** The tree as its owner sees it: payloads of references are not part of it. */
  ghost predicate Owner(t: Tree) {
    match t
    case Ref(_, kind, _) => IsReference(kind)
    case Item(_, kind, _, _, _, kids) => !IsReference(kind) && forall k | k in kids :: Owner(k)
  }

  ghost predicate OwnerAll(ks: seq<Tree>) {
    forall k | k in ks :: Owner(k)
  }

  /** The tree as a reader sees it: every payload can be followed. */
  ghost predicate Viewed(t: Tree) {
    t.Item? && forall k | k in t.kids :: Viewed(k)
  }

  ghost predicate ViewedAll(ks: seq<Tree>) {
    forall k | k in ks :: Viewed(k)
  }

  /** The value that an item stands for. */
  ghost function Value(t: Tree): Json
    requires Viewed(t)
    decreases t, 1
  {
    var tag := t.kind % 256;
    if tag == NULL_KIND then Null
    else if tag == FALSE_KIND then False
    else if tag == TRUE_KIND then True
    else if tag == NUMBER_KIND then Number(t.number)
    else if tag == STRING_KIND then String(Content(t.text))
    else if tag == ARRAY_KIND then Array(Values(t.kids))
    else if tag == OBJECT_KIND then Object(Members(t.kids))
    else Unknown
  }

  /** The type numbers of the source, and the bit that marks a reference. */
  lemma ValueByType(t: Tree)
    requires Viewed(t)
    ensures t.kind % 256 == 0 ==> Value(t) == False
    ensures t.kind % 256 == 1 ==> Value(t) == True
    ensures t.kind % 256 == 2 ==> Value(t) == Null
    ensures t.kind % 256 == 3 ==> Value(t) == Number(t.number)
    ensures t.kind % 256 == 4 ==> Value(t) == String(Content(t.text))
    ensures t.kind % 256 == 5 ==> Value(t) == Array(Values(t.kids))
    ensures t.kind % 256 == 6 ==> Value(t) == Object(Members(t.kids))
    ensures t.kind % 256 > 6 ==> Value(t) == Unknown
    ensures IsReference(t.kind) <==> t.kind / 256 % 2 == 1
  {
  }

  /** Children are read in order, each with its name. */
  lemma {:induction false} ValuesInOrder(ks: seq<Tree>, i: nat)
    requires ViewedAll(ks) && i < |ks|
    ensures |Values(ks)| == |Members(ks)| == |ks|
    ensures Values(ks)[i] == Value(ks[i]) && Members(ks)[i] == Member(Content(ks[i].name), Value(ks[i]))
  {
    hide Value, Viewed;
    if i > 0 {
      ValuesInOrder(ks[1..], i - 1);
    }
  }

  ghost function Values(ks: seq<Tree>): (vs: seq<Json>)
    requires ViewedAll(ks)
    ensures |vs| == |ks|
    decreases ks, 0
  {
    if ks == [] then [] else [Value(ks[0])] + Values(ks[1..])
  }

  ghost function Members(ks: seq<Tree>): (ms: seq<Member>)
    requires ViewedAll(ks)
    ensures |ms| == |ks|
    decreases ks, 0
  {
    if ks == [] then [] else [Member(Content(ks[0].name), Value(ks[0]))] + Members(ks[1..])
  }

  /** A tree in its owner's hands, linked to nothing: what a caller may keep, add or delete. */
  ghost predicate Detached(t: Tree)
    reads Blocks(t)
  {
    Holds(t) && Separate(t) && Owner(t) && t.root.next == null && t.root.prev == null
  }

  // ---------- links ----------

  /** suffix_object: `item` becomes the successor of `prev`, the last of a chain. */
  method Link(prev: Node, item: Node, ghost ks: seq<Tree>, ghost k: Tree)
    requires ks != [] && prev == Last(ks) && item == k.root
    requires Linked(ks) && SeparateAll(ks)
    requires Holds(k) && Separate(k) && BlocksOf(ks) !! Blocks(k)
    requires item.next == null
    modifies prev`next, item`prev
    ensures Linked(ks + [k]) && SeparateAll(ks + [k])
  {
    hide Blocks, Body, BlocksOf, BodyOf, SeparateAll, Separate, Holds, HoldsAll, NextLinks, PrevLinks, RootAt;
    SeparateAppend(ks, k);
    NextLinksUse(ks, k);
    LinkApart(ks, k);
    prev.next := item;
    item.prev := prev;
    HoldsAllAppend(ks, k);
    LinksAppend(ks, k);
  }

  // ---------- facts about blocks ----------

  lemma NoKids()
    ensures BlocksOf([]) == {} && Linked([]) && SeparateAll([]) && OwnerAll([])
  {
    NoBlocks([]);
  }

  /** A tree without children. */
  lemma Leaf(t: Tree)
    requires t.Item? && t.kids == []
    ensures Blocks(t) == {t.root} + StrBlocks(t.text) + StrBlocks(t.name)
    ensures Separate(t) <==> StrBlocks(t.text) !! StrBlocks(t.name)
    ensures Owner(t) <==> !IsReference(t.kind)
    ensures Holds(t) <==> HoldsRoot(t)
  {
    NoKids();
  }

  /** A fresh item whose strings are in place is a tree without children. */
  lemma LeafHolds(t: Tree)
    requires t.Item? && t.kids == [] && !IsReference(t.kind)
    requires t.root.kind == t.kind && t.root.number == t.number && t.root.child == null
    requires HoldsStr(t.root.text, t.text) && HoldsStr(t.root.name, t.name)
    requires StrBlocks(t.text) !! StrBlocks(t.name)
    ensures Holds(t) && Separate(t) && Owner(t)
    ensures Blocks(t) == {t.root} + StrBlocks(t.text) + StrBlocks(t.name)
  {
    hide HoldsStr;
    Leaf(t);
  }

  /** The strings of an item that a tree describes. */
  lemma HoldsStrings(t: Tree)
    requires Holds(t) && t.Item?
    ensures HoldsStr(t.root.text, t.text) && HoldsStr(t.root.name, t.name)
    ensures t.root.kind == t.kind && t.root.number == t.number && t.root.child == First(t.kids)
    ensures StrBlocks(t.text) <= Blocks(t) && StrBlocks(t.name) <= Blocks(t)
  {
  }

  /** The child at place `i` of a tree in the heap. */
  lemma KidAt(t: Tree, i: nat)
    requires Holds(t) && Viewed(t) && i <= |t.kids|
    ensures t.root.child == RootAt(t.kids, 0)
    ensures RootAt(t.kids, i) == null <==> i == |t.kids|
    ensures i < |t.kids| ==> RootAt(t.kids, i) == t.kids[i].root && Holds(t.kids[i]) && Viewed(t.kids[i])
    ensures i < |t.kids| ==> t.kids[i].root.next == RootAt(t.kids, i + 1)
    ensures i < |t.kids| ==> Blocks(t.kids[i]) <= Blocks(t)
  {
    LinkedUses(t.kids);
    BlocksWithin(t.kids);
  }

  lemma LinkedOne(k: Tree)
    requires Holds(k) && Separate(k) && k.root.next == null && k.root.prev == null
    ensures Linked([k]) && SeparateAll([k]) && BlocksOf([k]) == Blocks(k)
  {
    hide Holds, Separate, Blocks, Body;
    BlocksOfOne(k);
  }

  lemma OwnerAppend(ks: seq<Tree>, k: Tree)
    requires OwnerAll(ks) && Owner(k)
    ensures OwnerAll(ks + [k]) && BlocksOf(ks + [k]) == BlocksOf(ks) + Blocks(k)
    ensures Last(ks + [k]) == k.root && First(ks + [k]) == if ks == [] then k.root else First(ks)
    ensures ks == [] ==> ks + [k] == [k]
  {
    hide Blocks, Body, BlocksOf, Owner;
    BlocksOfAppend(ks, [k]);
    BlocksOfOne(k);
  }

  /** Hanging a chain of children under a childless item. */
  lemma GrowItem(t: Tree, ks: seq<Tree>)
    requires t.Item? && t.kids == [] && Separate(t) && Owner(t)
    requires t.root.kind == t.kind && t.root.number == t.number && t.root.child == First(ks)
    requires HoldsStr(t.root.text, t.text) && HoldsStr(t.root.name, t.name)
    requires Linked(ks) && SeparateAll(ks) && OwnerAll(ks)
    requires Blocks(t) !! BlocksOf(ks)
    ensures var g := t.(kids := ks);
      Holds(g) && Separate(g) && Owner(g) && Blocks(g) == Blocks(t) + BlocksOf(ks)
  {
    hide Linked, SeparateAll, HoldsStr;
    Leaf(t);
  }

  lemma NoStrHolds()
    ensures HoldsStr(null, NoStr)
  {
  }

  /** Everything that Holds says but the name. */
  ghost predicate HoldsNameless(t: Tree)
    reads t.root`kind, t.root`number, t.root`text, t.root`child
    reads if t.Item? then StrBlocks(t.text) + BlocksOf(t.kids) else {}
  {
    && t.root.kind == t.kind
    && match t
       case Ref(_, kind, _) => IsReference(kind)
       case Item(root, _, number, text, _, kids) =>
         root.number == number && HoldsStr(root.text, text) && root.child == First(kids) && Linked(kids)
  }

  lemma RenameFacts(t: Tree)
    requires Holds(t) && Separate(t)
    ensures HoldsNameless(t) && HoldsStr(t.root.name, t.name) && StrBlocks(t.name) <= Blocks(t)
    ensures t.Item? ==> StrBlocks(t.name) !! BlocksOf(t.kids) && StrBlocks(t.name) !! StrBlocks(t.text)
    ensures t.Item? ==> t.root !in BlocksOf(t.kids)
  {
    hide HoldsStr, Linked;
  }

  lemma RenamedHolds(t: Tree, name: Str)
    requires HoldsStr(t.root.name, name) && HoldsNameless(t)
    ensures Holds(t.(name := name))
  {
    hide HoldsStr, Linked;
  }

  /** A tree under another name: only the name's block changes hands. */
  lemma Renamed(t: Tree, name: Str)
    requires Separate(t) && Owner(t) && StrBlocks(name) !! Blocks(t)
    ensures var r := t.(name := name);
      && Separate(r) && Owner(r)
      && Blocks(r) == Blocks(t) - StrBlocks(t.name) + StrBlocks(name)
  {
  }

  /** The allocator is no block. */
  lemma {:induction false} NotAllocator(t: Tree, alloc: Allocator)
    ensures alloc !in Blocks(t)
    ensures t.Item? ==> alloc !in BlocksOf(t.kids)
    decreases t
  {
    if t.Item? {
      forall k | k in t.kids ensures alloc !in Blocks(k) {
        NotAllocator(k, alloc);
      }
      assert alloc !in BlocksOf(t.kids);
    }
    assert alloc !in Body(t);
  }

  lemma NotBlock(ks: seq<Tree>, alloc: Allocator)
    ensures alloc !in BlocksOf(ks)
  {
    forall k | k in ks ensures alloc !in Blocks(k) {
      NotAllocator(k, alloc);
    }
  }

  lemma RootsWithin(ks: seq<Tree>)
    ensures forall k | k in ks :: k.root in BlocksOf(ks)
    ensures Roots(ks) <= BlocksOf(ks)
  {
    forall k | k in ks ensures k.root in BlocksOf(ks) {
      assert k.root in Blocks(k);
    }
  }

  lemma BodiesWithin(ks: seq<Tree>)
    ensures BodyOf(ks) <= BlocksOf(ks)
  {
    forall k | k in ks ensures Body(k) <= BlocksOf(ks) {
      InBody(k);
    }
  }

  lemma InBody(t: Tree)
    ensures Body(t) <= Blocks(t)
  {
  }

  lemma LinkedUses(ks: seq<Tree>)
    requires Linked(ks)
    ensures HoldsAll(ks) && NextLinks(ks) && PrevLinks(ks)
    ensures forall i :: 0 <= i < |ks| ==> Holds(ks[i])
    ensures forall i :: 0 <= i < |ks| ==> ks[i].root.next == RootAt(ks, i + 1)
    ensures forall i :: 0 <= i < |ks| ==> ks[i].root.prev == RootAt(ks, i - 1)
  {
    assert forall i :: 0 <= i < |ks| ==> ks[i] in ks;
  }

  /** A root lies in no body, its own or another's. */
  lemma RootApart(ks: seq<Tree>, i: nat)
    requires SeparateAll(ks) && i < |ks|
    ensures ks[i].root !in BodyOf(ks)
    ensures forall j :: 0 <= j < |ks| && j != i ==> ks[i].root != ks[j].root
  {
    hide Blocks, Body;
    SeparateUses(ks);
    OwnBlocks(ks[i]);
    forall j | 0 <= j < |ks| ensures ks[i].root !in Body(ks[j]) {
      assert ks[i].root in Blocks(ks[i]) && Body(ks[j]) <= Blocks(ks[j]);
    }
  }

  /** What Link may not reach: the bodies of all trees, and the links of the others. */
  lemma LinkApart(ks: seq<Tree>, k: Tree)
    requires ks != [] && SeparateAll(ks + [k])
    ensures var last := ks[|ks| - 1].root;
      && last !in BodyOf(ks) && k.root !in BodyOf(ks) && last !in Body(k) && k.root !in Body(k)
      && k.root !in Roots(ks) && last != k.root
      && forall i :: 0 <= i < |ks| - 1 ==> ks[i].root != last
  {
    hide Blocks, Body, BodyOf, SeparateAll;
    var n := |ks|;
    assert (ks + [k])[n] == k && (ks + [k])[n - 1] == ks[n - 1];
    RootApart(ks + [k], n);
    RootApart(ks + [k], n - 1);
    BodiesAppend(ks, k);
    assert forall i :: 0 <= i < n ==> (ks + [k])[i] == ks[i];
  }

  lemma BodiesAppend(ks: seq<Tree>, k: Tree)
    ensures BodyOf(ks + [k]) == BodyOf(ks) + Body(k) && Roots(ks + [k]) == Roots(ks) + {k.root}
  {
    assert k in ks + [k];
  }

  lemma HoldsAllAppend(ks: seq<Tree>, k: Tree)
    requires HoldsAll(ks) && Holds(k)
    ensures HoldsAll(ks + [k])
  {
    hide Holds;
  }

  lemma NextLinksUse(ks: seq<Tree>, k: Tree)
    requires NextLinks(ks)
    ensures forall i :: 0 <= i < |ks| - 1 ==> ks[i].root.next == RootAt(ks + [k], i + 1)
    ensures RootAt(ks + [k], |ks|) == k.root
  {
  }

  lemma LinksAppend(ks: seq<Tree>, k: Tree)
    requires ks != [] && PrevLinks(ks) && k.root.prev == Last(ks) && k.root.next == null
    requires forall i :: 0 <= i < |ks| ==> ks[i].root.next == RootAt(ks + [k], i + 1)
    ensures NextLinks(ks + [k]) && PrevLinks(ks + [k])
  {
    var all := ks + [k];
    forall i | 0 <= i < |all|
      ensures all[i].root.next == RootAt(all, i + 1) && all[i].root.prev == RootAt(all, i - 1)
    {
      assert all[i] == if i < |ks| then ks[i] else k;
    }
  }

  /** The root of a separate tree is not among the blocks below it. */
  lemma OwnBlocks(t: Tree)
    requires Separate(t)
    ensures t.root !in Body(t)
    ensures t.Item? ==> t.root !in BlocksOf(t.kids) && BlocksOf(t.kids) <= Blocks(t)
    ensures t.Item? ==> StrBlocks(t.text) <= Blocks(t)
    ensures StrBlocks(t.name) <= Blocks(t)
  {
  }

  lemma SeparateUses(ks: seq<Tree>)
    requires SeparateAll(ks)
    ensures forall i :: 0 <= i < |ks| ==> Separate(ks[i])
    ensures forall i, j :: 0 <= i < j < |ks| ==> Blocks(ks[i]) !! Blocks(ks[j])
    ensures forall i, j :: 0 <= i < j < |ks| ==> ks[i].root != ks[j].root
  {
    hide Blocks, Body, Separate;
    forall i, j | 0 <= i < j < |ks| ensures ks[i].root != ks[j].root {
      assert ks[i].root in Blocks(ks[i]) && ks[j].root in Blocks(ks[j]);
    }
  }

  lemma SeparateAppend(ks: seq<Tree>, k: Tree)
    requires SeparateAll(ks) && Separate(k) && BlocksOf(ks) !! Blocks(k)
    ensures SeparateAll(ks + [k])
  {
    hide Blocks, Body, BlocksOf, Separate;
    BlocksWithin(ks);
    var all := ks + [k];
    forall x | x in all ensures Separate(x) {
      assert x in ks || x == k;
    }
    forall i, j | 0 <= i < j < |all| ensures Blocks(all[i]) !! Blocks(all[j]) {
      assert all[i] == ks[i];
      if j < |ks| {
        assert all[j] == ks[j];
      } else {
        assert Blocks(ks[i]) <= BlocksOf(ks);
      }
    }
  }

  lemma BlocksOfAppend(a: seq<Tree>, b: seq<Tree>)
    ensures BlocksOf(a + b) == BlocksOf(a) + BlocksOf(b)
  {
  }

  lemma BlocksOfStep(ks: seq<Tree>, i: nat)
    requires i < |ks|
    ensures BlocksOf(ks[..i + 1]) == BlocksOf(ks[..i]) + Blocks(ks[i])
  {
    assert ks[..i + 1] == ks[..i] + [ks[i]];
    BlocksOfAppend(ks[..i], [ks[i]]);
    BlocksOfOne(ks[i]);
  }

  lemma SeparateStep(ks: seq<Tree>, i: nat)
    requires SeparateAll(ks) && i < |ks|
    ensures Separate(ks[i]) && Blocks(ks[i]) !! BlocksOf(ks[..i])
    ensures forall j :: i < j < |ks| ==> Blocks(ks[i]) !! Blocks(ks[j]) && ks[j].root !in Blocks(ks[i])
  {
    forall j | i < j < |ks| ensures ks[j].root !in Blocks(ks[i]) {
      assert ks[j].root in Blocks(ks[j]);
    }
  }

  lemma NoBlocks(ks: seq<Tree>)
    requires ks == []
    ensures BlocksOf(ks) == {}
  {
  }

  lemma BlocksOfOne(t: Tree)
    ensures BlocksOf([t]) == Blocks(t)
  {
    assert t in [t];
  }

  lemma BlocksWithin(ks: seq<Tree>)
    ensures forall i :: 0 <= i < |ks| ==> Blocks(ks[i]) <= BlocksOf(ks)
  {
  }
}
