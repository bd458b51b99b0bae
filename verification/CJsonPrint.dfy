/** print_value, print_array and print_object: from a tree of items to its text. */
module CJsonPrint {
  import opened Bytes
  import opened JsonText
  import opened CJsonHeap
  import opened CJsonTables
  import opened CJsonRoom
  import CStrings
  import JsonLaws
  import JsonRoundTrip
  import Scalar = CJsonPrintScalar

  // ---------- the text of a list, entry by entry ----------

  /** The entries hold the texts of the items. */
  ghost predicate ItemTexts(es: seq<Str>, items: seq<Json>, depth: nat, fmt: bool) {
    |es| == |items| && forall i :: 0 <= i < |items| ==> es[i].Str? && es[i].content == Print(items[i], depth, fmt)
  }

  lemma {:induction false} ValuesAt(ks: seq<Tree>, i: nat)
    requires ViewedAll(ks) && i < |ks|
    ensures Values(ks)[i] == Value(ks[i]) && Members(ks)[i] == Member(Content(ks[i].name), Value(ks[i]))
  {
    hide Value, Viewed;
    if i > 0 {
      ValuesAt(ks[1..], i - 1);
    }
  }

  /** How many children there are. */
  method CountKids(item: Node, ghost t: Tree) returns (n: nat)
    requires item == t.root && Holds(t) && Viewed(t)
    ensures n == |t.kids|
  {
    hide Holds, Blocks, Body, BlocksOf;
    assert allocated(Blocks(t)) && allocated(Body(t));
    KidAt(t, 0);
    var child := item.child;
    n := 0;
    while child != null
      invariant n <= |t.kids| && child == RootAt(t.kids, n)
      decreases |t.kids| - n
    {
      KidAt(t, n);
      KidAt(t, n + 1);
      child := child.next;
      n := n + 1;
    }
    KidAt(t, n);
  }

  // ---------- values ----------

  /** What a print function delivers: null when memory ran out or a type tag has no text,
      and then nothing stays allocated; otherwise one block with the text. */
  twostate predicate Delivers(alloc: Allocator, new out: array?<byte>, v: Json, depth: nat, fmt: bool)
    reads alloc, if out == null then {} else {out}
  {
    && alloc.failures >= old(alloc.failures)
    && (out == null <==> alloc.failures > old(alloc.failures) || !Known(v))
    && (out == null ==> alloc.live == old(alloc.live))
    && (out != null ==>
          && fresh(out) && alloc.live == old(alloc.live) + {out}
          && HoldsText(out, Print(v, depth, fmt)) && out.Length == Room(v, depth, fmt))
  }

  method PrintValue(alloc: Allocator, item: Node, depth: nat, fmt: bool, ghost t: Tree) returns (out: array?<byte>)
    requires item == t.root && Holds(t) && Viewed(t) && !Overruns(Value(t), depth, fmt)
    modifies alloc
    ensures Delivers(alloc, out, Value(t), depth, fmt)
    decreases t, 3
  {
    hide Holds, Linked;
    HoldsStrings(t);
    JsonLaws.PrintNulFree(Value(t), depth, fmt);
    var tag := item.kind % 256;
    if tag == NULL_KIND {
      out := CStrings.NewText(alloc, 5, NULL_TEXT);
    } else if tag == FALSE_KIND {
      out := CStrings.NewText(alloc, 6, FALSE_TEXT);
    } else if tag == TRUE_KIND {
      out := CStrings.NewText(alloc, 5, TRUE_TEXT);
    } else if tag == NUMBER_KIND {
      out := Scalar.PrintNumber(alloc, item);
    } else if tag == STRING_KIND {
      out := Scalar.PrintStringPtr(alloc, item.text, t.text);
    } else if tag == ARRAY_KIND {
      out := PrintArray(alloc, item, depth, fmt, t);
    } else if tag == OBJECT_KIND {
      out := PrintObject(alloc, item, depth, fmt, t);
    } else {
      out := null;
    }
  }

  // ---------- arrays ----------

  method PrintArray(alloc: Allocator, item: Node, depth: nat, fmt: bool, ghost t: Tree) returns (out: array?<byte>)
    requires item == t.root && Holds(t) && Viewed(t) && t.kind % 256 == ARRAY_KIND
    modifies alloc
    ensures Delivers(alloc, out, Array(Values(t.kids)), depth, fmt)
    decreases t, 2
  {
    hide Holds, Blocks, Body, BlocksOf, Print, Values, Known, StrsBlocks, Contents, Distinct, Points, ItemTexts,
         ItemsRoom;
    assert allocated(Blocks(t)) && allocated(Body(t));
    ghost var vs := Values(t.kids);
    ArrayText(vs, depth, fmt);
    out := null;
    var n := CountKids(item, t);
    if n == 0 {
      out := CStrings.NewText(alloc, 3, [LBRACKET, RBRACKET]);
      return;
    }
    var entries := alloc.NewTable(n);
    if entries == null {
      return;
    }
    NotAllocator(t, alloc);
    var fail, len;
    ghost var es;
    fail, len, es := CollectItems(alloc, item, entries, depth + 1, fmt, t);
    if !fail {
      out := alloc.NewBytes(len);
    }
    if out == null {
      FreeEntries(alloc, entries, es);
      alloc.FreeTable(entries);
      return;
    }
    NotText(es, alloc);
    ComposeArray(alloc, out, entries, depth + 1, fmt, es, vs);
  }

  lemma ArrayText(vs: seq<Json>, depth: nat, fmt: bool)
    ensures Print(Array(vs), depth, fmt) == [LBRACKET] + PrintItems(vs, depth + 1, fmt) + [RBRACKET]
    ensures vs == [] ==> Print(Array(vs), depth, fmt) == [LBRACKET, RBRACKET] && Known(Array(vs))
    ensures vs != [] ==> |Print(Array(vs), depth, fmt)| < 5 + ItemsRoom(vs, depth + 1, fmt)
    ensures Known(Array(vs)) ==> NulFree(Print(Array(vs), depth, fmt))
  {
    hide ItemsRoom;
    JsonLaws.PrintNulFree(Array(vs), depth, fmt);
    if vs != [] {
      ItemsFit(vs, depth + 1, fmt);
    } else {
      assert PrintItems(vs, depth + 1, fmt) == [];
    }
  }

  /** The texts of the children, up to the first that fails. */
  method CollectItems(alloc: Allocator, item: Node, entries: array<array?<byte>>, depth: nat, fmt: bool, ghost t: Tree)
    returns (fail: bool, len: nat, ghost es: seq<Str>)
    requires item == t.root && Holds(t) && Viewed(t) && depth > 0
    requires entries.Length == |t.kids| && entries !in Blocks(t)
    requires forall i :: 0 <= i < entries.Length ==> entries[i] == null
    modifies alloc, entries
    ensures Table(entries, es) && fresh(StrsBlocks(es)) && alloc.live == old(alloc.live) + StrsBlocks(es)
    ensures alloc.failures >= old(alloc.failures)
    ensures fail <==> alloc.failures > old(alloc.failures) || !Known(Array(Values(t.kids)))
    ensures !fail ==> ItemTexts(es, Values(t.kids), depth, fmt) && len == 5 + ItemsRoom(Values(t.kids), depth, fmt)
    decreases t, 1
  {
    hide Holds, Blocks, Body, BlocksOf, Print, Values, Value, StrsBlocks, Contents, Distinct, HoldsText, ItemsRoom,
            RootAt, MeasuredItems, Known, ItemTexts;
    assert allocated(Blocks(t)) && allocated(Body(t));
    ghost var vs := Values(t.kids);
    NotAllocator(t, alloc);
    KidAt(t, 0);
    es := Empty(entries.Length);
    len, fail := 5, false;
    ItemsMeasured(vs, es, depth, fmt);
    var child, i := item.child, 0;
    while child != null && !fail
      invariant i <= |t.kids| && child == RootAt(t.kids, i)
      invariant Table(entries, es) && fresh(StrsBlocks(es)) && alloc.live == old(alloc.live) + StrsBlocks(es)
      invariant alloc.failures >= old(alloc.failures)
      invariant fail ==> alloc.failures > old(alloc.failures) || !Known(Array(vs))
      invariant !fail ==> alloc.failures == old(alloc.failures) && MeasuredItems(vs, i, es, len, depth, fmt)
      decreases |t.kids| - i, !fail
    {
      KidAt(t, i);
      ValuesAt(t.kids, i);
      MeasureItem(vs, i, es, len, depth, fmt);
      ghost var b;
      var n: nat;
      fail, n, b := CollectItem(alloc, child, entries, i, depth, fmt, t.kids[i], es);
      if !fail {
        MeasuredItem(vs, i, es, len, depth, fmt, b);
        len := len + n + 2 + (if fmt then 1 else 0);
      }
      es := es[i := b];
      KidAt(t, i);
      i := i + 1;
      child := child.next;
    }
    KidAt(t, i);
    if !fail {
      AllItemsMeasured(vs, es, len, depth, fmt);
    }
  }

  /** The first `i` texts are there, and `len` has been added up for them. */
  ghost predicate MeasuredItems(vs: seq<Json>, i: nat, es: seq<Str>, len: nat, depth: nat, fmt: bool) {
    && i <= |vs| == |es|
    && (forall j :: 0 <= j < i ==> Known(vs[j]) && es[j].Str? && es[j].content == Print(vs[j], depth, fmt))
    && (forall j :: i <= j < |es| ==> es[j] == NoStr)
    && len + ItemsRoom(vs[i..], depth, fmt) == 5 + ItemsRoom(vs, depth, fmt)
  }

  lemma ItemsMeasured(vs: seq<Json>, es: seq<Str>, depth: nat, fmt: bool)
    requires |es| == |vs| && forall j :: 0 <= j < |es| ==> es[j] == NoStr
    ensures MeasuredItems(vs, 0, es, 5, depth, fmt)
  {
    assert vs[0..] == vs;
  }

  lemma MeasureItem(vs: seq<Json>, i: nat, es: seq<Str>, len: nat, depth: nat, fmt: bool)
    requires MeasuredItems(vs, i, es, len, depth, fmt) && i < |vs|
    ensures es[i] == NoStr && (!Known(vs[i]) ==> !Known(Array(vs)))
  {
  }

  lemma MeasuredItem(vs: seq<Json>, i: nat, es: seq<Str>, len: nat, depth: nat, fmt: bool, b: Str)
    requires MeasuredItems(vs, i, es, len, depth, fmt) && i < |vs|
    requires Known(vs[i]) && b.Str? && b.content == Print(vs[i], depth, fmt)
    ensures MeasuredItems(vs, i + 1, es[i := b], len + |b.content| + 2 + (if fmt then 1 else 0), depth, fmt)
  {
    hide Print, ItemsRoom;
    ItemsStep(vs, i, depth, fmt);
  }

  lemma AllItemsMeasured(vs: seq<Json>, es: seq<Str>, len: nat, depth: nat, fmt: bool)
    requires MeasuredItems(vs, |vs|, es, len, depth, fmt)
    ensures Known(Array(vs)) && ItemTexts(es, vs, depth, fmt) && len == 5 + ItemsRoom(vs, depth, fmt)
  {
    assert ItemsRoom(vs[|vs|..], depth, fmt) == 0;
  }

  /** The text of one child, stored in the table. */
  method CollectItem(alloc: Allocator, child: Node, entries: array<array?<byte>>, i: nat, depth: nat, fmt: bool,
                     ghost kid: Tree, ghost es: seq<Str>)
    returns (fail: bool, n: nat, ghost b: Str)
    requires child == kid.root && Holds(kid) && Viewed(kid) && depth > 0
    requires Table(entries, es) && i < |es| && es[i] == NoStr
    modifies alloc, entries
    ensures Table(entries, es[i := b]) && StrsBlocks(es[i := b]) == StrsBlocks(es) + StrBlocks(b)
    ensures fresh(StrBlocks(b)) && alloc.live == old(alloc.live) + StrBlocks(b)
    ensures alloc.failures >= old(alloc.failures)
    ensures fail <==> alloc.failures > old(alloc.failures) || !Known(Value(kid))
    ensures !fail ==> b.Str? && b.content == Print(Value(kid), depth, fmt) && n == |b.content|
    decreases kid, 4
  {
    hide Holds, Blocks, Body, BlocksOf, Print, StrsBlocks, Contents, Distinct, HoldsText, Value;
    assert allocated(StrsBlocks(es));
    NotText(es, alloc);
    var ret := PrintValue(alloc, child, depth, fmt, kid);
    b := if ret == null then NoStr else Str(ret, Print(Value(kid), depth, fmt));
    Store(entries, i, ret, es, b);
    fail, n := ret == null, 0;
    if ret != null {
      n := CStrings.StrLen(ret, b.content);
    }
  }

  /** The array's text, put together from the entries, which are freed on the way. */
  method ComposeArray(alloc: Allocator, out: array<byte>, entries: array<array?<byte>>, depth: nat, fmt: bool,
                      ghost es: seq<Str>, ghost vs: seq<Json>)
    requires Table(entries, es) && ItemTexts(es, vs, depth, fmt)
    requires StrsBlocks(es) <= alloc.live && entries in alloc.live && out !in StrsBlocks(es)
    requires |[LBRACKET] + PrintItems(vs, depth, fmt) + [RBRACKET]| < out.Length
    requires NulFree([LBRACKET] + PrintItems(vs, depth, fmt) + [RBRACKET])
    modifies alloc, out, entries, StrsBlocks(es)
    ensures HoldsText(out, [LBRACKET] + PrintItems(vs, depth, fmt) + [RBRACKET])
    ensures alloc.live == old(alloc.live) - StrsBlocks(es) - {entries} && alloc.failures == old(alloc.failures)
  {
    hide StrsBlocks, Contents, Distinct, HoldsText, Print, PrintItems, ItemEnd;
    ghost var whole := [LBRACKET] + PrintItems(vs, depth, fmt) + [RBRACKET];
    NotText(es, alloc);
    NotTable(es, entries);
    AllStrs(es);
    assert allocated(StrsBlocks(es));
    var ptr: nat := 0;
    ptr := CStrings.PutByte(out, ptr, LBRACKET);
    assert vs[0..] == vs;
    out[ptr] := 0;
    for i := 0 to entries.Length
      invariant Points(entries, es) && ptr <= out.Length
      invariant Contents(es[i..])
      invariant whole == out[..ptr] + (PrintItems(vs[i..], depth, fmt) + [RBRACKET])
      invariant alloc.live == old(alloc.live) - StrsBlocks(es[..i]) && alloc.failures == old(alloc.failures)
    {
      ComposeItem(whole, out[..ptr], vs, i, depth, fmt);
      StrsStep(es, i);
      ContentsStep(es, i);
      ptr := PutItem(alloc, out, ptr, entries[i], i + 1 == entries.Length, fmt, es[i].content);
    }
    NoItems(whole, out[..ptr], vs, depth, fmt);
    alloc.FreeTable(entries);
    ptr := CStrings.PutByte(out, ptr, RBRACKET);
    CStrings.Terminate(out, ptr, whole);
  }

  lemma ComposeItem(whole: seq<byte>, done: seq<byte>, vs: seq<Json>, i: nat, depth: nat, fmt: bool)
    requires i < |vs| && whole == done + (PrintItems(vs[i..], depth, fmt) + [RBRACKET])
    ensures var now := done + Print(vs[i], depth, fmt) + ItemEnd(i + 1 == |vs|, fmt);
      |now| < |whole| && whole == now + (PrintItems(vs[i + 1..], depth, fmt) + [RBRACKET])
  {
    hide Print, PrintItems, ItemEnd;
    ItemsStep(vs, i, depth, fmt);
  }

  lemma NoItems(whole: seq<byte>, done: seq<byte>, vs: seq<Json>, depth: nat, fmt: bool)
    requires whole == done + (PrintItems(vs[|vs|..], depth, fmt) + [RBRACKET])
    ensures whole == done + [RBRACKET]
  {
    assert PrintItems(vs[|vs|..], depth, fmt) == [];
  }

  /** One entry and what separates it from the next. */
  method PutItem(alloc: Allocator, out: array<byte>, at: nat, entry: array<byte>, last: bool, fmt: bool,
    ghost s: seq<byte>)
    returns (ptr: nat)
    requires HoldsText(entry, s) && entry != out && entry in alloc.live
    requires at + |s| + |ItemEnd(last, fmt)| < out.Length
    modifies alloc, out, entry
    ensures ptr == at + |s| + |ItemEnd(last, fmt)| && out[..ptr] == old(out[..at]) + s + ItemEnd(last, fmt)
    ensures alloc.live == old(alloc.live) - {entry} && alloc.failures == old(alloc.failures)
  {
    ptr := CStrings.Append(out, at, entry, s);
    if !last {
      ptr := CStrings.PutByte(out, ptr, COMMA);
      if fmt {
        ptr := CStrings.PutByte(out, ptr, SPACE);
      }
      out[ptr] := 0;
    }
    alloc.FreeBytes(entry);
  }

  // ---------- objects ----------

  method PrintObject(alloc: Allocator, item: Node, depth: nat, fmt: bool, ghost t: Tree) returns (out: array?<byte>)
    requires item == t.root && Holds(t) && Viewed(t) && t.kind % 256 == OBJECT_KIND
    requires !Overruns(Object(Members(t.kids)), depth, fmt)
    modifies alloc
    ensures Delivers(alloc, out, Object(Members(t.kids)), depth, fmt)
    decreases t, 2
  {
    hide Holds, Blocks, Body, BlocksOf, Print, Members, Known, StrsBlocks, Contents, Distinct, Points,
            NameTexts, ValueTexts, MembersRoom, ObjectText;
    assert allocated(Blocks(t)) && allocated(Body(t));
    ghost var ms := Members(t.kids);
    PrintedObject(ms, depth, fmt);
    out := null;
    var n := CountKids(item, t);
    if n == 0 {
      out := PrintEmptyObject(alloc, depth, fmt);
      return;
    }
    var entries := alloc.NewTable(n);
    if entries == null {
      return;
    }
    var names := alloc.NewTable(n);
    if names == null {
      alloc.FreeTable(entries);
      return;
    }
    NotAllocator(t, alloc);
    var fail, len;
    ghost var ns, es;
    fail, len, ns, es := CollectMembers(alloc, item, names, entries, depth + 1, fmt, t);
    if !fail {
      out := alloc.NewBytes(len);
    }
    NotText(ns, alloc);
    NotText(es, alloc);
    if out == null {
      FreePairs(alloc, names, entries, ns, es);
      alloc.FreeTable(names);
      alloc.FreeTable(entries);
      return;
    }
    ComposeObject(alloc, out, names, entries, depth + 1, fmt, ns, es, ms);
  }

  /** The text of an object with members, told from the depth of the members. */
  ghost function ObjectText(ms: seq<Member>, depth: nat, fmt: bool): seq<byte>
    requires depth > 0
  {
    [LBRACE] + (if fmt then [NEWLINE] else []) + (PrintMembers(ms, depth, fmt) + ObjectEnd(depth, fmt))
  }

  ghost function ObjectEnd(depth: nat, fmt: bool): seq<byte>
    requires depth > 0
  {
    (if fmt then Tabs(depth - 1) else []) + [RBRACE]
  }

  lemma PrintedObject(ms: seq<Member>, depth: nat, fmt: bool)
    ensures ms == [] ==> Known(Object(ms)) && Room(Object(ms), depth, fmt) == if fmt then depth + 3 else 3
    ensures ms != [] ==> Print(Object(ms), depth, fmt) == ObjectText(ms, depth + 1, fmt)
    ensures ms != [] ==>
      Room(Object(ms), depth, fmt) == 7 + (if fmt then depth + 1 else 0) + MembersRoom(ms, depth + 1, fmt)
    ensures ms != [] && Known(Object(ms)) ==> |ObjectText(ms, depth + 1, fmt)| < Room(Object(ms), depth, fmt)
    ensures ms != [] && Known(Object(ms)) ==> NulFree(ObjectText(ms, depth + 1, fmt))
  {
    hide PrintMembers, MembersRoom;
    JsonLaws.PrintNulFree(Object(ms), depth, fmt);
    if ms != [] {
      assert Print(Object(ms), depth, fmt) == ObjectText(ms, depth + 1, fmt);
      if Known(Object(ms)) {
        TextFits(Object(ms), depth, fmt);
      }
    }
  }

  /** The explicit case of no members. */
  method PrintEmptyObject(alloc: Allocator, depth: nat, fmt: bool) returns (out: array?<byte>)
    requires !Overruns(Object([]), depth, fmt)
    modifies alloc
    ensures Delivers(alloc, out, Object([]), depth, fmt)
  {
    ghost var whole := Print(Object([]), depth, fmt);
    JsonLaws.PrintNulFree(Object([]), depth, fmt);
    out := alloc.NewBytes(if fmt then depth + 3 else 3);
    if out == null {
      return;
    }
    var ptr: nat := 0;
    ptr := CStrings.PutByte(out, ptr, LBRACE);
    if fmt {
      ptr := CStrings.PutByte(out, ptr, NEWLINE);
      ptr := CStrings.PutTabs(out, ptr, depth - 1);
    }
    ptr := CStrings.PutByte(out, ptr, RBRACE);
    assert out[..ptr] == whole;
    CStrings.Terminate(out, ptr, whole);
  }

  /** The names and the values hold their texts. */
  ghost predicate NameTexts(ns: seq<Str>, ms: seq<Member>) {
    |ns| == |ms| && forall i :: 0 <= i < |ms| ==> ns[i].Str? && ns[i].content == PrintText(ms[i].name)
  }

  ghost predicate ValueTexts(es: seq<Str>, ms: seq<Member>, depth: nat, fmt: bool) {
    |es| == |ms| && forall i :: 0 <= i < |ms| ==> es[i].Str? && es[i].content == Print(ms[i].value, depth, fmt)
  }

  /** The texts of all names and values.  A failure does not end the loop. */
  method CollectMembers(alloc: Allocator, item: Node, names: array<array?<byte>>, entries: array<array?<byte>>,
                        depth: nat, fmt: bool, ghost t: Tree)
    returns (fail: bool, len: nat, ghost ns: seq<Str>, ghost es: seq<Str>)
    requires item == t.root && Holds(t) && Viewed(t) && depth > 0
    requires names.Length == entries.Length == |t.kids| && names != entries && names !in Blocks(t)
      && entries !in Blocks(t)
    requires forall i :: 0 <= i < |t.kids| ==> names[i] == null && entries[i] == null
    modifies alloc, names, entries
    ensures Table(names, ns) && Table(entries, es) && StrsBlocks(ns) !! StrsBlocks(es)
    ensures fresh(StrsBlocks(ns)) && fresh(StrsBlocks(es))
    ensures alloc.live == old(alloc.live) + StrsBlocks(ns) + StrsBlocks(es)
    ensures alloc.failures >= old(alloc.failures)
    ensures fail <==> alloc.failures > old(alloc.failures) || !Known(Object(Members(t.kids)))
    ensures !fail ==> NameTexts(ns, Members(t.kids)) && ValueTexts(es, Members(t.kids), depth, fmt)
    ensures !fail ==> len == 7 + (if fmt then depth else 0) + MembersRoom(Members(t.kids), depth, fmt)
    decreases t, 1
  {
    hide Holds, Blocks, Body, BlocksOf, Print, Members, Value, StrsBlocks, Contents, Distinct, HoldsText,
            MembersRoom, RootAt, MeasuredMembers, Known, NameTexts, ValueTexts;
    assert allocated(Blocks(t)) && allocated(Body(t));
    ghost var ms := Members(t.kids);
    NotAllocator(t, alloc);
    KidAt(t, 0);
    ns, es := Empty(names.Length), Empty(entries.Length);
    len, fail := if fmt then 7 + depth else 7, false;
    MembersMeasured(ms, ns, es, depth, fmt);
    var child, i := item.child, 0;
    while child != null
      invariant i <= |t.kids| && child == RootAt(t.kids, i)
      invariant Table(names, ns) && Table(entries, es) && StrsBlocks(ns) !! StrsBlocks(es)
      invariant fresh(StrsBlocks(ns)) && fresh(StrsBlocks(es))
      invariant alloc.live == old(alloc.live) + StrsBlocks(ns) + StrsBlocks(es)
      invariant alloc.failures >= old(alloc.failures)
      invariant fail ==> alloc.failures > old(alloc.failures) || !Known(Object(ms))
      invariant forall j :: i <= j < |t.kids| ==> ns[j] == NoStr && es[j] == NoStr
      invariant !fail ==> alloc.failures == old(alloc.failures) && MeasuredMembers(ms, i, ns, es, len, depth, fmt)
      decreases |t.kids| - i
    {
      KidAt(t, i);
      ValuesAt(t.kids, i);
      UnknownMember(ms, i);
      ghost var c, b;
      var bad, n;
      bad, n, c, b := CollectMember(alloc, child, names, entries, i, depth, fmt, t.kids[i], ns, es);
      if !bad {
        if !fail {
          MeasuredMember(ms, i, ns, es, len, depth, fmt, c, b);
        }
        len := len + n + 2 + (if fmt then 2 + depth else 0);
      } else {
        fail := true;
      }
      ns, es := ns[i := c], es[i := b];
      KidAt(t, i);
      i := i + 1;
      child := child.next;
    }
    KidAt(t, i);
    if !fail {
      AllMembersMeasured(ms, ns, es, len, depth, fmt);
    }
  }

  /** The first `i` texts are there, and `len` has been added up for them. */
  ghost predicate MeasuredMembers(ms: seq<Member>, i: nat, ns: seq<Str>, es: seq<Str>, len: nat, depth: nat,
    fmt: bool) {
    && i <= |ms| == |ns| == |es|
    && (forall j :: 0 <= j < i ==> Known(ms[j].value) && ns[j].Str? && ns[j].content == PrintText(ms[j].name))
    && (forall j :: 0 <= j < i ==> es[j].Str? && es[j].content == Print(ms[j].value, depth, fmt))
    && len + MembersRoom(ms[i..], depth, fmt) == 7 + (if fmt then depth else 0) + MembersRoom(ms, depth, fmt)
  }

  lemma MembersMeasured(ms: seq<Member>, ns: seq<Str>, es: seq<Str>, depth: nat, fmt: bool)
    requires |ns| == |es| == |ms|
    ensures MeasuredMembers(ms, 0, ns, es, if fmt then 7 + depth else 7, depth, fmt)
  {
    assert ms[0..] == ms;
  }

  lemma UnknownMember(ms: seq<Member>, i: nat)
    requires i < |ms|
    ensures !Known(ms[i].value) ==> !Known(Object(ms))
  {
  }

  lemma MeasuredMember(ms: seq<Member>, i: nat, ns: seq<Str>, es: seq<Str>, len: nat, depth: nat, fmt: bool, c: Str,
    b: Str)
    requires MeasuredMembers(ms, i, ns, es, len, depth, fmt) && i < |ms|
    requires Known(ms[i].value) && c.Str? && c.content == PrintText(ms[i].name)
    requires b.Str? && b.content == Print(ms[i].value, depth, fmt)
    ensures MeasuredMembers(ms, i + 1, ns[i := c], es[i := b],
                            len + (|b.content| + |c.content|) + 2 + (if fmt then 2 + depth else 0), depth, fmt)
  {
    hide Print, PrintText, MembersRoom;
    MembersStep(ms, i, depth, fmt);
  }

  lemma AllMembersMeasured(ms: seq<Member>, ns: seq<Str>, es: seq<Str>, len: nat, depth: nat, fmt: bool)
    requires MeasuredMembers(ms, |ms|, ns, es, len, depth, fmt)
    ensures Known(Object(ms)) && NameTexts(ns, ms) && ValueTexts(es, ms, depth, fmt)
    ensures len == 7 + (if fmt then depth else 0) + MembersRoom(ms, depth, fmt)
  {
    assert MembersRoom(ms[|ms|..], depth, fmt) == 0;
  }

  /** The texts of one name and its value, stored in the tables. */
  method CollectMember(alloc: Allocator, child: Node, names: array<array?<byte>>, entries: array<array?<byte>>, i: nat,
                       depth: nat, fmt: bool, ghost kid: Tree, ghost ns: seq<Str>, ghost es: seq<Str>)
    returns (bad: bool, n: nat, ghost c: Str, ghost b: Str)
    requires child == kid.root && Holds(kid) && Viewed(kid) && depth > 0
    requires Table(names, ns) && i < |ns| && ns[i] == NoStr
    requires Table(entries, es) && i < |es| && es[i] == NoStr
    requires names != entries && StrsBlocks(ns) !! StrsBlocks(es) && names !in Blocks(kid) && entries !in Blocks(kid)
    modifies alloc, names, entries
    ensures Table(names, ns[i := c]) && StrsBlocks(ns[i := c]) == StrsBlocks(ns) + StrBlocks(c)
    ensures Table(entries, es[i := b]) && StrsBlocks(es[i := b]) == StrsBlocks(es) + StrBlocks(b)
    ensures fresh(StrBlocks(b)) && fresh(StrBlocks(c)) && StrBlocks(b) !! StrBlocks(c)
    ensures alloc.live == old(alloc.live) + StrBlocks(c) + StrBlocks(b)
    ensures alloc.failures >= old(alloc.failures)
    ensures bad <==> alloc.failures > old(alloc.failures) || !Known(Value(kid))
    ensures !bad ==> c.Str? && c.content == PrintText(Content(kid.name))
    ensures !bad ==> b.Str? && b.content == Print(Value(kid), depth, fmt) && n == |b.content| + |c.content|
    decreases kid, 5
  {
    hide Holds, Blocks, Body, BlocksOf, Print, PrintText, StrsBlocks, Contents, Distinct, Points, HoldsText, Value,
         Content;
    assert allocated(StrsBlocks(es)) && allocated(StrsBlocks(ns)) && allocated(Blocks(kid)) && allocated(Body(kid));
    NotText(es, alloc);
    NotTable(es, names);
    NotAllocator(kid, alloc);
    HoldsStrings(kid);
    var n1, n2;
    var noName, noValue;
    noName, n2, c := CollectName(alloc, child, names, i, kid, ns);
    assert allocated(StrsBlocks(ns[i := c]));
    NotText(ns[i := c], alloc);
    NotTable(ns[i := c], entries);
    noValue, n1, b := CollectItem(alloc, child, entries, i, depth, fmt, kid, es);
    bad, n := noName || noValue, n1 + n2;
  }

  /** The text of a name, stored in the table. */
  method CollectName(alloc: Allocator, child: Node, names: array<array?<byte>>, i: nat, ghost kid: Tree,
    ghost ns: seq<Str>)
    returns (fail: bool, n: nat, ghost c: Str)
    requires HoldsStr(child.name, kid.name)
    requires Table(names, ns) && i < |ns| && ns[i] == NoStr
    modifies alloc, names
    ensures Table(names, ns[i := c]) && StrsBlocks(ns[i := c]) == StrsBlocks(ns) + StrBlocks(c)
    ensures fresh(StrBlocks(c)) && alloc.live == old(alloc.live) + StrBlocks(c)
    ensures alloc.failures >= old(alloc.failures) && (fail <==> alloc.failures > old(alloc.failures))
    ensures !fail ==> c.Str? && c.content == PrintText(Content(kid.name)) && n == |c.content|
  {
    hide PrintText, StrsBlocks, Contents, Distinct, HoldsText, Content;
    assert allocated(StrsBlocks(ns));
    NotText(ns, alloc);
    var str := Scalar.PrintStringPtr(alloc, child.name, kid.name);
    c := if str == null then NoStr else Str(str, PrintText(Content(kid.name)));
    Store(names, i, str, ns, c);
    fail, n := str == null, 0;
    if str != null {
      n := CStrings.StrLen(str, c.content);
    }
  }

  /** The object's text, put together from names and entries, which are freed on the way. */
  method ComposeObject(alloc: Allocator, out: array<byte>, names: array<array?<byte>>, entries: array<array?<byte>>,
                       depth: nat, fmt: bool, ghost ns: seq<Str>, ghost es: seq<Str>, ghost ms: seq<Member>)
    requires Table(names, ns) && NameTexts(ns, ms) && Table(entries, es) && ValueTexts(es, ms, depth, fmt)
    requires StrsBlocks(ns) !! StrsBlocks(es) && StrsBlocks(ns) <= alloc.live && StrsBlocks(es) <= alloc.live
    requires names in alloc.live && entries in alloc.live && names != entries
    requires out !in StrsBlocks(ns) && out !in StrsBlocks(es)
    requires depth > 0 && |ObjectText(ms, depth, fmt)| < out.Length && NulFree(ObjectText(ms, depth, fmt))
    modifies alloc, out, names, entries, StrsBlocks(ns), StrsBlocks(es)
    ensures HoldsText(out, ObjectText(ms, depth, fmt))
    ensures alloc.live == old(alloc.live) - StrsBlocks(ns) - StrsBlocks(es) - {names, entries}
    ensures alloc.failures == old(alloc.failures)
  {
    hide StrsBlocks, Contents, Distinct, HoldsText, Print, PrintMembers, PrintMember, PrintText, MemberEnd,
         ObjectEnd, ObjectText;
    ghost var whole := ObjectText(ms, depth, fmt);
    ComposeStart(ms, depth, fmt);
    NotText(ns, alloc);
    NotText(es, alloc);
    NotTable(ns, names);
    NotTable(ns, entries);
    NotTable(es, names);
    NotTable(es, entries);
    AllStrs(ns);
    AllStrs(es);
    assert allocated(StrsBlocks(es)) && allocated(StrsBlocks(ns));
    var ptr: nat := 0;
    ptr := CStrings.PutByte(out, ptr, LBRACE);
    if fmt {
      ptr := CStrings.PutByte(out, ptr, NEWLINE);
    }
    out[ptr] := 0;
    for i := 0 to entries.Length
      invariant Points(names, ns) && Points(entries, es) && ptr <= out.Length
      invariant Contents(ns[i..]) && Contents(es[i..])
      invariant whole == out[..ptr] + (PrintMembers(ms[i..], depth, fmt) + ObjectEnd(depth, fmt))
      invariant alloc.live == old(alloc.live) - StrsBlocks(ns[..i]) - StrsBlocks(es[..i])
      invariant alloc.failures == old(alloc.failures)
    {
      ComposeMember(whole, out[..ptr], ms, i, depth, fmt);
      StrsStep(ns, i);
      ContentsStep(ns, i);
      StrsStep(es, i);
      ContentsStep(es, i);
      ptr := PutMember(alloc, out, ptr, names[i], entries[i], i + 1 == entries.Length, depth, fmt, ns[i].content,
        es[i].content, ms[i]);
    }
    NoMembers(whole, out[..ptr], ms, depth, fmt);
    alloc.FreeTable(names);
    alloc.FreeTable(entries);
    if fmt {
      ptr := CStrings.PutTabs(out, ptr, depth - 1);
    }
    ptr := CStrings.PutByte(out, ptr, RBRACE);
    CStrings.Terminate(out, ptr, whole);
  }

  lemma ComposeStart(ms: seq<Member>, depth: nat, fmt: bool)
    requires depth > 0
    ensures ms[0..] == ms
    ensures ObjectText(ms, depth, fmt)
         == [LBRACE] + (if fmt then [NEWLINE] else []) + (PrintMembers(ms, depth, fmt) + ObjectEnd(depth, fmt))
    ensures |ObjectEnd(depth, fmt)| > 0
  {
  }

  lemma ComposeMember(whole: seq<byte>, done: seq<byte>, ms: seq<Member>, i: nat, depth: nat, fmt: bool)
    requires depth > 0 && i < |ms| && whole == done + (PrintMembers(ms[i..], depth, fmt) + ObjectEnd(depth, fmt))
    ensures var now := done + PrintMember(ms[i], depth, fmt) + MemberEnd(i + 1 == |ms|, fmt);
      |now| < |whole| && whole == now + (PrintMembers(ms[i + 1..], depth, fmt) + ObjectEnd(depth, fmt))
  {
    hide PrintMember, PrintMembers, MemberEnd, ObjectEnd;
    MembersStep(ms, i, depth, fmt);
    ComposeStart(ms, depth, fmt);
    Regroup(done, PrintMember(ms[i], depth, fmt), MemberEnd(i + 1 == |ms|, fmt),
            PrintMembers(ms[i + 1..], depth, fmt), ObjectEnd(depth, fmt));
  }

  lemma Regroup(d: seq<byte>, a: seq<byte>, b: seq<byte>, r: seq<byte>, e: seq<byte>)
    ensures d + ((a + b + r) + e) == (d + a + b) + (r + e)
  {
  }

  lemma NoMembers(whole: seq<byte>, done: seq<byte>, ms: seq<Member>, depth: nat, fmt: bool)
    requires depth > 0 && whole == done + (PrintMembers(ms[|ms|..], depth, fmt) + ObjectEnd(depth, fmt))
    ensures whole == done + (if fmt then Tabs(depth - 1) else []) + [RBRACE]
  {
    assert PrintMembers(ms[|ms|..], depth, fmt) == [];
  }

  /** One member with its tabs, its colon and what ends its line. */
  method PutMember(alloc: Allocator, out: array<byte>, at: nat, name: array<byte>, entry: array<byte>, last: bool,
                   depth: nat, fmt: bool, ghost s: seq<byte>, ghost x: seq<byte>, ghost m: Member)
    returns (ptr: nat)
    requires HoldsText(name, s) && HoldsText(entry, x) && s == PrintText(m.name) && x == Print(m.value, depth, fmt)
    requires name != out && entry != out && name != entry && name in alloc.live && entry in alloc.live
    requires at + |PrintMember(m, depth, fmt)| + |MemberEnd(last, fmt)| < out.Length
    modifies alloc, out, name, entry
    ensures ptr == at + |PrintMember(m, depth, fmt)| + |MemberEnd(last, fmt)|
    ensures out[..ptr] == old(out[..at]) + PrintMember(m, depth, fmt) + MemberEnd(last, fmt)
    ensures alloc.live == old(alloc.live) - {name, entry} && alloc.failures == old(alloc.failures)
  {
    hide Print, PrintText, MemberEnd;
    ptr := PutName(out, at, name, depth, fmt, s);
    ptr := PutEntry(out, ptr, entry, last, fmt, x);
    alloc.FreeBytes(name);
    alloc.FreeBytes(entry);
  }

  method PutName(out: array<byte>, at: nat, name: array<byte>, depth: nat, fmt: bool, ghost s: seq<byte>)
    returns (ptr: nat)
    requires HoldsText(name, s) && name != out
    requires at + |NamePart(s, depth, fmt)| < out.Length
    modifies out
    ensures ptr == at + |NamePart(s, depth, fmt)| && out[..ptr] == old(out[..at]) + NamePart(s, depth, fmt)
  {
    ptr := at;
    if fmt {
      ptr := CStrings.PutTabs(out, ptr, depth);
    }
    ptr := CStrings.Append(out, ptr, name, s);
    ptr := CStrings.PutByte(out, ptr, COLON);
    if fmt {
      ptr := CStrings.PutByte(out, ptr, TAB);
    }
  }

  /** A member up to its value. */
  ghost function NamePart(s: seq<byte>, depth: nat, fmt: bool): seq<byte> {
    (if fmt then Tabs(depth) else []) + s + [COLON] + (if fmt then [TAB] else [])
  }

  method PutEntry(out: array<byte>, at: nat, entry: array<byte>, last: bool, fmt: bool, ghost x: seq<byte>)
    returns (ptr: nat)
    requires HoldsText(entry, x) && entry != out
    requires at + |x| + |MemberEnd(last, fmt)| < out.Length
    modifies out
    ensures ptr == at + |x| + |MemberEnd(last, fmt)| && out[..ptr] == old(out[..at]) + x + MemberEnd(last, fmt)
  {
    ptr := CStrings.Append(out, at, entry, x);
    if !last {
      ptr := CStrings.PutByte(out, ptr, COMMA);
    }
    if fmt {
      ptr := CStrings.PutByte(out, ptr, NEWLINE);
    }
    out[ptr] := 0;
  }

  // ---------- entry points ----------

  /** cJSON_Print. */
  method PrintFormatted(alloc: Allocator, item: Node?, ghost t: Tree) returns (out: array?<byte>)
    requires item != null ==> item == t.root && Holds(t) && Viewed(t) && !Overruns(Value(t), 0, true)
    modifies alloc
    ensures if item == null then out == null && unchanged(alloc) else Delivers(alloc, out, Value(t), 0, true)
  {
    out := null;
    if item != null {
      out := PrintValue(alloc, item, 0, true, t);
    }
  }

  /** cJSON_PrintUnformatted. */
  method PrintUnformatted(alloc: Allocator, item: Node?, ghost t: Tree) returns (out: array?<byte>)
    requires item != null ==> item == t.root && Holds(t) && Viewed(t)
    modifies alloc
    ensures if item == null then out == null && unchanged(alloc) else Delivers(alloc, out, Value(t), 0, false)
  {
    out := null;
    if item != null {
      out := PrintValue(alloc, item, 0, false, t);
    }
  }

  /** The text in the block, read back, stands for the value that was printed, and is used up to its end. */
  lemma PrintedTextReads(out: array<byte>, v: Json, depth: nat, fmt: bool, strict: bool)
    requires Printable(v) && HoldsText(out, Print(v, depth, fmt))
    ensures var n := |Print(v, depth, fmt)|;
      Terminated(out[..n + 1]) && ParseText(out[..n + 1], strict) == Ok(v, [0])
  {
    hide Print, ParseValue;
    assert Skip([0]) == [0];
    var text := Print(v, depth, fmt);
    assert out[..|text| + 1] == text + [0];
    JsonRoundTrip.ParsePrint(v, depth, fmt, [0]);
  }
}
