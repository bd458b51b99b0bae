/** parse_value, parse_array, parse_object and cJSON_ParseWithOpts: from text to a tree of items. */
module CJsonParse {
  import opened Bytes
  import opened JsonText
  import opened CJsonHeap
  import CJsonDelete
  import Scan = CJsonParseString

  // ---------- what is promised ----------

  /** The blocks that parsing gives an item, its name apart. */
  ghost function Payload(t: Tree): set<object> {
    match t
    case Item(_, _, _, text, _, kids) => StrBlocks(text) + BlocksOf(kids)
    case Ref(_, _, _) => {}
  }

  /** `end` and `t` are what the grammar says. */
  ghost predicate Agrees(r: Parsed<Json>, text: seq<byte>, end: Option<nat>, t: Tree) {
    match r
    case Ok(v, rest) =>
      end.Some? && end.value < |text| && text[end.value..] == rest && Viewed(t) && Value(t) == v
    case Bad => end.None?
    case Beyond => true
  }

  ghost predicate AgreesItems(r: Parsed<seq<Json>>, text: seq<byte>, end: Option<nat>, ks: seq<Tree>) {
    match r
    case Ok(vs, rest) =>
      end.Some? && end.value < |text| && text[end.value..] == rest && ViewedAll(ks) && Values(ks) == vs
    case Bad => end.None?
    case Beyond => true
  }

  ghost predicate AgreesMembers(r: Parsed<seq<Member>>, text: seq<byte>, end: Option<nat>, ks: seq<Tree>) {
    match r
    case Ok(ms, rest) =>
      end.Some? && end.value < |text| && text[end.value..] == rest && ViewedAll(ks) && Members(ks) == ms
    case Bad => end.None?
    case Beyond => true
  }

  /** A tree under construction in its owner's hands. */
  ghost predicate Built(t: Tree)
    reads t.root`kind, t.root`number, t.root`text, t.root`name, t.root`child, Body(t)
  {
    t.Item? && Holds(t) && Separate(t) && Owner(t)
  }

  /** The children built so far. */
  ghost predicate BuiltKids(ks: seq<Tree>)
    reads BlocksOf(ks)
  {
    Linked(ks) && SeparateAll(ks) && OwnerAll(ks)
  }

  /** A skipped value: where the text goes on behind it. */
  ghost predicate AgreesElement(r: Parsed<Json>, text: seq<byte>, value: Option<nat>, k: Tree)
    requires r.Ok? ==> Terminated(r.rest)
  {
    match r
    case Ok(v, rest) =>
      value.Some? && value.value < |text| && text[value.value..] == Skip(rest) && Viewed(k) && Value(k) == v
    case Bad => value.None?
    case Beyond => true
  }

  // ---------- the grammar, read along a list ----------

  /** What follows an item of an array. */
  function AfterItem(s: seq<byte>): Parsed<seq<Json>>
    requires Terminated(s)
  {
    if s[0] == COMMA then JsonText.ParseItems(s[1..])
    else if s[0] == RBRACKET then Ok([], s[1..])
    else Bad
  }

  lemma ItemsUnfold(s: seq<byte>)
    requires Terminated(s)
    ensures JsonText.ParseItems(s) == match JsonText.ParseValue(Skip(s))
                             case Bad => Bad
                             case Beyond => Beyond
                             case Ok(v, rest) => Prepend([v], AfterItem(Skip(rest)))
  {
    hide JsonText.ParseValue, Skip;
    var r := JsonText.ParseValue(Skip(s));
    if r.Ok? {
      assert [r.value] + [] == [r.value];
    }
  }

  lemma {:induction false} ValuesAppend(ks: seq<Tree>, k: Tree)
    requires ViewedAll(ks) && Viewed(k)
    ensures ViewedAll(ks + [k])
    ensures Values(ks + [k]) == Values(ks) + [Value(k)]
    ensures Members(ks + [k]) == Members(ks) + [Member(Content(k.name), Value(k))]
  {
    hide Value, Viewed;
    if ks == [] {
      assert ks + [k] == [k];
    } else {
      ValuesAppend(ks[1..], k);
      assert (ks + [k])[1..] == ks[1..] + [k];
    }
  }

  // ---------- building a chain ----------

  /** A new item becomes the successor of the last one. */
  method NewLinked(alloc: Allocator, child: Node, ghost ks: seq<Tree>) returns (n: Node?, ghost b: Tree)
    requires ks != [] && child == Last(ks) && BuiltKids(ks)
    modifies alloc, child`next
    ensures n == null ==> BuiltKids(ks) && alloc.live == old(alloc.live) && alloc.failures > old(alloc.failures)
    ensures n != null ==> fresh(n) && alloc.live == old(alloc.live) + {n} && alloc.failures == old(alloc.failures)
    ensures n != null ==> n.kind == 0 && n.text == null && n.number == 0 && n.name == null && n.child == null
    ensures n != null ==> b.root == n && NextLinks(ks + [b]) && PrevLinks(ks + [b]) && BuiltBefore(ks, n)
  {
    hide Holds, HoldsAll, Separate, Owner, Blocks, Body, BlocksOf, BodyOf, SeparateAll, OwnerAll, Linked;
    assert allocated(BlocksOf(ks)) && allocated(BodyOf(ks)) && allocated(Roots(ks));
    NotBlock(ks, alloc);
    RootsWithin(ks);
    n := alloc.NewItem();
    b := ks[0];
    if n != null {
      b := Item(n, 0, 0, NoStr, NoStr, []);
      NoStrHolds();
      LeafHolds(b);
      Link(child, n, ks, b);
      LinkedUses(ks + [b]);
      HoldsAllFront(ks, b);
    }
  }

  /** The chain without its last item `n`, which is still being filled. */
  ghost predicate BuiltBefore(ks: seq<Tree>, n: Node)
    reads Roots(ks)`kind, Roots(ks)`number, Roots(ks)`text, Roots(ks)`name, Roots(ks)`child, BodyOf(ks)
  {
    HoldsAll(ks) && SeparateAll(ks) && OwnerAll(ks) && n !in Roots(ks) && n !in BodyOf(ks)
  }

  lemma HoldsAllFront(ks: seq<Tree>, b: Tree)
    requires HoldsAll(ks + [b])
    ensures HoldsAll(ks)
  {
    hide Holds;
    assert forall k | k in ks :: k in ks + [b];
  }

  /** Once filled, the new item completes the chain. */
  lemma ChainFilled(ks: seq<Tree>, b: Tree, k: Tree)
    requires ks != [] && b.root == k.root && NextLinks(ks + [b]) && PrevLinks(ks + [b])
    requires BuiltBefore(ks, k.root) && Built(k) && BlocksOf(ks) !! Blocks(k)
    ensures BuiltKids(ks + [k]) && BlocksOf(ks + [k]) == BlocksOf(ks) + Blocks(k)
    ensures Last(ks + [k]) == k.root && First(ks + [k]) == First(ks)
  {
    hide Holds, Separate, Owner, Blocks, Body, BlocksOf, BodyOf, SeparateAll, OwnerAll, HoldsAll;
    OwnerAppend(ks, k);
    SeparateAppend(ks, k);
    HoldsAllAppend(ks, k);
    SameRoots(ks, b, k);
  }

  lemma SameRoots(ks: seq<Tree>, b: Tree, k: Tree)
    requires b.root == k.root && NextLinks(ks + [b]) && PrevLinks(ks + [b])
    ensures NextLinks(ks + [k]) && PrevLinks(ks + [k])
  {
    forall i | 0 <= i < |ks + [k]|
      ensures (ks + [k])[i].root.next == RootAt(ks + [k], i + 1)
      ensures (ks + [k])[i].root.prev == RootAt(ks + [k], i - 1)
    {
      assert (ks + [k])[i].root == (ks + [b])[i].root;
      assert RootAt(ks + [k], i + 1) == RootAt(ks + [b], i + 1);
      assert RootAt(ks + [k], i - 1) == RootAt(ks + [b], i - 1);
    }
  }

  // ---------- values ----------

  /** The words of parse_value. */
  method ParseWord(item: Node, text: seq<byte>, i: nat) returns (end: Option<nat>)
    requires Terminated(text) && i < |text|
    modifies item`kind, item`number
    ensures end.None? ==> item.kind == old(item.kind) && item.number == old(item.number)
    ensures end.None? <==> NoWord(text[i..])
    ensures end.Some? ==> end.value < |text| && item.kind in {FALSE_KIND, TRUE_KIND, NULL_KIND}
    ensures end.Some? ==>
      JsonText.ParseValue(text[i..]) == Ok(ScalarValue(item.kind, item.number, NoStr), text[end.value..])
  {
    hide JsonText.ParseNumber, JsonText.ReadString, JsonText.ParseArray, JsonText.ParseObject;
    ghost var s := text[i..];
    WordEnds(s);
    end := None;
    if StartsWith(text[i..], NULL_TEXT) {
      item.kind := NULL_KIND;
      end := Some(i + 4);
    } else if StartsWith(text[i..], FALSE_TEXT) {
      item.kind := FALSE_KIND;
      end := Some(i + 5);
    } else if StartsWith(text[i..], TRUE_TEXT) {
      item.kind := TRUE_KIND;
      item.number := 1;
      end := Some(i + 4);
    }
    if end.Some? {
      assert s[end.value - i..] == text[end.value..];
    }
  }

  predicate NoWord(s: seq<byte>) {
    !StartsWith(s, NULL_TEXT) && !StartsWith(s, FALSE_TEXT) && !StartsWith(s, TRUE_TEXT)
  }

  /** What an item without children stands for. */
  ghost function ScalarValue(kind: int, number: int, b: Str): Json {
    if kind == NULL_KIND then Null
    else if kind == FALSE_KIND then False
    else if kind == TRUE_KIND then True
    else if kind == NUMBER_KIND then Number(number)
    else if kind == STRING_KIND then String(Content(b))
    else Unknown
  }

  lemma LeafValue(t: Tree)
    requires t.Item? && t.kids == [] && t.kind in {FALSE_KIND, TRUE_KIND, NULL_KIND, NUMBER_KIND, STRING_KIND}
    ensures Viewed(t) && Value(t) == ScalarValue(t.kind, t.number, t.text)
  {
  }

  /** What reading an item without children has to deliver. */
  ghost predicate AgreesScalar(r: Parsed<Json>, text: seq<byte>, end: Option<nat>, v: Json) {
    match r
    case Ok(x, rest) => end.Some? && end.value < |text| && text[end.value..] == rest && v == x
    case Bad => end.None?
    case Beyond => true
  }

  /** The cases of parse_value without children. */
  method ReadScalar(alloc: Allocator, item: Node, text: seq<byte>, i: nat) returns (end: Option<nat>, ghost b: Str)
    requires Terminated(text) && i < |text| && !JsonText.ParseValue(text[i..]).Beyond?
    requires text[i] != LBRACKET && text[i] != LBRACE
    requires item.text == null && !IsReference(item.kind)
    modifies alloc, item`kind, item`number, item`text
    ensures HoldsStr(item.text, b) && fresh(StrBlocks(b)) && alloc.live == old(alloc.live) + StrBlocks(b)
    ensures !IsReference(item.kind)
    ensures end.Some? ==> item.kind in {FALSE_KIND, TRUE_KIND, NULL_KIND, NUMBER_KIND, STRING_KIND}
    ensures alloc.failures >= old(alloc.failures) && (end.Some? ==> alloc.failures == old(alloc.failures))
    ensures alloc.failures == old(alloc.failures) ==>
      AgreesScalar(JsonText.ParseValue(text[i..]), text, end, ScalarValue(item.kind, item.number, b))
  {
    hide HoldsText, JsonText.ParseValue, StartsWith, NoWord, ParseString, JsonText.ParseNumber;
    b := NoStr;
    end := ParseWord(item, text, i);
    if end.None? {
      ScalarCases(text, i);
      if text[i] == QUOTE {
        end, b := Scan.ParseString(alloc, item, text, i);
      } else if text[i] == MINUS || IsDigit(text[i]) {
        var stop, double := Scan.ParseNumber(item, text, i);
        end := Some(stop);
      }
    }
  }

  /** An item without children becomes a tree. */
  method ParseScalar(alloc: Allocator, item: Node, text: seq<byte>, i: nat, ghost name: Str)
    returns (end: Option<nat>, ghost t: Tree)
    requires Terminated(text) && i < |text| && !JsonText.ParseValue(text[i..]).Beyond?
    requires text[i] != LBRACKET && text[i] != LBRACE
    requires item.text == null && item.child == null && !IsReference(item.kind) && HoldsStr(item.name, name)
    modifies alloc, item`kind, item`number, item`text
    ensures t.root == item && t.name == name && Built(t)
    ensures fresh(Payload(t)) && alloc.live == old(alloc.live) + Payload(t)
    ensures alloc.failures >= old(alloc.failures) && (end.Some? ==> alloc.failures == old(alloc.failures))
    ensures alloc.failures == old(alloc.failures) ==> Agrees(JsonText.ParseValue(text[i..]), text, end, t)
  {
    hide HoldsStr, JsonText.ParseValue, Blocks, Body, BlocksOf, Holds, Separate, Owner, Value, Viewed, ScalarValue,
         IsReference;
    assert allocated(StrBlocks(name));
    ghost var b;
    end, b := ReadScalar(alloc, item, text, i);
    t := Item(item, item.kind, item.number, b, name, []);
    LeafHolds(t);
    NoKids();
    if end.Some? {
      LeafValue(t);
    }
  }

  /** The grammar at a position that opens no list. */
  lemma ScalarCases(text: seq<byte>, i: nat)
    requires Terminated(text) && i < |text| && text[i] != LBRACKET && text[i] != LBRACE
    requires NoWord(text[i..])
    ensures var s := text[i..]; var r := JsonText.ParseValue(s);
      if text[i] == QUOTE then
        r == match ParseString(s)
             case Ok(x, rest) => Ok(String(Some(x)), rest)
             case Bad => Bad
             case Beyond => Beyond
      else if text[i] == MINUS || IsDigit(text[i]) then r == JsonText.ParseNumber(s)
      else r == Bad
  {
    hide JsonText.ParseNumber, ParseString, StartsWith;
  }

  /** A word is not the whole text: the terminator follows. */
  lemma WordEnds(s: seq<byte>)
    requires Terminated(s)
    ensures StartsWith(s, NULL_TEXT) || StartsWith(s, TRUE_TEXT) ==> |s| > 4
    ensures StartsWith(s, FALSE_TEXT) ==> |s| > 5
  {
    if StartsWith(s, NULL_TEXT) {
      assert s[3] == NULL_TEXT[3];
    } else if StartsWith(s, TRUE_TEXT) {
      assert s[3] == TRUE_TEXT[3];
    } else if StartsWith(s, FALSE_TEXT) {
      assert s[4] == FALSE_TEXT[4];
    }
  }

  method ParseValue(alloc: Allocator, item: Node, text: seq<byte>, i: nat, ghost name: Str)
    returns (end: Option<nat>, ghost t: Tree)
    requires Terminated(text) && i < |text| && !JsonText.ParseValue(text[i..]).Beyond?
    requires item.text == null && item.child == null && !IsReference(item.kind) && HoldsStr(item.name, name)
    modifies alloc, item`kind, item`number, item`text, item`child
    ensures t.root == item && t.name == name && Built(t)
    ensures fresh(Payload(t)) && alloc.live == old(alloc.live) + Payload(t)
    ensures alloc.failures >= old(alloc.failures) && (end.Some? ==> alloc.failures == old(alloc.failures))
    ensures alloc.failures == old(alloc.failures) ==> Agrees(JsonText.ParseValue(text[i..]), text, end, t)
    decreases |text| - i, 0
  {
    if text[i] == LBRACKET {
      end, t := ParseArray(alloc, item, text, i, name);
    } else if text[i] == LBRACE {
      end, t := ParseObject(alloc, item, text, i, name);
    } else {
      end, t := ParseScalar(alloc, item, text, i, name);
    }
  }

  lemma BracketValue(text: seq<byte>, i: nat)
    requires Terminated(text) && i < |text|
    ensures text[i] == LBRACKET ==>
      i + 1 < |text| && JsonText.ParseValue(text[i..]) == JsonText.ParseArray(text[i + 1..])
    ensures text[i] == LBRACE ==>
      i + 1 < |text| && JsonText.ParseValue(text[i..]) == JsonText.ParseObject(text[i + 1..])
  {
    hide JsonText.ParseArray, JsonText.ParseObject, JsonText.ParseNumber, JsonText.ReadString;
    assert text[i..][1..] == text[i + 1..];
  }

  /** A value between blanks, for an item of an array. */
  method ParseElement(alloc: Allocator, child: Node, text: seq<byte>, i: nat)
    returns (value: Option<nat>, ghost k: Tree)
    requires Terminated(text) && i < |text| && !JsonText.ParseValue(Skip(text[i..])).Beyond?
    requires child.text == null && child.child == null && !IsReference(child.kind) && child.name == null
    modifies alloc, child`kind, child`number, child`text, child`child
    ensures k.root == child && Built(k) && Blocks(k) == {child} + Body(k)
    ensures fresh(Body(k)) && alloc.live == old(alloc.live) + Body(k)
    ensures alloc.failures >= old(alloc.failures)
    ensures value.Some? ==> alloc.failures == old(alloc.failures) && value.value < |text|
    ensures alloc.failures == old(alloc.failures) ==>
      AgreesElement(JsonText.ParseValue(Skip(text[i..])), text, value, k)
    decreases |text| - i, 1
  {
    hide JsonText.ParseValue, Skip, Holds, Separate, Owner, Blocks, Body, Payload;
    NoStrHolds();
    var j := Scan.SkipBlanks(text, i);
    var end;
    end, k := ParseValue(alloc, child, text, j, NoStr);
    NamedBlocks(k);
    value := None;
    if end.Some? {
      var v := Scan.SkipBlanks(text, end.value);
      value := Some(v);
    }
  }

  // ---------- arrays ----------

  method ParseArray(alloc: Allocator, item: Node, text: seq<byte>, i: nat, ghost name: Str)
    returns (end: Option<nat>, ghost t: Tree)
    requires Terminated(text) && i < |text| && !JsonText.ParseValue(text[i..]).Beyond? && text[i] == LBRACKET
    requires item.text == null && item.child == null && HoldsStr(item.name, name)
    modifies alloc, item`kind, item`number, item`text, item`child
    ensures t.root == item && t.name == name && Built(t)
    ensures fresh(Payload(t)) && alloc.live == old(alloc.live) + Payload(t)
    ensures alloc.failures >= old(alloc.failures) && (end.Some? ==> alloc.failures == old(alloc.failures))
    ensures alloc.failures == old(alloc.failures) ==> Agrees(JsonText.ParseValue(text[i..]), text, end, t)
    decreases |text| - i - 1, 4
  {
    hide JsonText.ParseValue, Skip, JsonText.ParseItems, HoldsStr, Holds, Separate, Owner, Linked, SeparateAll,
            OwnerAll, Blocks, Body, BlocksOf, Values, ViewedAll, Value, Viewed, Agrees, AgreesItems;
    assert allocated(StrBlocks(name));
    BracketValue(text, i);
    NoStrHolds();
    NoKids();
    item.kind := ARRAY_KIND;
    ghost var ks := [];
    var v := Scan.SkipBlanks(text, i + 1);
    ArrayCases(text, i, v);
    if text[v] == RBRACKET {
      end := Some(v + 1);
    } else {
      end, ks := ParseItems(alloc, item, text, v);
    }
    t := Item(item, ARRAY_KIND, item.number, NoStr, name, ks);
    TreeBuilt(t);
    if alloc.failures == old(alloc.failures) {
      ArrayAgrees(text, i, v, end, t);
    }
  }

  /** The grammar at an opening bracket, after which the first byte that is no blank is at `v`. */
  lemma ArrayCases(text: seq<byte>, i: nat, v: nat)
    requires Terminated(text) && i < v < |text| && text[i] == LBRACKET && text[v..] == Skip(text[i + 1..])
    ensures text[v] != RBRACKET ==>
      (JsonText.ParseItems(text[v..]).Beyond? ==> JsonText.ParseValue(text[i..]).Beyond?)
  {
    hide JsonText.ParseItems, Skip, JsonText.ParseValue;
    BracketValue(text, i);
  }

  lemma ArrayAgrees(text: seq<byte>, i: nat, v: nat, end: Option<nat>, t: Tree)
    requires Terminated(text) && i < v < |text| && text[i] == LBRACKET && text[v..] == Skip(text[i + 1..])
    requires t.Item? && t.kind == ARRAY_KIND
    requires if text[v] == RBRACKET then end == Some(v + 1) && t.kids == []
             else AgreesItems(JsonText.ParseItems(text[v..]), text, end, t.kids)
    ensures Agrees(JsonText.ParseValue(text[i..]), text, end, t)
  {
    hide JsonText.ParseItems, Skip, JsonText.ParseValue, Values, Members;
    BracketValue(text, i);
    assert text[v..][1..] == text[v + 1..];
    if t.kids == [] {
      assert Values(t.kids) == [];
    }
  }

  /** A root whose fields are set, over children that are built. */
  lemma TreeBuilt(t: Tree)
    requires t.Item? && !IsReference(t.kind) && t.text == NoStr
    requires t.root.kind == t.kind && t.root.number == t.number && t.root.text == null && t.root.child == First(t.kids)
    requires HoldsStr(t.root.name, t.name) && BuiltKids(t.kids)
    requires t.root !in BlocksOf(t.kids) && StrBlocks(t.name) !! BlocksOf(t.kids)
    ensures Built(t) && Payload(t) == BlocksOf(t.kids)
  {
    hide HoldsText, Linked, SeparateAll;
  }

  lemma FirstKid(k: Tree)
    requires Built(k) && k.root.next == null && k.root.prev == null
    ensures BuiltKids([k]) && BlocksOf([k]) == Blocks(k) && First([k]) == Last([k]) == k.root
  {
    hide Holds, Separate, Owner, Blocks;
    LinkedOne(k);
  }

  /** One more comma: a new item is linked in and filled with the value that follows. */
  method NextItem(alloc: Allocator, child: Node, text: seq<byte>, i: nat, ghost ks: seq<Tree>)
    returns (n: Node?, value: Option<nat>, ghost k: Tree)
    requires Terminated(text) && i < |text| && !JsonText.ParseValue(Skip(text[i..])).Beyond?
    requires ks != [] && child == Last(ks) && BuiltKids(ks)
    modifies alloc, child`next
    ensures alloc.failures >= old(alloc.failures)
    ensures value.Some? ==> n != null && alloc.failures == old(alloc.failures)
    ensures n == null ==> alloc.failures > old(alloc.failures) && BuiltKids(ks) && alloc.live == old(alloc.live)
    ensures n != null ==> BuiltKids(ks + [k]) && Last(ks + [k]) == n && First(ks + [k]) == First(ks)
    ensures n != null ==> BlocksOf(ks + [k]) == BlocksOf(ks) + Blocks(k) && fresh(Blocks(k))
    ensures n != null ==> alloc.live == old(alloc.live) + Blocks(k)
    ensures value.Some? ==> value.value < |text|
    ensures alloc.failures == old(alloc.failures) ==>
      AgreesElement(JsonText.ParseValue(Skip(text[i..])), text, value, k)
    decreases |text| - i, 2
  {
    hide JsonText.ParseValue, Skip, Holds, HoldsAll, Separate, Owner, Blocks, Body, BlocksOf, BodyOf,
            Linked, SeparateAll, OwnerAll, NextLinks, PrevLinks, Value, Viewed, Payload;
    assert allocated(BlocksOf(ks)) && allocated(BodyOf(ks)) && allocated(Roots(ks));
    NotBlock(ks, alloc);
    RootsWithin(ks);
    BodiesWithin(ks);
    ghost var b;
    n, b := NewLinked(alloc, child, ks);
    value, k := None, b;
    if n != null {
      assert allocated(Roots(ks + [b]));
      value, k := ParseElement(alloc, n, text, i);
      ChainFilled(ks, b, k);
    }
  }

  /** The items of an array after its opening bracket, one per comma. */
  method ParseItems(alloc: Allocator, item: Node, text: seq<byte>, i: nat)
    returns (end: Option<nat>, ghost ks: seq<Tree>)
    requires Terminated(text) && i < |text| && !JsonText.ParseItems(text[i..]).Beyond?
    requires item.child == null
    modifies alloc, item`child
    ensures item.child == First(ks) && BuiltKids(ks)
    ensures fresh(BlocksOf(ks)) && alloc.live == old(alloc.live) + BlocksOf(ks)
    ensures alloc.failures >= old(alloc.failures) && (end.Some? ==> alloc.failures == old(alloc.failures))
    ensures alloc.failures == old(alloc.failures) ==> AgreesItems(JsonText.ParseItems(text[i..]), text, end, ks)
    decreases |text| - i, 3
  {
    hide JsonText.ParseItems, JsonText.ParseValue, Skip, Holds, Separate, Owner, Blocks, Body, BlocksOf, Linked,
            SeparateAll, OwnerAll, Payload, ItemsSoFar, AgreesItems, AgreesElement;
    ghost var whole := JsonText.ParseItems(text[i..]);
    NotBeyond(text, i);
    end, ks := None, [];
    NoKids();
    var child := alloc.NewItem();
    item.child := child;
    if child == null {
      return;
    }
    var value;
    ghost var k;
    value, k := ParseElement(alloc, child, text, i);
    ks := [k];
    FirstKid(k);
    if alloc.failures == old(alloc.failures) {
      ItemsStart(text, i, value, k);
    }
    if value == None {
      return;
    }
    while text[value.value] == COMMA
      invariant ks != [] && child == Last(ks) && item.child == First(ks) && BuiltKids(ks)
      invariant fresh(BlocksOf(ks)) && alloc.live == old(alloc.live) + BlocksOf(ks) && fresh(child)
      invariant alloc.failures == old(alloc.failures)
      invariant value.Some? && i <= value.value < |text|
      invariant ItemsSoFar(whole, text, value.value, ks)
      decreases |text| - value.value
    {
      NextNotBeyond(whole, text, value.value, ks);
      var n, next;
      n, next, k := NextItem(alloc, child, text, value.value + 1, ks);
      if n == null {
        return;
      }
      if alloc.failures == old(alloc.failures) {
        ItemsNext(whole, text, value.value, next, ks, k);
      }
      ks := ks + [k];
      if next == None {
        return;
      }
      child, value := n, next;
    }
    ItemsEnd(whole, text, value.value, ks);
    if text[value.value] == RBRACKET {
      end := Some(value.value + 1);
    }
  }

  // ---------- the grammar's side of the loop ----------

  /** The whole list is what was read so far and what is still to come. */
  ghost predicate ItemsSoFar(whole: Parsed<seq<Json>>, text: seq<byte>, at: nat, ks: seq<Tree>) {
    && Terminated(text) && at < |text| && ViewedAll(ks) && !whole.Beyond?
    && whole == Prepend(Values(ks), AfterItem(text[at..]))
  }

  lemma NotBeyond(text: seq<byte>, i: nat)
    requires Terminated(text) && i < |text| && !JsonText.ParseItems(text[i..]).Beyond?
    ensures !JsonText.ParseValue(Skip(text[i..])).Beyond?
  {
    hide JsonText.ParseValue, Skip;
  }

  lemma ElementAdvances(text: seq<byte>, i: nat, value: Option<nat>, k: Tree)
    requires Terminated(text) && i < |text| && !JsonText.ParseValue(Skip(text[i..])).Beyond?
    requires AgreesElement(JsonText.ParseValue(Skip(text[i..])), text, value, k)
    ensures value.Some? ==> i < value.value < |text|
  {
    hide JsonText.ParseValue, Skip, Viewed, Value;
    if value.Some? {
      assert |text[value.value..]| < |text[i..]|;
    }
  }

  lemma ItemsStart(text: seq<byte>, i: nat, value: Option<nat>, k: Tree)
    requires Terminated(text) && i < |text| && !JsonText.ParseItems(text[i..]).Beyond?
    requires AgreesElement(JsonText.ParseValue(Skip(text[i..])), text, value, k)
    ensures value.None? ==> JsonText.ParseItems(text[i..]) == Bad && AgreesItems(Bad, text, None, [k])
    ensures value.Some? ==> i < value.value && ItemsSoFar(JsonText.ParseItems(text[i..]), text, value.value, [k])
  {
    hide JsonText.ParseValue, Skip, JsonText.ParseItems, AfterItem, Viewed, Value;
    ItemsUnfold(text[i..]);
    ElementAdvances(text, i, value, k);
    if value.Some? {
      FirstValue(k);
    }
  }

  lemma NextNotBeyond(whole: Parsed<seq<Json>>, text: seq<byte>, at: nat, ks: seq<Tree>)
    requires ItemsSoFar(whole, text, at, ks) && text[at] == COMMA
    ensures at + 1 < |text| && !JsonText.ParseValue(Skip(text[at + 1..])).Beyond?
  {
    hide JsonText.ParseItems, Values, Viewed;
    assert text[at..][1..] == text[at + 1..];
    NotBeyond(text, at + 1);
  }

  lemma ItemsNext(whole: Parsed<seq<Json>>, text: seq<byte>, at: nat, next: Option<nat>, ks: seq<Tree>, k: Tree)
    requires ItemsSoFar(whole, text, at, ks) && text[at] == COMMA && at + 1 < |text|
    requires AgreesElement(JsonText.ParseValue(Skip(text[at + 1..])), text, next, k)
    ensures next.None? ==> whole == Bad && AgreesItems(Bad, text, None, ks + [k])
    ensures next.Some? ==> at < next.value && ItemsSoFar(whole, text, next.value, ks + [k])
  {
    hide JsonText.ParseValue, Skip, JsonText.ParseItems, Values, Viewed, Value;
    assert text[at..][1..] == text[at + 1..];
    ItemsUnfold(text[at + 1..]);
    ElementAdvances(text, at + 1, next, k);
    if next.Some? {
      ValuesAppend(ks, k);
      Scan.PrependTwice(Values(ks), [Value(k)], AfterItem(text[next.value..]));
    }
  }

  lemma ItemsEnd(whole: Parsed<seq<Json>>, text: seq<byte>, at: nat, ks: seq<Tree>)
    requires ItemsSoFar(whole, text, at, ks) && text[at] != COMMA
    ensures AgreesItems(whole, text, if text[at] == RBRACKET then Some(at + 1) else None, ks)
    ensures text[at] == RBRACKET ==> at + 1 < |text|
  {
    hide JsonText.ParseItems, Values, Viewed;
    assert text[at..][1..] == text[at + 1..];
    assert Values(ks) + [] == Values(ks);
  }

  lemma FirstValue(k: Tree)
    requires Viewed(k)
    ensures ViewedAll([k]) && Values([k]) == [Value(k)] && Members([k]) == [Member(Content(k.name), Value(k))]
  {
    hide Value, Viewed;
  }

  // ---------- objects ----------

  /** A name between blanks: where the text goes on behind it. */
  ghost predicate AgreesName(r: Parsed<seq<byte>>, text: seq<byte>, stop: Option<nat>, b: Str)
    requires r.Ok? ==> Terminated(r.rest)
  {
    match r
    case Ok(s, rest) => stop.Some? && stop.value < |text| && text[stop.value..] == Skip(rest) && Content(b) == Some(s)
    case Bad => stop.None?
    case Beyond => true
  }

  /** A member between blanks. */
  ghost predicate AgreesMember(r: Parsed<Member>, text: seq<byte>, value: Option<nat>, k: Tree)
    requires r.Ok? ==> Terminated(r.rest)
  {
    match r
    case Ok(m, rest) =>
      && value.Some? && value.value < |text| && text[value.value..] == Skip(rest)
      && Viewed(k) && Member(Content(k.name), Value(k)) == m
    case Bad => value.None?
    case Beyond => true
  }

  /** The name of a member: parse_string reads it as the text of the item, from where it is moved. */
  method ParseName(alloc: Allocator, child: Node, text: seq<byte>, i: nat) returns (stop: Option<nat>, ghost b: Str)
    requires Terminated(text) && i < |text| && !JsonText.ParseString(Skip(text[i..])).Beyond?
    requires child.text == null && child.name == null && !IsReference(child.kind)
    modifies alloc, child`text, child`kind, child`name
    ensures child.text == null && !IsReference(child.kind) && HoldsStr(child.name, b)
    ensures fresh(StrBlocks(b)) && alloc.live == old(alloc.live) + StrBlocks(b)
    ensures alloc.failures >= old(alloc.failures)
    ensures stop.Some? ==> alloc.failures == old(alloc.failures) && stop.value < |text|
    ensures alloc.failures == old(alloc.failures) ==> AgreesName(JsonText.ParseString(Skip(text[i..])), text, stop, b)
  {
    hide JsonText.ParseString, Skip, HoldsText;
    var j := Scan.SkipBlanks(text, i);
    var end;
    end, b := Scan.ParseString(alloc, child, text, j);
    stop := None;
    if end.Some? {
      var v := Scan.SkipBlanks(text, end.value);
      child.name := child.text;
      child.text := null;
      stop := Some(v);
    }
  }

  /** A name, a colon and a value between blanks, for an item of an object. */
  method ParseMember(alloc: Allocator, child: Node, text: seq<byte>, i: nat)
    returns (value: Option<nat>, ghost k: Tree)
    requires Terminated(text) && i < |text| && !JsonText.ParseMember(text[i..]).Beyond?
    requires child.text == null && child.child == null && !IsReference(child.kind) && child.name == null
    modifies alloc, child`kind, child`number, child`text, child`name, child`child
    ensures k.root == child && Built(k) && Blocks(k) == {child} + Body(k)
    ensures fresh(Body(k)) && alloc.live == old(alloc.live) + Body(k)
    ensures alloc.failures >= old(alloc.failures)
    ensures value.Some? ==> alloc.failures == old(alloc.failures) && value.value < |text|
    ensures alloc.failures == old(alloc.failures) ==> AgreesMember(JsonText.ParseMember(text[i..]), text, value, k)
    decreases |text| - i, 1
  {
    hide JsonText.ParseMember, JsonText.ParseValue, JsonText.ParseString, Skip, Holds, Separate, Owner, HoldsStr,
            Blocks, Body, BlocksOf, Value, Viewed, AgreesName, Payload;
    NameNotBeyond(text, i);
    value := None;
    var stop;
    ghost var b;
    stop, b := ParseName(alloc, child, text, i);
    assert allocated(StrBlocks(b));
    if alloc.failures == old(alloc.failures) {
      MemberCases(text, i, stop, b);
    }
    if stop.None? || text[stop.value] != COLON {
      k := Item(child, child.kind, child.number, NoStr, b, []);
      NoStrHolds();
      LeafHolds(k);
      NamedBlocks(k);
      NoPayload(k);
      return;
    }
    var w := Scan.SkipBlanks(text, stop.value + 1);
    var end;
    end, k := ParseValue(alloc, child, text, w, b);
    NamedBlocks(k);
    if end.Some? {
      var v := Scan.SkipBlanks(text, end.value);
      value := Some(v);
    }
  }

  lemma NamedBlocks(t: Tree)
    requires t.Item?
    ensures Body(t) == StrBlocks(t.name) + Payload(t) && Blocks(t) == {t.root} + Body(t)
  {
  }

  lemma NoPayload(t: Tree)
    requires t.Item? && t.kids == [] && t.text == NoStr
    ensures Payload(t) == {}
  {
    NoKids();
  }

  lemma NameNotBeyond(text: seq<byte>, i: nat)
    requires Terminated(text) && i < |text| && !JsonText.ParseMember(text[i..]).Beyond?
    ensures !JsonText.ParseString(Skip(text[i..])).Beyond?
  {
    hide JsonText.ParseString, Skip, JsonText.ParseValue;
  }

  /** The grammar of a member whose name has been read. */
  lemma MemberCases(text: seq<byte>, i: nat, stop: Option<nat>, b: Str)
    requires Terminated(text) && i < |text| && !JsonText.ParseMember(text[i..]).Beyond?
    requires AgreesName(JsonText.ParseString(Skip(text[i..])), text, stop, b)
    ensures stop.None? ==> JsonText.ParseMember(text[i..]) == Bad
    ensures stop.Some? ==> i < stop.value < |text|
    ensures stop.Some? && text[stop.value] != COLON ==> JsonText.ParseMember(text[i..]) == Bad
    ensures stop.Some? && text[stop.value] == COLON ==>
      && stop.value + 1 < |text|
      && JsonText.ParseMember(text[i..]) == match JsonText.ParseValue(Skip(text[stop.value + 1..]))
                                            case Bad => Bad
                                            case Beyond => Beyond
                                            case Ok(v, rest) => Ok(Member(Content(b), v), rest)
  {
    hide JsonText.ParseString, Skip, JsonText.ParseValue;
    NameNotBeyond(text, i);
    if stop.Some? {
      assert |text[stop.value..]| < |text[i..]|;
      assert text[stop.value..][1..] == text[stop.value + 1..];
    }
  }

  /** One more comma: a new item is linked in and filled with the member that follows. */
  method NextMember(alloc: Allocator, child: Node, text: seq<byte>, i: nat, ghost ks: seq<Tree>)
    returns (n: Node?, value: Option<nat>, ghost k: Tree)
    requires Terminated(text) && i < |text| && !JsonText.ParseMember(text[i..]).Beyond?
    requires ks != [] && child == Last(ks) && BuiltKids(ks)
    modifies alloc, child`next
    ensures alloc.failures >= old(alloc.failures)
    ensures value.Some? ==> n != null && alloc.failures == old(alloc.failures)
    ensures n == null ==> alloc.failures > old(alloc.failures) && BuiltKids(ks) && alloc.live == old(alloc.live)
    ensures n != null ==> BuiltKids(ks + [k]) && Last(ks + [k]) == n && First(ks + [k]) == First(ks)
    ensures n != null ==> BlocksOf(ks + [k]) == BlocksOf(ks) + Blocks(k) && fresh(Blocks(k))
    ensures n != null ==> alloc.live == old(alloc.live) + Blocks(k)
    ensures value.Some? ==> value.value < |text|
    ensures alloc.failures == old(alloc.failures) ==> AgreesMember(JsonText.ParseMember(text[i..]), text, value, k)
    decreases |text| - i, 2
  {
    hide JsonText.ParseMember, Skip, Holds, HoldsAll, Separate, Owner, Blocks, Body, BlocksOf, BodyOf,
            Linked, SeparateAll, OwnerAll, NextLinks, PrevLinks, Value, Viewed, AgreesMember;
    assert allocated(BlocksOf(ks)) && allocated(BodyOf(ks)) && allocated(Roots(ks));
    NotBlock(ks, alloc);
    RootsWithin(ks);
    BodiesWithin(ks);
    ghost var b;
    n, b := NewLinked(alloc, child, ks);
    value, k := None, b;
    if n != null {
      assert allocated(Roots(ks + [b]));
      value, k := ParseMember(alloc, n, text, i);
      ChainFilled(ks, b, k);
    }
  }

  /** The members of an object after its opening brace, one per comma. */
  method ParseMembers(alloc: Allocator, item: Node, text: seq<byte>, i: nat)
    returns (end: Option<nat>, ghost ks: seq<Tree>)
    requires Terminated(text) && i < |text| && !JsonText.ParseMembers(text[i..]).Beyond?
    requires item.child == null
    modifies alloc, item`child
    ensures item.child == First(ks) && BuiltKids(ks)
    ensures fresh(BlocksOf(ks)) && alloc.live == old(alloc.live) + BlocksOf(ks)
    ensures alloc.failures >= old(alloc.failures) && (end.Some? ==> alloc.failures == old(alloc.failures))
    ensures alloc.failures == old(alloc.failures) ==> AgreesMembers(JsonText.ParseMembers(text[i..]), text, end, ks)
    decreases |text| - i, 3
  {
    hide JsonText.ParseMembers, JsonText.ParseMember, Skip, Holds, Separate, Owner, Blocks, Body, BlocksOf, Linked,
            SeparateAll, OwnerAll, MembersSoFar, AgreesMembers, AgreesMember;
    ghost var whole := JsonText.ParseMembers(text[i..]);
    MemberNotBeyond(text, i);
    end, ks := None, [];
    NoKids();
    var child := alloc.NewItem();
    item.child := child;
    if child == null {
      return;
    }
    var value;
    ghost var k;
    value, k := ParseMember(alloc, child, text, i);
    ks := [k];
    FirstKid(k);
    if alloc.failures == old(alloc.failures) {
      MembersStart(text, i, value, k);
    }
    if value == None {
      return;
    }
    while text[value.value] == COMMA
      invariant ks != [] && child == Last(ks) && item.child == First(ks) && BuiltKids(ks)
      invariant fresh(BlocksOf(ks)) && alloc.live == old(alloc.live) + BlocksOf(ks) && fresh(child)
      invariant alloc.failures == old(alloc.failures)
      invariant value.Some? && i <= value.value < |text|
      invariant MembersSoFar(whole, text, value.value, ks)
      decreases |text| - value.value
    {
      NextMemberNotBeyond(whole, text, value.value, ks);
      var n, next;
      n, next, k := NextMember(alloc, child, text, value.value + 1, ks);
      if n == null {
        return;
      }
      if alloc.failures == old(alloc.failures) {
        MembersNext(whole, text, value.value, next, ks, k);
      }
      ks := ks + [k];
      if next == None {
        return;
      }
      child, value := n, next;
    }
    MembersEnd(whole, text, value.value, ks);
    if text[value.value] == RBRACE {
      end := Some(value.value + 1);
    }
  }

  /** What follows a member of an object. */
  function AfterMember(s: seq<byte>): Parsed<seq<Member>>
    requires Terminated(s)
  {
    if s[0] == COMMA then JsonText.ParseMembers(s[1..])
    else if s[0] == RBRACE then Ok([], s[1..])
    else Bad
  }

  lemma MembersUnfold(s: seq<byte>)
    requires Terminated(s)
    ensures JsonText.ParseMembers(s) == match JsonText.ParseMember(s)
                             case Bad => Bad
                             case Beyond => Beyond
                             case Ok(m, rest) => Prepend([m], AfterMember(Skip(rest)))
  {
    hide JsonText.ParseMember, Skip;
    var r := JsonText.ParseMember(s);
    if r.Ok? {
      assert [r.value] + [] == [r.value];
    }
  }

  /** The whole list is what was read so far and what is still to come. */
  ghost predicate MembersSoFar(whole: Parsed<seq<Member>>, text: seq<byte>, at: nat, ks: seq<Tree>) {
    && Terminated(text) && at < |text| && ViewedAll(ks) && !whole.Beyond?
    && whole == Prepend(Members(ks), AfterMember(text[at..]))
  }

  lemma MemberNotBeyond(text: seq<byte>, i: nat)
    requires Terminated(text) && i < |text| && !JsonText.ParseMembers(text[i..]).Beyond?
    ensures !JsonText.ParseMember(text[i..]).Beyond?
  {
    hide JsonText.ParseMember, Skip;
  }

  lemma MemberAdvances(text: seq<byte>, i: nat, value: Option<nat>, k: Tree)
    requires Terminated(text) && i < |text| && !JsonText.ParseMember(text[i..]).Beyond?
    requires AgreesMember(JsonText.ParseMember(text[i..]), text, value, k)
    ensures value.Some? ==> i < value.value < |text|
  {
    hide JsonText.ParseMember, Skip, Viewed, Value;
    if value.Some? {
      assert |text[value.value..]| < |text[i..]|;
    }
  }

  lemma MembersStart(text: seq<byte>, i: nat, value: Option<nat>, k: Tree)
    requires Terminated(text) && i < |text| && !JsonText.ParseMembers(text[i..]).Beyond?
    requires AgreesMember(JsonText.ParseMember(text[i..]), text, value, k)
    ensures value.None? ==> JsonText.ParseMembers(text[i..]) == Bad && AgreesMembers(Bad, text, None, [k])
    ensures value.Some? ==> i < value.value && MembersSoFar(JsonText.ParseMembers(text[i..]), text, value.value, [k])
  {
    hide JsonText.ParseMember, Skip, JsonText.ParseMembers, AfterMember, Viewed, Value;
    MembersUnfold(text[i..]);
    MemberAdvances(text, i, value, k);
    if value.Some? {
      FirstValue(k);
    }
  }

  lemma NextMemberNotBeyond(whole: Parsed<seq<Member>>, text: seq<byte>, at: nat, ks: seq<Tree>)
    requires MembersSoFar(whole, text, at, ks) && text[at] == COMMA
    ensures at + 1 < |text| && !JsonText.ParseMember(text[at + 1..]).Beyond?
  {
    hide JsonText.ParseMembers, Members, Viewed;
    assert text[at..][1..] == text[at + 1..];
    MemberNotBeyond(text, at + 1);
  }

  lemma MembersNext(whole: Parsed<seq<Member>>, text: seq<byte>, at: nat, next: Option<nat>, ks: seq<Tree>, k: Tree)
    requires MembersSoFar(whole, text, at, ks) && text[at] == COMMA && at + 1 < |text|
    requires AgreesMember(JsonText.ParseMember(text[at + 1..]), text, next, k)
    ensures next.None? ==> whole == Bad && AgreesMembers(Bad, text, None, ks + [k])
    ensures next.Some? ==> at < next.value && MembersSoFar(whole, text, next.value, ks + [k])
  {
    hide JsonText.ParseMember, Skip, JsonText.ParseMembers, Members, Viewed, Value;
    assert text[at..][1..] == text[at + 1..];
    MembersUnfold(text[at + 1..]);
    MemberAdvances(text, at + 1, next, k);
    if next.Some? {
      ValuesAppend(ks, k);
      Scan.PrependTwice(Members(ks), [Member(Content(k.name), Value(k))], AfterMember(text[next.value..]));
    }
  }

  lemma MembersEnd(whole: Parsed<seq<Member>>, text: seq<byte>, at: nat, ks: seq<Tree>)
    requires MembersSoFar(whole, text, at, ks) && text[at] != COMMA
    ensures AgreesMembers(whole, text, if text[at] == RBRACE then Some(at + 1) else None, ks)
    ensures text[at] == RBRACE ==> at + 1 < |text|
  {
    hide JsonText.ParseMembers, Members, Viewed;
    assert text[at..][1..] == text[at + 1..];
    assert Members(ks) + [] == Members(ks);
  }

  method ParseObject(alloc: Allocator, item: Node, text: seq<byte>, i: nat, ghost name: Str)
    returns (end: Option<nat>, ghost t: Tree)
    requires Terminated(text) && i < |text| && !JsonText.ParseValue(text[i..]).Beyond? && text[i] == LBRACE
    requires item.text == null && item.child == null && HoldsStr(item.name, name)
    modifies alloc, item`kind, item`number, item`text, item`child
    ensures t.root == item && t.name == name && Built(t)
    ensures fresh(Payload(t)) && alloc.live == old(alloc.live) + Payload(t)
    ensures alloc.failures >= old(alloc.failures) && (end.Some? ==> alloc.failures == old(alloc.failures))
    ensures alloc.failures == old(alloc.failures) ==> Agrees(JsonText.ParseValue(text[i..]), text, end, t)
    decreases |text| - i - 1, 4
  {
    hide JsonText.ParseValue, Skip, JsonText.ParseMembers, HoldsStr, Holds, Separate, Owner, Linked, SeparateAll,
            OwnerAll, Blocks, Body, BlocksOf, Members, ViewedAll, Value, Viewed, Agrees, AgreesMembers;
    assert allocated(StrBlocks(name));
    BracketValue(text, i);
    NoStrHolds();
    NoKids();
    item.kind := OBJECT_KIND;
    ghost var ks := [];
    var v := Scan.SkipBlanks(text, i + 1);
    ObjectCases(text, i, v);
    if text[v] == RBRACE {
      end := Some(v + 1);
    } else {
      end, ks := ParseMembers(alloc, item, text, v);
    }
    t := Item(item, OBJECT_KIND, item.number, NoStr, name, ks);
    TreeBuilt(t);
    if alloc.failures == old(alloc.failures) {
      ObjectAgrees(text, i, v, end, t);
    }
  }

  /** The grammar at an opening brace, after which the first byte that is no blank is at `v`. */
  lemma ObjectCases(text: seq<byte>, i: nat, v: nat)
    requires Terminated(text) && i < v < |text| && text[i] == LBRACE && text[v..] == Skip(text[i + 1..])
    ensures text[v] != RBRACE ==>
      (JsonText.ParseMembers(text[v..]).Beyond? ==> JsonText.ParseValue(text[i..]).Beyond?)
  {
    hide JsonText.ParseMembers, Skip, JsonText.ParseValue;
    BracketValue(text, i);
  }

  lemma ObjectAgrees(text: seq<byte>, i: nat, v: nat, end: Option<nat>, t: Tree)
    requires Terminated(text) && i < v < |text| && text[i] == LBRACE && text[v..] == Skip(text[i + 1..])
    requires t.Item? && t.kind == OBJECT_KIND
    requires if text[v] == RBRACE then end == Some(v + 1) && t.kids == []
             else AgreesMembers(JsonText.ParseMembers(text[v..]), text, end, t.kids)
    ensures Agrees(JsonText.ParseValue(text[i..]), text, end, t)
  {
    hide JsonText.ParseMembers, Skip, JsonText.ParseValue, Values, Members;
    BracketValue(text, i);
    assert text[v..][1..] == text[v + 1..];
    if t.kids == [] {
      assert Members(t.kids) == [];
    }
  }

  // ---------- whole texts ----------

  /** Fills the root item and finds the end of the text that was used. */
  method ParseRoot(alloc: Allocator, c: Node, value: Option<seq<byte>>, strict: bool)
    returns (end: Option<nat>, ghost t: Tree)
    requires value.Some? ==> Terminated(value.value) && !JsonText.ParseValue(Skip(value.value)).Beyond?
    requires c.text == null && c.child == null && !IsReference(c.kind) && c.name == null
    modifies alloc, c`kind, c`number, c`text, c`child
    ensures t.root == c && Built(t) && Blocks(t) == {c} + Body(t)
    ensures fresh(Body(t)) && alloc.live == old(alloc.live) + Body(t)
    ensures alloc.failures >= old(alloc.failures)
    ensures end.Some? ==> alloc.failures == old(alloc.failures) && value.Some?
    ensures alloc.failures == old(alloc.failures) && value.Some? ==>
      Agrees(JsonText.ParseText(value.value, strict), value.value, end, t)
  {
    hide JsonText.ParseValue, Skip, Holds, Separate, Owner, HoldsStr, Blocks, Body, Payload, Value, Viewed;
    NoStrHolds();
    if value.None? {
      t := Item(c, c.kind, c.number, NoStr, NoStr, []);
      LeafHolds(t);
      NamedBlocks(t);
      NoPayload(t);
      return None, t;
    }
    var text := value.value;
    assert text[0..] == text;
    var i := Scan.SkipBlanks(text, 0);
    end, t := ParseValue(alloc, c, text, i, NoStr);
    NamedBlocks(t);
    if end.Some? && strict {
      var v := Scan.SkipBlanks(text, end.value);
      end := if text[v] != 0 then None else Some(v);
    }
  }

  /** cJSON_ParseWithOpts.  Null exactly when there is no text, memory ran out, or the grammar rejects it;
      then nothing stays allocated.  Otherwise the tree is all that was allocated. */
  method ParseWithOpts(alloc: Allocator, value: Option<seq<byte>>, requireNullTerminated: bool)
    returns (c: Node?, end: nat, ghost tree: Option<Tree>)
    requires value.Some? ==> Terminated(value.value) && !JsonText.ParseValue(Skip(value.value)).Beyond?
    modifies alloc
    ensures alloc.failures >= old(alloc.failures)
    ensures c == null ==> alloc.live == old(alloc.live)
    ensures c == null <==>
      alloc.failures > old(alloc.failures) || value.None? || JsonText.ParseText(value.value, requireNullTerminated).Bad?
    ensures c != null ==> tree.Some? && Yields(c, tree.value, value.value, requireNullTerminated, end)
    ensures c != null ==> fresh(Blocks(tree.value)) && alloc.live == old(alloc.live) + Blocks(tree.value)
  {
    hide JsonText.ParseValue, Skip, Holds, Separate, Owner, HoldsStr, Blocks, Body, Value, Viewed;
    c := alloc.NewItem();
    end, tree := 0, None;
    if c == null {
      return;
    }
    var e;
    ghost var t;
    e, t := ParseRoot(alloc, c, value, requireNullTerminated);
    NotAllocator(t, alloc);
    tree := Some(t);
    if e.None? {
      CJsonDelete.DeleteTree(alloc, c, t);
      c := null;
    } else {
      end := e.value;
    }
  }

  /** `c` heads a tree of its own that stands for what the text says up to `end`. */
  ghost predicate Yields(c: Node, t: Tree, text: seq<byte>, strict: bool, end: nat)
    reads Blocks(t)
    requires Terminated(text)
  {
    && c == t.root && Detached(t) && Viewed(t) && end < |text|
    && JsonText.ParseText(text, strict) == Ok(Value(t), text[end..])
  }
}
