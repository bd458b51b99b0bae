/** The printer measures before it writes: how much it asks malloc for, and whether that is enough. */
module CJsonRoom {
  import opened Bytes
  import opened JsonText
  import JsonLaws
  import CJsonPrintScalar

  /** The size that print_value asks malloc for to hold the text of `v`. */
  function Room(v: Json, depth: nat, fmt: bool): nat {
    match v
    case Unknown => 0
    case Null => 5
    case False => 6
    case True => 5
    case Number(_) => 21
    case String(t) => |PrintText(t)| + 1
    case Array(items) => if items == [] then 3 else 5 + ItemsRoom(items, depth + 1, fmt)
    case Object(members) =>
      if members == [] then (if fmt then depth + 3 else 3)
      else 7 + (if fmt then depth + 1 else 0) + MembersRoom(members, depth + 1, fmt)
  }

  /** What the measuring loop of print_array adds up. */
  function ItemsRoom(items: seq<Json>, depth: nat, fmt: bool): nat {
    if items == [] then 0
    else |Print(items[0], depth, fmt)| + 2 + (if fmt then 1 else 0) + ItemsRoom(items[1..], depth, fmt)
  }

  /** What the measuring loop of print_object adds up. */
  function MembersRoom(members: seq<Member>, depth: nat, fmt: bool): nat {
    if members == [] then 0
    else
      |Print(members[0].value, depth, fmt)| + |PrintText(members[0].name)| + 2 + (if fmt then 2 + depth else 0)
      + MembersRoom(members[1..], depth, fmt)
  }

  /** The one case in which the text is longer than the block: the formatted empty object at depth 0. */
  predicate Overruns(v: Json, depth: nat, fmt: bool) {
    v == Object([]) && fmt && depth == 0
  }

  /** The text and its terminator fit into what was asked for exactly when it is not that case. */
  lemma TextFits(v: Json, depth: nat, fmt: bool)
    requires Known(v) && (v.Number? ==> IsInt32(v.n))
    ensures |Print(v, depth, fmt)| + 1 <= Room(v, depth, fmt) <==> !Overruns(v, depth, fmt)
  {
    match v
    case Number(n) => CJsonPrintScalar.IntFits(n);
    case Array(items) =>
      if items != [] {
        ItemsFit(items, depth + 1, fmt);
      }
    case Object(members) =>
      if members != [] {
        MembersFit(members, depth + 1, fmt);
      }
    case _ =>
  }

  /** What is asked for beyond the text and its terminator. */
  lemma RoomBeyondText(v: Json, depth: nat, fmt: bool)
    requires Known(v)
    ensures v.Number? ==> Room(v, depth, fmt) == 21
    ensures v.Null? || v.False? || v.True? || v.String? ==> Room(v, depth, fmt) == |Print(v, depth, fmt)| + 1
    ensures v.Array? ==>
      Room(v, depth, fmt) == |Print(v, depth, fmt)| + 1
                             + if v.items == [] then 0 else 3 + |v.items| + (if fmt then 1 else 0)
    ensures v.Object? && v.members != [] ==> Room(v, depth, fmt) == |Print(v, depth, fmt)| + 6
    ensures v == Object([]) && !Overruns(v, depth, fmt) ==> Room(v, depth, fmt) == |Print(v, depth, fmt)| + 1
  {
    match v
    case Array(items) =>
      if items != [] {
        ItemsBeyond(items, depth + 1, fmt);
      }
    case Object(members) =>
      if members != [] {
        MembersBeyond(members, depth + 1, fmt);
      }
    case _ =>
  }

  lemma {:induction false} ItemsBeyond(items: seq<Json>, depth: nat, fmt: bool)
    requires items != []
    ensures ItemsRoom(items, depth, fmt)
         == |PrintItems(items, depth, fmt)| + |items| + 1 + (if fmt then 1 else 0)
  {
    hide Print;
    if |items| > 1 {
      ItemsBeyond(items[1..], depth, fmt);
    }
  }

  lemma {:induction false} MembersBeyond(members: seq<Member>, depth: nat, fmt: bool)
    requires members != []
    ensures MembersRoom(members, depth, fmt) == |PrintMembers(members, depth, fmt)| + 1
  {
    hide Print, PrintText;
    if |members| > 1 {
      MembersBeyond(members[1..], depth, fmt);
    }
  }

  /** cJSON_Print of an object without members asks for three bytes and writes four. */
  lemma EmptyObjectOverruns()
    ensures Print(Object([]), 0, true) == [LBRACE, NEWLINE, RBRACE]
    ensures Room(Object([]), 0, true) == 3
  {
  }

  lemma {:induction false} ItemsFit(items: seq<Json>, depth: nat, fmt: bool)
    requires items != []
    ensures |PrintItems(items, depth, fmt)| < ItemsRoom(items, depth, fmt)
  {
    if |items| > 1 {
      ItemsFit(items[1..], depth, fmt);
    }
  }

  lemma {:induction false} MembersFit(members: seq<Member>, depth: nat, fmt: bool)
    requires members != []
    ensures |PrintMembers(members, depth, fmt)| <= MembersRoom(members, depth, fmt)
  {
    if |members| > 1 {
      MembersFit(members[1..], depth, fmt);
    }
  }

  // ---------- one step of the loops ----------

  lemma ItemsStep(items: seq<Json>, i: nat, depth: nat, fmt: bool)
    requires i < |items|
    ensures ItemsRoom(items[i..], depth, fmt)
         == |Print(items[i], depth, fmt)| + 2 + (if fmt then 1 else 0) + ItemsRoom(items[i + 1..], depth, fmt)
    ensures PrintItems(items[i..], depth, fmt)
         == Print(items[i], depth, fmt) + ItemEnd(i + 1 == |items|, fmt) + PrintItems(items[i + 1..], depth, fmt)
  {
    hide Print;
    assert items[i..][1..] == items[i + 1..];
  }

  function ItemEnd(last: bool, fmt: bool): (s: seq<byte>)
  {
    if last then [] else ItemSeparator(fmt)
  }

  lemma MembersStep(members: seq<Member>, i: nat, depth: nat, fmt: bool)
    requires i < |members|
    ensures MembersRoom(members[i..], depth, fmt)
         == |Print(members[i].value, depth, fmt)| + |PrintText(members[i].name)| + 2 + (if fmt then 2 + depth else 0)
            + MembersRoom(members[i + 1..], depth, fmt)
    ensures PrintMembers(members[i..], depth, fmt)
         == PrintMember(members[i], depth, fmt) + MemberEnd(i + 1 == |members|, fmt)
            + PrintMembers(members[i + 1..], depth, fmt)
  {
    hide PrintMember, Print, PrintText, MemberEnd;
    assert members[i..][1..] == members[i + 1..];
  }
}
