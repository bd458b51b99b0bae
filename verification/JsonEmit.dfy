/** Printing in front of a tail: the printer's text and what follows it, built from small pieces.
    Proofs about text run along these functions; EmitIsPrint ties them to the printer's text. */
module JsonEmit {
  import opened Bytes
  import opened JsonText

  function EmitText(t: Option<seq<byte>>, tail: seq<byte>): seq<byte> {
    match t
    case None => tail
    case Some(x) => [QUOTE] + EmitEscaped(x, [QUOTE] + tail)
  }

  function EmitEscaped(x: seq<byte>, tail: seq<byte>): seq<byte> {
    if x == [] then tail else EscapeByte(x[0]) + EmitEscaped(x[1..], tail)
  }

  function EmitIf(fmt: bool, w: seq<byte>, tail: seq<byte>): seq<byte> {
    if fmt then w + tail else tail
  }

  function Emit(v: Json, depth: nat, fmt: bool, tail: seq<byte>): seq<byte>
    decreases v, 1
  {
    match v
    case Unknown => tail
    case Null => NULL_TEXT + tail
    case False => FALSE_TEXT + tail
    case True => TRUE_TEXT + tail
    case Number(n) => PrintInt(n) + tail
    case String(t) => EmitText(t, tail)
    case Array(items) => [LBRACKET] + EmitItems(items, depth + 1, fmt, [RBRACKET] + tail)
    case Object(members) => [LBRACE] + EmitIf(fmt, [NEWLINE], EmitBody(members, depth, fmt, [RBRACE] + tail))
  }

  /** An object between its braces, after the line end. */
  function EmitBody(members: seq<Member>, depth: nat, fmt: bool, close: seq<byte>): seq<byte>
    decreases members, 2
  {
    if members == [] then EmitIf(fmt, Tabs(depth - 1), close)
    else EmitMembers(members, depth + 1, fmt, EmitIf(fmt, Tabs(depth), close))
  }

  function EmitItems(items: seq<Json>, depth: nat, fmt: bool, tail: seq<byte>): seq<byte>
    decreases items, 1
  {
    if items == [] then tail else Emit(items[0], depth, fmt, EmitMoreItems(items, depth, fmt, tail))
  }

  /** What follows the first item. */
  function EmitMoreItems(items: seq<Json>, depth: nat, fmt: bool, tail: seq<byte>): seq<byte>
    requires items != []
    decreases items, 0
  {
    if |items| == 1 then tail
    else [COMMA] + EmitIf(fmt, [SPACE], EmitItems(items[1..], depth, fmt, tail))
  }

  function EmitMembers(members: seq<Member>, depth: nat, fmt: bool, tail: seq<byte>): seq<byte>
    decreases members, 1
  {
    if members == [] then tail
    else EmitIf(fmt, Tabs(depth), EmitMember(members[0], depth, fmt, EmitMoreMembers(members, depth, fmt, tail)))
  }

  function EmitMember(m: Member, depth: nat, fmt: bool, tail: seq<byte>): seq<byte>
    decreases m, 0
  {
    EmitText(m.name, [COLON] + EmitIf(fmt, [TAB], Emit(m.value, depth, fmt, tail)))
  }

  /** What follows the first member. */
  function EmitMoreMembers(members: seq<Member>, depth: nat, fmt: bool, tail: seq<byte>): seq<byte>
    requires members != []
    decreases members, 0
  {
    if |members| == 1 then EmitIf(fmt, [NEWLINE], tail)
    else [COMMA] + EmitIf(fmt, [NEWLINE], EmitMembers(members[1..], depth, fmt, tail))
  }

  // ---------- the tail is a tail ----------

  lemma Assoc<T>(a: seq<T>, b: seq<T>, c: seq<T>)
    ensures (a + b) + c == a + (b + c)
  {
  }

  lemma EmitTextIsPrint(t: Option<seq<byte>>, tail: seq<byte>)
    ensures EmitText(t, tail) == PrintText(t) + tail
  {
    if t.Some? {
      hide EscapeAll, EmitEscaped;
      EmitEscapedIsPrint(t.value, [QUOTE] + tail);
      Assoc([QUOTE] + EscapeAll(t.value), [QUOTE], tail);
      Assoc([QUOTE], EscapeAll(t.value), [QUOTE] + tail);
    }
  }

  lemma {:induction false} EmitEscapedIsPrint(x: seq<byte>, tail: seq<byte>)
    ensures EmitEscaped(x, tail) == EscapeAll(x) + tail
  {
    if x != [] {
      EmitEscapedIsPrint(x[1..], tail);
      Assoc(EscapeByte(x[0]), EscapeAll(x[1..]), tail);
    }
  }

  lemma {:induction false} EmitIsPrint(v: Json, depth: nat, fmt: bool, tail: seq<byte>)
    ensures Emit(v, depth, fmt, tail) == Print(v, depth, fmt) + tail
    decreases v, 1
  {
    hide PrintItems, EmitItems, EmitBody, PrintMembers, PrintText, EmitText, PrintInt, Tabs;
    match v
    case String(t) => EmitTextIsPrint(t, tail);
    case Array(items) =>
      var text := PrintItems(items, depth + 1, fmt);
      EmitItemsIsPrint(items, depth + 1, fmt, [RBRACKET] + tail);
      Assoc([LBRACKET] + text, [RBRACKET], tail);
      Assoc([LBRACKET], text, [RBRACKET] + tail);
    case Object(members) => EmitObjectIsPrint(members, depth, fmt, tail);
    case _ =>
  }

  lemma {:induction false} EmitItemsIsPrint(items: seq<Json>, depth: nat, fmt: bool, tail: seq<byte>)
    ensures EmitItems(items, depth, fmt, tail) == PrintItems(items, depth, fmt) + tail
    decreases items, 0
  {
    if items != [] {
      EmitIsPrint(items[0], depth, fmt, EmitMoreItems(items, depth, fmt, tail));
      if |items| > 1 {
        var more := PrintItems(items[1..], depth, fmt);
        EmitItemsIsPrint(items[1..], depth, fmt, tail);
        assert EmitMoreItems(items, depth, fmt, tail) == ItemSeparator(fmt) + (more + tail);
        Assoc(ItemSeparator(fmt), more, tail);
        Assoc(Print(items[0], depth, fmt), ItemSeparator(fmt) + more, tail);
      }
    }
  }

  lemma {:induction false} EmitObjectIsPrint(members: seq<Member>, depth: nat, fmt: bool, tail: seq<byte>)
    ensures Emit(Object(members), depth, fmt, tail) == Print(Object(members), depth, fmt) + tail
    decreases members, 1
  {
    hide PrintMembers, EmitMembers, Tabs;
    var close := [RBRACE] + tail;
    if members == [] {
      assert Print(Object(members), depth, fmt) + tail
          == [LBRACE] + EmitIf(fmt, [NEWLINE], EmitIf(fmt, Tabs(depth - 1), close));
    } else {
      var body := PrintMembers(members, depth + 1, fmt);
      var end := EmitIf(fmt, Tabs(depth), close);
      EmitMembersIsPrint(members, depth + 1, fmt, end);
      var front := [LBRACE] + (if fmt then [NEWLINE] else []);
      var back := (if fmt then Tabs(depth) else []) + [RBRACE];
      assert Print(Object(members), depth, fmt) == front + body + back;
      assert back + tail == end;
      Assoc(front + body, back, tail);
      Assoc(front, body, end);
      assert front + (body + end) == [LBRACE] + EmitIf(fmt, [NEWLINE], body + end);
    }
  }

  lemma {:induction false} EmitMembersIsPrint(members: seq<Member>, depth: nat, fmt: bool, tail: seq<byte>)
    ensures EmitMembers(members, depth, fmt, tail) == PrintMembers(members, depth, fmt) + tail
    decreases members, 0
  {
    if members != [] {
      var first := PrintMember(members[0], depth, fmt);
      var end := MemberEnd(|members| == 1, fmt);
      var more := PrintMembers(members[1..], depth, fmt);
      hide PrintMember, EmitMember, Tabs;
      EmitMembersIsPrint(members[1..], depth, fmt, tail);
      assert EmitMoreMembers(members, depth, fmt, tail) == end + (more + tail);
      EmitMemberIsPrint(members[0], depth, fmt, end + (more + tail));
      Assoc(first + end, more, tail);
      Assoc(first, end, more + tail);
    }
  }

  lemma EmitMemberIsPrint(m: Member, depth: nat, fmt: bool, tail: seq<byte>)
    ensures EmitIf(fmt, Tabs(depth), EmitMember(m, depth, fmt, tail)) == PrintMember(m, depth, fmt) + tail
    decreases m, 0
  {
    var w := if fmt then Tabs(depth) else [];
    var name := PrintText(m.name);
    var colon := [COLON] + (if fmt then [TAB] else []);
    var value := Print(m.value, depth, fmt);
    EmitIsPrint(m.value, depth, fmt, tail);
    assert [COLON] + EmitIf(fmt, [TAB], value + tail) == colon + (value + tail);
    EmitTextIsPrint(m.name, colon + (value + tail));
    PrintMemberParts(m, depth, fmt, w, colon);
    Assoc(w + name + colon, value, tail);
    Assoc(w + name, colon, value + tail);
    Assoc(w, name, colon + (value + tail));
  }

  lemma PrintMemberParts(m: Member, depth: nat, fmt: bool, w: seq<byte>, colon: seq<byte>)
    requires w == if fmt then Tabs(depth) else []
    requires colon == [COLON] + if fmt then [TAB] else []
    ensures PrintMember(m, depth, fmt) == w + PrintText(m.name) + colon + Print(m.value, depth, fmt)
  {
    Assoc(w + PrintText(m.name), [COLON], if fmt then [TAB] else []);
  }
}
