/** Parsing what was printed gives the printed value back, and stops exactly behind it. */
module JsonRoundTrip {
  import opened Bytes
  import opened JsonText
  import opened JsonEmit
  import Utf8

  /** Text that cannot be read as the rest of a number. */
  predicate EndsNumber(s: seq<byte>)
    requires Terminated(s)
  {
    !IsDigit(s[0]) && !NumberGoesOn(s)
  }

  lemma {:induction false} ReadPrintedNat(n: nat, rest: seq<byte>)
    requires Terminated(rest)
    ensures Terminated(PrintNat(n) + rest)
    ensures ReadDigits(PrintNat(n) + rest, 0) == ReadDigits(rest, n)
  {
    if n < 10 {
      assert (PrintNat(n) + rest)[1..] == rest;
    } else {
      var last: byte := 48 + n % 10;
      assert PrintNat(n) + rest == PrintNat(n / 10) + ([last] + rest);
      ReadPrintedNat(n / 10, [last] + rest);
      assert ([last] + rest)[1..] == rest;
    }
  }

  lemma ReadDigitsStop(rest: seq<byte>, n: nat)
    requires Terminated(rest) && !IsDigit(rest[0])
    ensures ReadDigits(rest, n) == (n, rest)
  {
  }

  function Signed(neg: bool, m: nat): int {
    if neg then -(m as int) else m
  }

  function Sign(neg: bool, s: seq<byte>): seq<byte> {
    if neg then [MINUS] + s else s
  }

  lemma ParseNumberText(neg: bool, digits: seq<byte>, m: nat, rest: seq<byte>)
    requires digits != [] && IsDigit(digits[0]) && Terminated(rest) && EndsNumber(rest)
    requires if m == 0 then digits == [ZERO] else digits[0] != ZERO && ReadDigits(digits + rest, 0) == (m, rest)
    requires IsInt32(Signed(neg, m))
    ensures ParseNumber(Sign(neg, digits + rest)) == Ok(Number(Signed(neg, m)), rest)
  {
    var s1 := digits + rest;
    assert Sign(true, s1)[1..] == s1;
    if m == 0 {
      assert s1[1..] == rest;
    }
  }

  lemma PrintedZero(m: nat)
    ensures m == 0 ==> PrintNat(m) == [ZERO]
  {
  }

  lemma ParsePrintedInt(n: int, rest: seq<byte>)
    requires IsInt32(n) && Terminated(rest) && EndsNumber(rest)
    ensures Terminated(PrintInt(n) + rest)
    ensures ParseNumber(PrintInt(n) + rest) == Ok(Number(n), rest)
  {
    hide ReadDigits, ParseNumber, PrintNat;
    var m: nat := if n < 0 then -n else n;
    var digits := PrintNat(m);
    ReadPrintedNat(m, rest);
    PrintedZero(m);
    ReadDigitsStop(rest, m);
    ParseNumberText(n < 0, digits, m, rest);
    assert PrintInt(n) + rest == Sign(n < 0, digits + rest);
  }

  lemma ReadHexEscape(b: byte, t: seq<byte>)
    requires 0 < b < 32 && Terminated(t)
    ensures ReadEscape([BACKSLASH, 117] + PrintHex4(b) + t) == Reads([b], 6)
  {
    var h := PrintHex4(b);
    hide PrintHex4, HexValue, IsHexDigit;
    var s := [BACKSLASH, 117] + h + t;
    var d := s[2..];
    assert d[0] == h[0] && d[1] == h[1] && d[2] == h[2] && d[3] == h[3];
    assert Hex4(d) && Hex4Value(d) == Hex4Value(h) == b;
  }

  /** Reading back one escaped byte. */
  lemma ReadEscapedByte(b: byte, t: seq<byte>)
    requires b != 0 && Terminated(t)
    ensures Terminated(EscapeByte(b) + t)
    ensures ReadString(EscapeByte(b) + t) == Prepend([b], ReadString(t))
  {
    var e := EscapeByte(b);
    var s := e + t;
    assert s[|e|..] == t;
    if b > 31 && b != QUOTE && b != BACKSLASH {
      assert s[0] == b;
    } else if |e| == 2 {
      assert s[1] == e[1];
      assert ReadEscape(s) == Reads([b], 2);
    } else {
      ReadHexEscape(b, t);
      assert e == [BACKSLASH, 117] + PrintHex4(b);
    }
  }

  lemma {:induction false} ReadEscapedText(x: seq<byte>, tail: seq<byte>)
    requires NulFree(x) && Terminated(tail)
    ensures Terminated(EmitEscaped(x, [QUOTE] + tail))
    ensures ReadString(EmitEscaped(x, [QUOTE] + tail)) == Ok(x, tail)
  {
    if x == [] {
      assert ([QUOTE] + tail)[1..] == tail;
    } else {
      ReadEscapedText(x[1..], tail);
      ReadEscapedByte(x[0], EmitEscaped(x[1..], [QUOTE] + tail));
      assert [x[0]] + x[1..] == x;
    }
  }

  lemma ParseEmittedText(x: seq<byte>, tail: seq<byte>)
    requires NulFree(x) && Terminated(tail)
    ensures Terminated(EmitText(Some(x), tail)) && EmitText(Some(x), tail)[0] == QUOTE
    ensures ParseString(EmitText(Some(x), tail)) == Ok(x, tail)
  {
    ReadEscapedText(x, tail);
    var t := EmitEscaped(x, [QUOTE] + tail);
    assert ([QUOTE] + t)[1..] == t;
  }

  predicate Blank(w: seq<byte>) {
    forall i :: 0 <= i < |w| ==> IsSpace(w[i])
  }

  /** Tabs, spaces and line ends are skipped. */
  lemma {:induction false} SkipBlank(w: seq<byte>, t: seq<byte>)
    requires Terminated(t) && Blank(w)
    ensures Terminated(w + t) && Skip(w + t) == Skip(t)
  {
    if w == [] {
      assert w + t == t;
    } else {
      assert (w + t)[1..] == w[1..] + t;
      SkipBlank(w[1..], t);
    }
  }

  lemma SkipNothing(t: seq<byte>)
    requires Terminated(t) && !IsSpace(t[0])
    ensures Skip(t) == t
  {
  }

  lemma SkipEmitIf(fmt: bool, w: seq<byte>, t: seq<byte>)
    requires Terminated(t) && Blank(w)
    ensures Terminated(EmitIf(fmt, w, t)) && Skip(EmitIf(fmt, w, t)) == Skip(t)
  {
    SkipBlank(w, t);
  }

  /** What a byte of text after its front can be: not blank, not a closing bracket. */
  predicate Opens(s: seq<byte>) {
    Terminated(s) && !IsSpace(s[0]) && s[0] != RBRACKET && s[0] != RBRACE
  }

  lemma ParseWord(v: Json, w: seq<byte>, rest: seq<byte>)
    requires (v, w) in {(Null, NULL_TEXT), (False, FALSE_TEXT), (True, TRUE_TEXT)}
    requires Terminated(rest)
    ensures Opens(w + rest) && ParseValue(w + rest) == Ok(v, rest)
  {
    var s := w + rest;
    assert s[|w|..] == rest && StartsWith(s, w);
    assert s[0] == w[0];
  }

  lemma NoWordHere(s: seq<byte>)
    requires s != [] && s[0] !in {102, 110, 116}
    ensures !StartsWith(s, NULL_TEXT) && !StartsWith(s, FALSE_TEXT) && !StartsWith(s, TRUE_TEXT)
  {
  }

  lemma ParseBracket(t: seq<byte>)
    requires Terminated(t)
    ensures ParseValue([LBRACKET] + t) == ParseArray(t)
    ensures ParseValue([LBRACE] + t) == ParseObject(t)
  {
    hide ParseArray, ParseObject, ParseNumber, ParseString, StartsWith;
    assert ([LBRACKET] + t)[1..] == t && ([LBRACE] + t)[1..] == t;
    NoWordHere([LBRACKET] + t);
    NoWordHere([LBRACE] + t);
  }

  /** The parser, value by value: any value, any depth, formatted or not, before any text
      that does not run on from a number. */
  lemma {:induction false} ParseEmit(v: Json, depth: nat, fmt: bool, tail: seq<byte>)
    requires Printable(v) && Terminated(tail) && EndsNumber(tail)
    ensures Opens(Emit(v, depth, fmt, tail))
    ensures ParseValue(Emit(v, depth, fmt, tail)) == Ok(v, tail)
    decreases v, 1
  {
    match v
    case Null => ParseWord(v, NULL_TEXT, tail);
    case False => ParseWord(v, FALSE_TEXT, tail);
    case True => ParseWord(v, TRUE_TEXT, tail);
    case Number(n) => ParsePrintedInt(n, tail);
    case String(t) => ParseEmittedText(t.value, tail);
    case Array(items) => ParseEmittedArray(items, depth, fmt, tail);
    case Object(members) => ParseEmittedObject(members, depth, fmt, tail);
  }

  // ---------- arrays ----------

  lemma EmitNoItems(depth: nat, fmt: bool, tail: seq<byte>)
    ensures EmitItems([], depth, fmt, tail) == tail
  {
  }

  lemma ParseEmittedArray(items: seq<Json>, depth: nat, fmt: bool, tail: seq<byte>)
    requires (forall x | x in items :: Printable(x)) && Terminated(tail)
    ensures Opens(Emit(Array(items), depth, fmt, tail))
    ensures ParseValue(Emit(Array(items), depth, fmt, tail)) == Ok(Array(items), tail)
    decreases items, 2
  {
    hide ParseItems, ParseValue, Printable, EmitItems, Skip;
    var t := EmitItems(items, depth + 1, fmt, [RBRACKET] + tail);
    SkipNothing([RBRACKET] + tail);
    if items == [] {
      EmitNoItems(depth + 1, fmt, [RBRACKET] + tail);
      assert t[1..] == tail;
    } else {
      ParseEmittedItems(items, depth + 1, fmt, tail);
      SkipNothing(t);
    }
    ParseBracket(t);
  }

  /** The parser's step from one item to the next, on any text. */
  lemma ParseOneItem(s: seq<byte>, v: Json, after: seq<byte>, more: seq<byte>, vs: seq<Json>, tail: seq<byte>)
    requires Terminated(s) && !IsSpace(s[0]) && Terminated(after) && Terminated(more)
    requires after[0] == COMMA && Skip(after[1..]) == Skip(more)
    requires ParseValue(s) == Ok(v, after)
    requires ParseItems(more) == Ok(vs, tail)
    ensures ParseItems(s) == Ok([v] + vs, tail)
  {
    hide ParseValue, Skip;
    SkipNothing(s);
    SkipNothing(after);
    ItemsAfterBlanks(after[1..], more);
  }

  lemma ParseLastItem(s: seq<byte>, v: Json, tail: seq<byte>)
    requires Terminated(s) && !IsSpace(s[0]) && Terminated(tail)
    requires ParseValue(s) == Ok(v, [RBRACKET] + tail)
    ensures ParseItems(s) == Ok([v], tail)
  {
    assert ([RBRACKET] + tail)[1..] == tail;
  }

  /** Blanks in front of an item change nothing. */
  lemma ItemsAfterBlanks(s: seq<byte>, t: seq<byte>)
    requires Terminated(s) && Terminated(t) && Skip(s) == Skip(t)
    ensures ParseItems(s) == ParseItems(t)
  {
  }

  lemma {:induction false} ParseEmittedItems(items: seq<Json>, depth: nat, fmt: bool, tail: seq<byte>)
    requires items != [] && (forall x | x in items :: Printable(x)) && Terminated(tail)
    ensures Opens(EmitItems(items, depth, fmt, [RBRACKET] + tail))
    ensures ParseItems(EmitItems(items, depth, fmt, [RBRACKET] + tail)) == Ok(items, tail)
    decreases items, 1
  {
    hide Skip, ParseItems, ParseValue, Printable, Emit;
    var close := [RBRACKET] + tail;
    var after := EmitMoreItems(items, depth, fmt, close);
    var s := Emit(items[0], depth, fmt, after);
    if |items| == 1 {
      ParseEmit(items[0], depth, fmt, after);
      ParseLastItem(s, items[0], tail);
      assert [items[0]] == items;
    } else {
      var more := EmitItems(items[1..], depth, fmt, close);
      ParseEmittedItems(items[1..], depth, fmt, tail);
      assert after[1..] == EmitIf(fmt, [SPACE], more);
      SkipEmitIf(fmt, [SPACE], more);
      ParseEmit(items[0], depth, fmt, after);
      ParseOneItem(s, items[0], after, more, items[1..], tail);
      assert [items[0]] + items[1..] == items;
    }
  }

  // ---------- objects ----------

  lemma ParseEmittedObject(members: seq<Member>, depth: nat, fmt: bool, tail: seq<byte>)
    requires (forall m | m in members :: GoodText(m.name) && Printable(m.value)) && Terminated(tail)
    ensures Opens(Emit(Object(members), depth, fmt, tail))
    ensures ParseValue(Emit(Object(members), depth, fmt, tail)) == Ok(Object(members), tail)
    decreases members, 3
  {
    hide ParseObject, ParseMembers, ParseValue, Printable, Skip, EmitBody;
    var inner := EmitBody(members, depth, fmt, [RBRACE] + tail);
    var t := EmitIf(fmt, [NEWLINE], inner);
    ParseEmittedBody(members, depth, fmt, tail);
    SkipEmitIf(fmt, [NEWLINE], inner);
    ParseObjectBody(t, inner, members, tail);
    ParseBracket(t);
  }

  lemma ParseEmittedBody(members: seq<Member>, depth: nat, fmt: bool, tail: seq<byte>)
    requires (forall m | m in members :: GoodText(m.name) && Printable(m.value)) && Terminated(tail)
    ensures var s := EmitBody(members, depth, fmt, [RBRACE] + tail);
      Terminated(s)
      && if members == [] then Skip(s) == [RBRACE] + tail
         else Opens(Skip(s)) && ParseMembers(s) == Ok(members, tail)
    decreases members, 2
  {
    hide ParseMembers, Printable, Skip, EmitMembers, Tabs;
    if members == [] {
      BlankTabs(depth - 1);
      SkipEmitIf(fmt, Tabs(depth - 1), [RBRACE] + tail);
      SkipNothing([RBRACE] + tail);
    } else {
      ParseEmittedMembers(members, depth + 1, fmt, depth, tail);
    }
  }

  lemma BlankTabs(n: int)
    ensures Blank(Tabs(n))
  {
  }

  lemma ParseObjectBody(t: seq<byte>, inner: seq<byte>, members: seq<Member>, tail: seq<byte>)
    requires Terminated(t) && Terminated(inner) && Terminated(tail) && Skip(t) == Skip(inner)
    requires if members == [] then Skip(inner) == [RBRACE] + tail
             else Opens(Skip(inner)) && ParseMembers(inner) == Ok(members, tail)
    ensures ParseObject(t) == Ok(Object(members), tail)
  {
    if members == [] {
      assert ([RBRACE] + tail)[1..] == tail;
    } else {
      SkipBlank([], Skip(inner));
      SkipAgain(inner);
      MembersAfterBlanks(Skip(inner), inner);
    }
  }

  lemma SkipAgain(s: seq<byte>)
    requires Terminated(s)
    ensures Skip(Skip(s)) == Skip(s)
  {
  }

  lemma MembersAfterBlanks(s: seq<byte>, t: seq<byte>)
    requires Terminated(s) && Terminated(t) && Skip(s) == Skip(t)
    ensures ParseMembers(s) == ParseMembers(t)
  {
    assert ParseMember(s) == ParseMember(t);
  }

  /** The parser's step from one member to the next, on any text. */
  lemma ParseOneMember(s: seq<byte>, m: Member, after: seq<byte>, more: seq<byte>, ms: seq<Member>, tail: seq<byte>)
    requires Terminated(s) && Terminated(after) && Terminated(more)
    requires after[0] == COMMA && Skip(after[1..]) == Skip(more)
    requires ParseMember(s) == Ok(m, after)
    requires ParseMembers(more) == Ok(ms, tail)
    ensures ParseMembers(s) == Ok([m] + ms, tail)
  {
    hide ParseMember, Skip;
    SkipNothing(after);
    MembersAfterBlanks(after[1..], more);
  }

  lemma ParseLastMember(s: seq<byte>, m: Member, after: seq<byte>, tail: seq<byte>)
    requires Terminated(s) && Terminated(after) && Terminated(tail) && Skip(after) == [RBRACE] + tail
    requires ParseMember(s) == Ok(m, after)
    ensures ParseMembers(s) == Ok([m], tail)
  {
    assert ([RBRACE] + tail)[1..] == tail;
  }

  lemma {:induction false} ParseEmittedMembers(members: seq<Member>, depth: nat, fmt: bool, n: nat, tail: seq<byte>)
    requires members != [] && (forall m | m in members :: GoodText(m.name) && Printable(m.value)) && Terminated(tail)
    ensures var s := EmitMembers(members, depth, fmt, EmitIf(fmt, Tabs(n), [RBRACE] + tail));
      Terminated(s) && Opens(Skip(s)) && ParseMembers(s) == Ok(members, tail)
    decreases members, 1
  {
    hide ParseMembers, ParseMember, Printable, Skip, EmitMember, Tabs;
    var close := [RBRACE] + tail;
    BlankTabs(n);
    BlankTabs(depth);
    SkipNothing(close);
    var end := EmitIf(fmt, Tabs(n), close);
    SkipEmitIf(fmt, Tabs(n), close);
    var after := EmitMoreMembers(members, depth, fmt, end);
    var more := EmitMembers(members[1..], depth, fmt, end);
    if |members| == 1 {
      SkipEmitIf(fmt, [NEWLINE], end);
    } else {
      ParseEmittedMembers(members[1..], depth, fmt, n, tail);
      SkipEmitIf(fmt, [NEWLINE], more);
      assert after[1..] == EmitIf(fmt, [NEWLINE], more);
    }
    var dark := EmitMember(members[0], depth, fmt, after);
    var s := EmitIf(fmt, Tabs(depth), dark);
    ParseEmittedMember(members[0], depth, fmt, after);
    SkipEmitIf(fmt, Tabs(depth), dark);
    SkipNothing(dark);
    if |members| == 1 {
      assert [members[0]] == members;
      ParseLastMember(s, members[0], after, tail);
    } else {
      assert [members[0]] + members[1..] == members;
      ParseOneMember(s, members[0], after, more, members[1..], tail);
    }
  }

  lemma ParseEmittedMember(m: Member, depth: nat, fmt: bool, tail: seq<byte>)
    requires GoodText(m.name) && Printable(m.value) && Terminated(tail) && (EndsNumber(tail))
    ensures Opens(EmitMember(m, depth, fmt, tail))
    ensures forall s :: Terminated(s) && Skip(s) == EmitMember(m, depth, fmt, tail) ==> ParseMember(s) == Ok(m, tail)
    decreases m, 0
  {
    hide Emit, EmitText, Printable, ParseValue, ParseString;
    var value := Emit(m.value, depth, fmt, tail);
    ParseEmit(m.value, depth, fmt, tail);
    SkipEmitIf(fmt, [TAB], value);
    var afterName := [COLON] + EmitIf(fmt, [TAB], value);
    ParseEmittedText(m.name.value, afterName);
    SkipNothing(afterName);
    SkipNothing(value);
    assert afterName[1..] == EmitIf(fmt, [TAB], value);
  }

  // ---------- the law ----------

  /** Parsing a printed value in front of any text that does not run on from a number
      gives the value back and stops exactly at that text. */
  lemma ParsePrint(v: Json, depth: nat, fmt: bool, rest: seq<byte>)
    requires Printable(v) && Terminated(rest) && EndsNumber(rest)
    ensures Terminated(Print(v, depth, fmt) + rest)
    ensures ParseValue(Print(v, depth, fmt) + rest) == Ok(v, rest)
    ensures ParseText(Print(v, depth, fmt) + rest, false) == Ok(v, rest)
  {
    ParseEmit(v, depth, fmt, rest);
    EmitIsPrint(v, depth, fmt, rest);
  }
}
