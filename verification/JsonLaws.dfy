/** Further laws of the text functions: formatting is blank space, what the parser yields can be
    printed, escapes transcode UTF-16 to UTF-8, and the two passes over a string literal agree. */
module JsonLaws {
  import opened Bytes
  import opened JsonText
  import opened JsonEmit
  import JsonRoundTrip
  import Utf8

  // ---------- formatting ----------

  /** The text without its blanks, leaving string literals alone. */
  function Strip(s: seq<byte>): seq<byte> {
    if s == [] then []
    else if s[0] <= 32 then Strip(s[1..])
    else if s[0] == QUOTE then [QUOTE] + StripLiteral(s[1..])
    else [s[0]] + Strip(s[1..])
  }

  /** Inside a literal, up to the quote that closes it. */
  function StripLiteral(s: seq<byte>): seq<byte> {
    if s == [] then []
    else if s[0] == QUOTE then [QUOTE] + Strip(s[1..])
    else if s[0] == BACKSLASH && |s| > 1 then [s[0], s[1]] + StripLiteral(s[2..])
    else [s[0]] + StripLiteral(s[1..])
  }

  predicate Plain(w: seq<byte>) {
    forall i :: 0 <= i < |w| ==> w[i] > 32 && w[i] != QUOTE
  }

  lemma {:induction false} StripPlain(w: seq<byte>, t: seq<byte>)
    requires Plain(w)
    ensures Strip(w + t) == w + Strip(t)
  {
    if w == [] {
      assert w + t == t;
    } else {
      assert (w + t)[1..] == w[1..] + t;
      StripPlain(w[1..], t);
      assert [w[0]] + (w[1..] + Strip(t)) == w + Strip(t);
    }
  }

  lemma {:induction false} StripBlank(w: seq<byte>, t: seq<byte>)
    requires forall i :: 0 <= i < |w| ==> w[i] <= 32
    ensures Strip(w + t) == Strip(t)
  {
    if w == [] {
      assert w + t == t;
    } else {
      assert (w + t)[1..] == w[1..] + t;
      StripBlank(w[1..], t);
    }
  }

  lemma {:induction false} PlainNat(n: nat)
    ensures Plain(PrintNat(n))
  {
    if n >= 10 {
      PlainNat(n / 10);
    }
  }

  lemma {:induction false} StripEscapedPlain(w: seq<byte>, t: seq<byte>)
    requires forall i :: 0 <= i < |w| ==> w[i] != QUOTE && w[i] != BACKSLASH
    ensures StripLiteral(w + t) == w + StripLiteral(t)
  {
    if w == [] {
      assert w + t == t;
    } else {
      assert (w + t)[1..] == w[1..] + t;
      StripEscapedPlain(w[1..], t);
      assert [w[0]] + (w[1..] + StripLiteral(t)) == w + StripLiteral(t);
    }
  }

  /** A byte prints as itself, or as a backslash, one more byte and perhaps four digits. */
  lemma EscapeShape(b: byte)
    ensures var e := EscapeByte(b);
      if |e| == 1 then e[0] != QUOTE && e[0] != BACKSLASH
      else e[0] == BACKSLASH && forall i :: 2 <= i < |e| ==> IsHexDigit(e[i])
  {
    hide HexDigit;
  }

  lemma StripEscapedByte(b: byte, t: seq<byte>)
    ensures StripLiteral(EscapeByte(b) + t) == EscapeByte(b) + StripLiteral(t)
  {
    hide EscapeByte;
    EscapeShape(b);
    var e := EscapeByte(b);
    if |e| == 1 {
      StripEscapedPlain(e, t);
    } else {
      assert (e + t)[2..] == e[2..] + t;
      StripEscapedPlain(e[2..], t);
      assert [e[0], e[1]] + (e[2..] + StripLiteral(t)) == e + StripLiteral(t);
    }
  }

  lemma {:induction false} StripEscaped(x: seq<byte>, t: seq<byte>)
    ensures StripLiteral(EmitEscaped(x, [QUOTE] + t)) == EmitEscaped(x, [QUOTE] + Strip(t))
  {
    if x == [] {
      assert ([QUOTE] + t)[1..] == t;
    } else {
      StripEscaped(x[1..], t);
      StripEscapedByte(x[0], EmitEscaped(x[1..], [QUOTE] + t));
    }
  }

  lemma StripText(x: Option<seq<byte>>, t: seq<byte>)
    ensures Strip(EmitText(x, t)) == EmitText(x, Strip(t))
  {
    if x.Some? {
      var u := EmitEscaped(x.value, [QUOTE] + t);
      assert ([QUOTE] + u)[1..] == u;
      StripEscaped(x.value, t);
    }
  }

  lemma StripIf(fmt: bool, w: seq<byte>, t: seq<byte>)
    requires forall i :: 0 <= i < |w| ==> w[i] <= 32
    ensures Strip(EmitIf(fmt, w, t)) == Strip(t)
  {
    StripBlank(w, t);
  }

  lemma StripMark(b: byte, t: seq<byte>)
    requires b > 32 && b != QUOTE
    ensures Strip([b] + t) == [b] + Strip(t)
  {
    StripPlain([b], t);
  }

  /** Stripping a printed value gives the unformatted print of the same value, at any depths. */
  lemma {:induction false} StripEmit(v: Json, depth: nat, fmt: bool, depth': nat, t: seq<byte>)
    ensures Strip(Emit(v, depth, fmt, t)) == Emit(v, depth', false, Strip(t))
    decreases v, 1
  {
    hide EmitItems, EmitBody, PrintInt, EmitText, Strip;
    match v
    case Unknown =>
    case Null => StripPlain(NULL_TEXT, t);
    case False => StripPlain(FALSE_TEXT, t);
    case True => StripPlain(TRUE_TEXT, t);
    case Number(n) => StripInt(n, t);
    case String(x) => StripText(x, t);
    case Array(items) =>
      StripItems(items, depth + 1, fmt, depth' + 1, [RBRACKET] + t);
      StripMark(RBRACKET, t);
      StripMark(LBRACKET, EmitItems(items, depth + 1, fmt, [RBRACKET] + t));
    case Object(members) =>
      var body := EmitBody(members, depth, fmt, [RBRACE] + t);
      StripBody(members, depth, fmt, depth', [RBRACE] + t);
      StripMark(RBRACE, t);
      StripIf(fmt, [NEWLINE], body);
      StripMark(LBRACE, EmitIf(fmt, [NEWLINE], body));
  }

  lemma StripInt(n: int, t: seq<byte>)
    ensures Strip(PrintInt(n) + t) == PrintInt(n) + Strip(t)
  {
    PlainNat(if n < 0 then -n else n);
    StripPlain(PrintInt(n), t);
  }

  lemma {:induction false} StripItems(items: seq<Json>, depth: nat, fmt: bool, depth': nat, t: seq<byte>)
    ensures Strip(EmitItems(items, depth, fmt, t)) == EmitItems(items, depth', false, Strip(t))
    decreases items, 0
  {
    hide Strip, Emit;
    if items != [] {
      StripEmit(items[0], depth, fmt, depth', EmitMoreItems(items, depth, fmt, t));
      if |items| > 1 {
        var more := EmitItems(items[1..], depth, fmt, t);
        StripItems(items[1..], depth, fmt, depth', t);
        StripIf(fmt, [SPACE], more);
        StripMark(COMMA, EmitIf(fmt, [SPACE], more));
      }
    }
  }

  lemma StripTabs(fmt: bool, n: int, t: seq<byte>)
    ensures Strip(EmitIf(fmt, Tabs(n), t)) == Strip(t)
  {
    StripIf(fmt, Tabs(n), t);
  }

  lemma {:induction false} StripBody(members: seq<Member>, depth: nat, fmt: bool, depth': nat, t: seq<byte>)
    ensures Strip(EmitBody(members, depth, fmt, t)) == EmitBody(members, depth', false, Strip(t))
    decreases members, 2
  {
    hide Strip, EmitMembers, Tabs;
    if members == [] {
      StripTabs(fmt, depth - 1, t);
    } else {
      StripTabs(fmt, depth, t);
      StripMembers(members, depth + 1, fmt, depth' + 1, EmitIf(fmt, Tabs(depth), t));
    }
  }

  lemma {:induction false} StripMembers(members: seq<Member>, depth: nat, fmt: bool, depth': nat, t: seq<byte>)
    ensures Strip(EmitMembers(members, depth, fmt, t)) == EmitMembers(members, depth', false, Strip(t))
    decreases members, 1
  {
    hide Strip, EmitMember, Tabs;
    if members != [] {
      var after := EmitMoreMembers(members, depth, fmt, t);
      if |members| == 1 {
        StripIf(fmt, [NEWLINE], t);
      } else {
        var more := EmitMembers(members[1..], depth, fmt, t);
        StripMembers(members[1..], depth, fmt, depth', t);
        StripIf(fmt, [NEWLINE], more);
        StripMark(COMMA, EmitIf(fmt, [NEWLINE], more));
      }
      StripMember(members[0], depth, fmt, depth', after);
      StripTabs(fmt, depth, EmitMember(members[0], depth, fmt, after));
    }
  }

  lemma StripMember(m: Member, depth: nat, fmt: bool, depth': nat, t: seq<byte>)
    ensures Strip(EmitMember(m, depth, fmt, t)) == EmitMember(m, depth', false, Strip(t))
    decreases m, 0
  {
    hide Strip, Emit, EmitText;
    var value := Emit(m.value, depth, fmt, t);
    StripEmit(m.value, depth, fmt, depth', t);
    StripIf(fmt, [TAB], value);
    StripMark(COLON, EmitIf(fmt, [TAB], value));
    StripText(m.name, [COLON] + EmitIf(fmt, [TAB], value));
  }

  /** Formatting adds nothing but blanks outside string literals. */
  lemma FormattingIsBlank(v: Json, depth: nat, depth': nat)
    ensures Strip(Print(v, depth, true)) == Print(v, depth', false)
  {
    StripEmit(v, depth, true, depth', []);
    EmitIsPrint(v, depth, true, []);
    EmitIsPrint(v, depth', false, []);
    assert Print(v, depth, true) + [] == Print(v, depth, true);
    assert Print(v, depth', false) + [] == Print(v, depth', false);
    assert Strip([]) == [];
  }

  // ---------- canonical form ----------

  /** Whatever the parser makes of a text can be printed: its strings and names hold no terminator. */
  lemma {:induction false} ParsedIsPrintable(s: seq<byte>)
    requires Terminated(s) && ParseValue(s).Ok?
    ensures Printable(ParseValue(s).value)
    decreases |s|, 0
  {
    hide ParseNumber, ReadString;
    if ParseValue(s).value.Array? {
      var s1 := Skip(s[1..]);
      if s1[0] != RBRACKET {
        ParsedItemsPrintable(s1);
      }
    } else if ParseValue(s).value.Object? {
      var s1 := Skip(s[1..]);
      if s1[0] != RBRACE {
        ParsedMembersPrintable(s1);
      }
    }
  }

  lemma {:induction false} ParsedItemsPrintable(s: seq<byte>)
    requires Terminated(s) && ParseItems(s).Ok?
    ensures forall x | x in ParseItems(s).value :: Printable(x)
    decreases |s|, 1
  {
    hide ParseValue, Printable;
    var r := ParseValue(Skip(s));
    ParsedIsPrintable(Skip(s));
    var s1 := Skip(r.rest);
    if s1[0] == COMMA {
      ParsedItemsPrintable(s1[1..]);
    }
  }

  lemma {:induction false} ParsedMembersPrintable(s: seq<byte>)
    requires Terminated(s) && ParseMembers(s).Ok?
    ensures forall m | m in ParseMembers(s).value :: GoodText(m.name) && Printable(m.value)
    decreases |s|, 2
  {
    hide ParseValue, Printable, ReadString;
    var name := ParseString(Skip(s));
    ParsedIsPrintable(Skip(Skip(name.rest)[1..]));
    var s1 := Skip(ParseMember(s).rest);
    if s1[0] == COMMA {
      ParsedMembersPrintable(s1[1..]);
    }
  }

  /** Printing what was parsed and parsing it again gives the same value: one pass reaches a fixed point. */
  lemma PrintThenParse(s: seq<byte>, depth: nat, fmt: bool)
    requires Terminated(s) && ParseValue(s).Ok?
    ensures var v := ParseValue(s).value;
      Terminated(Print(v, depth, fmt) + [0]) && ParseValue(Print(v, depth, fmt) + [0]) == Ok(v, [0])
  {
    ParsedIsPrintable(s);
    JsonRoundTrip.ParsePrint(ParseValue(s).value, depth, fmt, [0]);
  }

  /** Every value that text can stand for can be printed; a value with an unknown type in it cannot. */
  lemma {:induction false} PrintableIsKnown(v: Json)
    requires Printable(v)
    ensures Known(v)
    decreases v
  {
    match v
    case Array(items) =>
      forall x | x in items ensures Known(x) {
        PrintableIsKnown(x);
      }
    case Object(members) =>
      forall m | m in members ensures Known(m.value) {
        MemberIsKnown(m);
      }
    case _ =>
  }

  lemma {:induction false} MemberIsKnown(m: Member)
    requires Printable(m.value)
    ensures Known(m.value)
    decreases m
  {
    PrintableIsKnown(m.value);
  }

  lemma UnknownSpoils(v: Json, w: Json)
    requires !Known(w)
    requires v == w || (v.Array? && w in v.items) || (v.Object? && exists m | m in v.members :: m.value == w)
    ensures !Known(v) && !Known(Unknown)
  {
  }

  // ---------- printed text is a C string ----------

  lemma {:induction false} EscapedNulFree(x: seq<byte>)
    ensures NulFree(EscapeAll(x))
  {
    if x != [] {
      EscapedNulFree(x[1..]);
    }
  }

  lemma TextNulFree(t: Option<seq<byte>>)
    ensures NulFree(PrintText(t))
  {
    if t.Some? {
      EscapedNulFree(t.value);
    }
  }

  lemma {:induction false} PrintNulFree(v: Json, depth: nat, fmt: bool)
    ensures NulFree(Print(v, depth, fmt))
    decreases v, 1
  {
    hide PrintItems, PrintMembers, PrintText;
    match v
    case String(t) => TextNulFree(t);
    case Array(items) => ItemsNulFree(items, depth + 1, fmt);
    case Object(members) => MembersNulFree(members, depth + 1, fmt);
    case Number(n) => PlainNat(if n < 0 then -n else n);
    case _ => assert NulFree(NULL_TEXT) && NulFree(FALSE_TEXT) && NulFree(TRUE_TEXT);
  }

  lemma {:induction false} ItemsNulFree(items: seq<Json>, depth: nat, fmt: bool)
    ensures NulFree(PrintItems(items, depth, fmt))
    decreases items, 0
  {
    hide Print;
    if items != [] {
      PrintNulFree(items[0], depth, fmt);
      ItemsNulFree(items[1..], depth, fmt);
    }
  }

  lemma {:induction false} MembersNulFree(members: seq<Member>, depth: nat, fmt: bool)
    ensures NulFree(PrintMembers(members, depth, fmt))
    decreases members, 1
  {
    hide PrintMember;
    if members != [] {
      MemberNulFree(members[0], depth, fmt);
      MembersNulFree(members[1..], depth, fmt);
    }
  }

  lemma MemberNulFree(m: Member, depth: nat, fmt: bool)
    ensures NulFree(PrintMember(m, depth, fmt))
    decreases m, 0
  {
    hide Print, PrintText;
    TextNulFree(m.name);
    PrintNulFree(m.value, depth, fmt);
  }

  // ---------- transcoding ----------

  /** Section 2.2 of RFC 2781: the code point that a unit stands for, given the unit after it. */
  function FromUtf16(u: nat, next: Option<nat>): (c: Option<nat>)
    requires u < 0x1_0000
    ensures c.Some? ==> Utf8.IsScalar(c.value)
  {
    if u < 0xD800 || u >= 0xE000 then Some(u)
    else if u >= 0xDC00 then None
    else if next.Some? && 0xDC00 <= next.value < 0xE000 then
      Some((u - 0xD800) * 0x400 + (next.value - 0xDC00) + 0x1_0000)
    else None
  }

  /** The unit of a `\u` escape at the front of `s`. */
  function UnitAt(s: seq<byte>): Option<nat> {
    if |s| >= 6 && s[0] == BACKSLASH && s[1] == 117 && Hex4(s[2..]) then Some(Hex4Value(s[2..])) else None
  }

  /** Every `\u` escape, or surrogate pair of them, puts out the UTF-8 form of its code point,
      which reads back as that code point; U+0000, lone surrogates and bad pairs put out nothing. */
  lemma EscapeTranscodes(s: seq<byte>)
    requires Terminated(s) && s[0] == BACKSLASH && s[1] == 117
    requires ReadEscape(s).Reads?
    ensures UnitAt(s).Some?
    ensures var c := FromUtf16(UnitAt(s).value, UnitAt(s[6..]));
      if c.Some? && c.value != 0
      then Utf8.WellFormed(ReadEscape(s).out) && Utf8.Decode(ReadEscape(s).out) == c.value
      else ReadEscape(s).out == []
  {
    hide Hex4Value, IsHexDigit, HexValue, Utf8.Encode, Utf8.Decode, Utf8.WellFormed;
    assert Hex4(s[2..]);
    var u := Hex4Value(s[2..]);
    assert |s| > 6 && (|s| > 7 ==> s[6..][2..] == s[8..]);
    var next := UnitAt(s[6..]);
    var c := FromUtf16(u, next);
    if c.Some? && c.value != 0 {
      Utf8.DecodeEncode(c.value);
      if Utf8.IsHighSurrogate(u) {
        Utf8.CombineSurrogates(u, next.value, c.value);
        SplitPair(u, next.value);
      }
    }
  }

  lemma SplitPair(hi: nat, lo: nat)
    requires Utf8.IsHighSurrogate(hi) && Utf8.IsLowSurrogate(lo)
    ensures Utf8.SurrogatePair((hi - 0xD800) * 0x400 + (lo - 0xDC00) + 0x1_0000) == (hi, lo)
  {
    var x, y := hi - 0xD800, lo - 0xDC00;
    assert (x * 0x400 + y) / 0x400 == x && (x * 0x400 + y) % 0x400 == y;
  }

  /** And every code point but U+0000 can be written so: as one escape, or as the two of its pair. */
  lemma EveryScalarHasAnEscape(c: nat, t: seq<byte>)
    requires Utf8.IsScalar(c) && c != 0 && Terminated(t)
    ensures var esc := if c < 0x1_0000 then [BACKSLASH, 117] + PrintHex4(c)
                       else [BACKSLASH, 117] + PrintHex4(Utf8.SurrogatePair(c).0)
                            + ([BACKSLASH, 117] + PrintHex4(Utf8.SurrogatePair(c).1));
      ReadEscape(esc + t) == Reads(Utf8.Encode(c), |esc|)
  {
    hide PrintHex4, HexValue, IsHexDigit, Utf8.Encode;
    if c < 0x1_0000 {
      ReadsUnit(c, t);
    } else {
      var (hi, lo) := Utf8.SurrogatePair(c);
      var e2 := [BACKSLASH, 117] + PrintHex4(lo);
      ReadsUnit(hi, e2 + t);
      ReadsUnit(lo, t);
      Utf8.CombineSurrogates(hi, lo, c);
      var s := [BACKSLASH, 117] + PrintHex4(hi) + (e2 + t);
      assert [BACKSLASH, 117] + PrintHex4(hi) + e2 + t == s;
      assert s[6..] == e2 + t;
      assert s[8..] == (e2 + t)[2..];
      assert s[6] == (e2 + t)[0] && s[7] == (e2 + t)[1];
    }
  }

  lemma ReadsUnit(u: nat, t: seq<byte>)
    requires u < 0x1_0000 && Terminated(t)
    ensures UnitAt([BACKSLASH, 117] + PrintHex4(u) + t) == Some(u)
    ensures u != 0 && Utf8.IsScalar(u) ==> ReadEscape([BACKSLASH, 117] + PrintHex4(u) + t) == Reads(Utf8.Encode(u), 6)
  {
    var h := PrintHex4(u);
    hide PrintHex4, HexValue, IsHexDigit;
    var s := [BACKSLASH, 117] + h + t;
    var d := s[2..];
    assert d[0] == h[0] && d[1] == h[1] && d[2] == h[2] && d[3] == h[3];
    assert Hex4(d) && Hex4Value(d) == Hex4Value(h) == u;
  }

  // ---------- the two passes over a string literal ----------

  /** The first pass: how many bytes it counts and where it stops.  None when a backslash stands
      before the terminator: the pass steps over the end of the text. */
  function CountLiteral(s: seq<byte>): (r: Option<(nat, seq<byte>)>)
    requires Terminated(s)
    ensures r.Some? ==> Terminated(r.value.1) && |r.value.1| <= |s|
    ensures r.Some? ==> r.value.1[0] == 0 || r.value.1[0] == QUOTE
    decreases |s|
  {
    if s[0] == 0 || s[0] == QUOTE then Some((0, s))
    else if s[0] == BACKSLASH && s[1] == 0 then None
    else
      var r := CountLiteral(if s[0] == BACKSLASH then s[2..] else s[1..]);
      if r.None? then None else Some((r.value.0 + 1, r.value.1))
  }

  function CountMore(n: nat, r: Option<(nat, seq<byte>)>): Option<(nat, seq<byte>)> {
    if r.None? then None else Some((r.value.0 + n, r.value.1))
  }

  lemma CountOne(s: seq<byte>)
    requires Terminated(s) && s[0] !in {0, QUOTE, BACKSLASH}
    ensures CountLiteral(s) == CountMore(1, CountLiteral(s[1..]))
  {
  }

  lemma CountHex4(s: seq<byte>)
    requires Terminated(s) && Hex4(s) && |s| > 4
    ensures CountLiteral(s) == CountMore(4, CountLiteral(s[4..]))
  {
    hide HexValue, CountLiteral;
    assert s[1..][1..] == s[2..] && s[2..][1..] == s[3..] && s[3..][1..] == s[4..];
    CountOne(s);
    CountOne(s[1..]);
    CountOne(s[2..]);
    CountOne(s[3..]);
  }

  lemma CountUnit(s: seq<byte>)
    requires Terminated(s) && UnitAt(s).Some? && |s| > 6
    ensures CountLiteral(s) == CountMore(5, CountLiteral(s[6..]))
  {
    hide Hex4;
    assert s[2..][4..] == s[6..];
    CountHex4(s[2..]);
  }

  /** How much the first pass counts for an escape of so many bytes. */
  function Counted(used: nat): nat {
    if used == 2 then 1 else if used == 6 then 5 else 10
  }

  lemma EscapeSizes(s: seq<byte>)
    requires Terminated(s) && s[0] == BACKSLASH && ReadEscape(s).Reads?
    ensures var e := ReadEscape(s);
      && e.used in {2, 6, 12} && |e.out| <= Counted(e.used)
      && s[1] != 0
      && (e.used > 2 ==> UnitAt(s).Some?) && (e.used > 6 ==> UnitAt(s[6..]).Some?)
  {
    hide Hex4Value, IsHexDigit, Utf8.Encode;
    if ReadEscape(s).used > 6 {
      assert s[6..][2..] == s[8..];
    }
  }

  /** One escape: the first pass steps over the same bytes and counts at least what the second writes. */
  lemma CountEscape(s: seq<byte>)
    requires Terminated(s) && s[0] == BACKSLASH && ReadEscape(s).Reads?
    ensures var e := ReadEscape(s);
      |e.out| <= Counted(e.used) && CountLiteral(s) == CountMore(Counted(e.used), CountLiteral(s[e.used..]))
  {
    hide ReadEscape, Hex4, UnitAt;
    var e := ReadEscape(s);
    EscapeSizes(s);
    if e.used > 2 {
      CountUnit(s);
      if e.used == 12 {
        assert s[6..][6..] == s[12..];
        CountUnit(s[6..]);
      }
    }
  }

  /** Whenever the second pass is defined, so is the first; both stop at the same quote,
      and the second writes no more bytes than the first has counted. */
  lemma {:induction false} TwoPassesAgree(s: seq<byte>)
    requires Terminated(s) && ReadString(s).Ok?
    ensures CountLiteral(s).Some?
    ensures |ReadString(s).value| <= CountLiteral(s).value.0
    ensures var stop := CountLiteral(s).value.1;
      ReadString(s).rest == if stop[0] == QUOTE then stop[1..] else stop
    decreases |s|
  {
    hide ReadEscape;
    if s[0] == 0 || s[0] == QUOTE {
    } else if s[0] == BACKSLASH {
      var e := ReadEscape(s);
      TwoPassesAgree(s[e.used..]);
      CountEscape(s);
    } else {
      TwoPassesAgree(s[1..]);
    }
  }
}
