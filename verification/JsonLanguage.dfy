/** The parser reads no other language: whatever it accepts is the text of some concrete syntax tree, and the model
    leaves
    a text open only for an escape that is cut short or for a number that it does not hold. */
module JsonLanguage {
  import opened Bytes
  import opened JsonText
  import opened JsonNumber
  import opened JsonSyntax
  import Utf8

  // ---------- whatever is read was written by some tree ----------

  lemma {:induction false} SkipSplits(s: seq<byte>) returns (w: seq<byte>)
    requires Terminated(s)
    ensures Blanks(w) && s == w + Skip(s)
  {
    if 1 <= s[0] <= 32 {
      w := SkipSplits(s[1..]);
      w := [s[0]] + w;
    } else {
      w := [];
    }
  }

  lemma EscapeIsPiece(s: seq<byte>) returns (p: Piece)
    requires Terminated(s) && s[0] == BACKSLASH && ReadEscape(s).Reads?
    ensures GoodPiece(p) && !p.Raw? && ReadEscape(s) == Reads(PieceOut(p), |PieceText(p)|)
    ensures s == PieceText(p) + s[|PieceText(p)|..]
    ensures p.Lone? ==> var t := s[|PieceText(p)|..]; |t| > 0 && (t[0] != 92 || (|t| > 1 && t[1] != 117))
  {
    hide IsHexDigit, HexValue, Utf8.Encode, Utf8.Combine;
    if s[1] != 117 {
      p := Short(s[1]);
    } else {
      var u := s[2..6];
      UnitThere(s);
      if !IsHigh(u) {
        p := Unit(u);
      } else if s[6] != BACKSLASH || s[7] != 117 {
        p := Lone(u);
      } else {
        var l := s[8..12];
        TwinThere(s);
        HighLow(Hex4Value(u), Hex4Value(l));
        p := Twin(u, l);
      }
    }
  }

  lemma UnitThere(s: seq<byte>)
    requires Terminated(s) && s[0] == 92 && s[1] == 117 && Hex4(s[2..])
    ensures |s| > 6 && IsUnit(s[2..6]) && Hex4Value(s[2..6]) == Hex4Value(s[2..])
    ensures s == [92, 117] + s[2..6] + s[6..]
  {
    hide HexValue;
    var u := s[2..6];
    assert u[0] == s[2..][0] && u[1] == s[2..][1] && u[2] == s[2..][2] && u[3] == s[2..][3];
    assert s[|s| - 1] == 0;
  }

  lemma TwinThere(s: seq<byte>)
    requires Terminated(s) && s[0] == 92 && s[1] == 117 && Hex4(s[2..]) && s[6] == 92 && s[7] == 117 && Hex4(s[8..])
    ensures |s| > 12 && IsUnit(s[8..12]) && Hex4Value(s[8..12]) == Hex4Value(s[8..])
    ensures s == [92, 117] + s[2..6] + [92, 117] + s[8..12] + s[12..]
  {
    hide HexValue, Hex4Value;
    var t := s[6..];
    assert t[2..] == s[8..];
    UnitThere(t);
    assert t[2..6] == s[8..12] && t[6..] == s[12..];
    UnitThere(s);
  }

  lemma {:induction false} StringIsPieces(s: seq<byte>) returns (ps: seq<Piece>, closed: bool)
    requires Terminated(s) && ReadString(s).Ok?
    ensures var r := ReadString(s);
      && GoodPieces(ps) && PiecesOut(ps) == r.value && (!closed ==> r.rest[0] == 0)
      && s == PiecesThen(ps, if closed then [34] + r.rest else r.rest)
    decreases |s|
  {
    hide ReadEscape, PieceOut, Hex4, GoodPieces, PiecesOut, PiecesThen, GoodPiece, PieceText;
    NoPieces();
    if s[0] == 0 {
      ps, closed := [], false;
    } else if s[0] == QUOTE {
      ps, closed := [], true;
    } else {
      var p, n := Raw(s[0]), 1;
      if s[0] == BACKSLASH {
        p := EscapeIsPiece(s);
        n := |PieceText(p)|;
      } else {
        RawIsPiece(s[0]);
      }
      ps, closed := StringIsPieces(s[n..]);
      var tail := if closed then [34] + ReadString(s).rest else ReadString(s).rest;
      PutInFront(p, ps, s[n..], tail);
      ps := [p] + ps;
    }
  }

  lemma NoPieces()
    ensures GoodPieces([]) && PiecesOut([]) == [] && forall t :: PiecesThen([], t) == t
  {
  }

  lemma RawIsPiece(b: byte)
    requires b !in {0, 34, 92}
    ensures GoodPiece(Raw(b)) && PieceOut(Raw(b)) == [b] && PieceText(Raw(b)) == [b]
  {
  }

  lemma PutInFront(p: Piece, ps: seq<Piece>, s: seq<byte>, tail: seq<byte>)
    requires GoodPiece(p) && GoodPieces(ps) && s == PiecesThen(ps, tail)
    requires p.Lone? ==> |s| > 0 && (s[0] != 92 || (|s| > 1 && s[1] != 117))
    ensures GoodPieces([p] + ps) && PiecesOut([p] + ps) == PieceOut(p) + PiecesOut(ps)
    ensures PiecesThen([p] + ps, tail) == PieceText(p) + s
  {
    hide PieceOut, Hex4;
    assert ([p] + ps)[1..] == ps;
    if p.Lone? && ps != [] {
      assert s == PieceText(ps[0]) + PiecesThen(ps[1..], tail);
    }
  }

  lemma {:induction false} DigitsSplit(s: seq<byte>, acc: nat) returns (f: seq<byte>)
    requires Terminated(s)
    ensures AllDigits(f) && s == f + ReadDigits(s, acc).1 && ReadDigits(s, acc).0 == Digits(f, acc)
    ensures f == [] <==> !IsDigit(s[0])
    ensures f != [] ==> f[0] == s[0]
  {
    if IsDigit(s[0]) {
      f := DigitsSplit(s[1..], acc * 10 + (s[0] - 48));
      FirstDigit([s[0]] + f, acc);
      assert ([s[0]] + f)[1..] == f;
      f := [s[0]] + f;
    } else {
      f := [];
    }
  }

  lemma WholeIsDigits(s: seq<byte>) returns (zero: bool, f: seq<byte>)
    requires Terminated(s)
    ensures AllDigits(f) && (f != [] ==> f[0] != 48) && ReadWhole(s).0 == Digits(f, 0)
    ensures s == (if zero then [48] else []) + (f + ReadWhole(s).1)
    ensures var rest := ReadWhole(s).1;
      if f != [] then !IsDigit(rest[0]) else !(49 <= rest[0] <= 57) && (rest[0] == 48 ==> zero)
    ensures IsDigit(s[0]) ==> zero || f != []
  {
    hide ReadDigits, Digits;
    NoDigits(0);
    zero := s[0] == 48;
    var s1 := if zero then s[1..] else s;
    assert s == (if zero then [48] else []) + s1;
    if 49 <= s1[0] <= 57 {
      f := DigitsSplit(s1, 0);
    } else {
      f := [];
      assert f + s1 == s1;
    }
  }

  lemma NumberIsNumeric(s: seq<byte>) returns (c: Syntax)
    requires Terminated(s) && (s[0] == MINUS || IsDigit(s[0])) && ParseNumber(s).Ok?
    ensures c.Numeric? && GoodNumeric(c) && s == Then(c, ParseNumber(s).rest) && Stops(c, ParseNumber(s).rest)
    ensures ParseNumber(s).value == Number(NumericValue(c))
  {
    hide ReadDigits, ReadWhole, Digits, ParseNumber, Stops, NumberGoesOn, Then, GoodNumeric;
    NumberOfWhole(s);
    var neg := s[0] == MINUS;
    var s1 := if neg then s[1..] else s;
    var zero, f := WholeIsDigits(s1);
    c := Numeric(neg, zero, f);
    NumericParts(c, s, s1, ReadWhole(s1).1);
    NumericStops(c, ReadWhole(s1).1);
  }

  lemma NumericParts(c: Syntax, s: seq<byte>, s1: seq<byte>, rest: seq<byte>)
    requires c.Numeric? && s != [] && (c.neg <==> s[0] == MINUS) && s1 == (if c.neg then s[1..] else s)
    requires AllDigits(c.digits) && (c.digits != [] ==> c.digits[0] != 48)
    requires s1 == (if c.zero then [48] else []) + (c.digits + rest) && (c.neg || c.zero || c.digits != [])
    ensures s == Then(c, rest) && (GoodNumeric(c) <==> IsInt32(NumericValue(c)))
  {
    hide Digits;
    assert s == (if c.neg then [45] else []) + s1;
  }

  lemma NumericStops(c: Syntax, rest: seq<byte>)
    requires c.Numeric? && Terminated(rest) && !NumberGoesOn(rest)
    requires if c.digits != [] then !IsDigit(rest[0]) else !(49 <= rest[0] <= 57) && (rest[0] == 48 ==> c.zero)
    ensures Stops(c, rest)
  {
  }

  /** Whatever the parser reads is the text of a good syntax, and is read as what that means. */
  lemma {:induction false} ReadIsWritten(s: seq<byte>) returns (c: Syntax)
    requires Terminated(s) && ParseValue(s).Ok?
    ensures Good(c) && Stops(c, ParseValue(s).rest) && s == Then(c, ParseValue(s).rest)
    ensures ParseValue(s).value == Meaning(c)
    decreases |s|, 0
  {
    hide ParseNumber, ReadString, ParseArray, ParseObject, PiecesOut, PiecesThen;
    if StartsWith(s, NULL_TEXT) {
      c := NullWord;
    } else if StartsWith(s, FALSE_TEXT) {
      c := FalseWord;
    } else if StartsWith(s, TRUE_TEXT) {
      c := TrueWord;
    } else if s[0] == QUOTE {
      var ps, closed := StringIsPieces(s[1..]);
      c := Literal(ps, closed);
    } else if s[0] == MINUS || IsDigit(s[0]) {
      c := NumberIsNumeric(s);
    } else if s[0] == LBRACKET {
      c := ArrayIsWritten(s[1..]);
    } else {
      c := ObjectIsWritten(s[1..]);
    }
  }

  lemma {:induction false} ArrayIsWritten(s: seq<byte>) returns (c: Syntax)
    requires Terminated(s) && ParseArray(s).Ok?
    ensures (c.NoItems? || c.Items?) && Good(c) && [91] + s == Then(c, ParseArray(s).rest)
    ensures ParseArray(s).value == Meaning(c)
    decreases |s|, 3
  {
    hide ParseItems, Skip, ItemsThen, ItemMeanings, GoodElement;
    var rest := ParseArray(s).rest;
    var w := SkipSplits(s);
    if Skip(s)[0] == RBRACKET {
      c := NoItems(w);
      assert Skip(s) == [93] + rest;
    } else {
      var items := ItemsAreWritten(Skip(s));
      items := Indented(w, items, [93] + rest);
      c := Items(items);
    }
  }

  /** Blanks in front of the first item belong to it. */
  lemma Indented(w: seq<byte>, items: seq<Element>, tail: seq<byte>) returns (more: seq<Element>)
    requires Blanks(w) && items != [] && forall e | e in items :: Good(e.value) && GoodElement(e)
    ensures more != [] && (forall e | e in more :: Good(e.value) && GoodElement(e))
    ensures ItemsThen(more, tail) == w + ItemsThen(items, tail) && ItemMeanings(more) == ItemMeanings(items)
  {
    hide Then, Good, Meaning;
    var e := items[0];
    more := items[0 := e.(before := w + e.before)];
    assert more[1..] == items[1..];
    assert e in items;
    forall x | x in more ensures Good(x.value) && GoodElement(x) {
      if x != more[0] {
        var k :| 0 <= k < |more| && more[k] == x;
        assert x in items;
      }
    }
  }

  lemma {:induction false} ItemsAreWritten(s: seq<byte>) returns (items: seq<Element>)
    requires Terminated(s) && ParseItems(s).Ok?
    ensures items != [] && (forall e | e in items :: Good(e.value) && GoodElement(e))
    ensures s == ItemsThen(items, [93] + ParseItems(s).rest) && ParseItems(s).value == ItemMeanings(items)
    decreases |s|, 2
  {
    hide ParseValue, Skip, Then, Good, Meaning, Stops, ItemsThen, ItemMeanings;
    var close := [93] + ParseItems(s).rest;
    var before := SkipSplits(s);
    var v := ReadIsWritten(Skip(s));
    var after := SkipSplits(ParseValue(Skip(s)).rest);
    var t := Skip(ParseValue(Skip(s)).rest);
    InnerIsClosed(v, ParseValue(Skip(s)).rest);
    var e := Element(before, v, after);
    if t[0] == COMMA {
      var more := ItemsAreWritten(t[1..]);
      assert t == [44] + t[1..];
      items := [e] + more;
      assert items[1..] == more;
    } else {
      assert t == close;
      items := [e];
    }
    FirstItem(items, close, t);
  }

  /** A literal inside a list is closed: behind an open one the text is at its end. */
  lemma InnerIsClosed(c: Syntax, rest: seq<byte>)
    requires Terminated(rest) && Stops(c, rest) && Skip(rest)[0] != 0
    ensures Closed(c)
  {
  }

  lemma {:induction false} ObjectIsWritten(s: seq<byte>) returns (c: Syntax)
    requires Terminated(s) && ParseObject(s).Ok?
    ensures (c.NoMembers? || c.Members?) && Good(c) && [123] + s == Then(c, ParseObject(s).rest)
    ensures ParseObject(s).value == Meaning(c)
    decreases |s|, 4
  {
    hide ParseMembers, Skip, MembersThen, MemberMeanings, GoodEntry;
    var rest := ParseObject(s).rest;
    var w := SkipSplits(s);
    if Skip(s)[0] == RBRACE {
      c := NoMembers(w);
      assert Skip(s) == [125] + rest;
    } else {
      var members := MembersAreWritten(Skip(s));
      members := IndentedMembers(w, members, [125] + rest);
      c := Members(members);
    }
  }

  lemma IndentedMembers(w: seq<byte>, members: seq<Entry>, tail: seq<byte>) returns (more: seq<Entry>)
    requires Blanks(w) && members != [] && forall e | e in members :: Good(e.value) && GoodEntry(e)
    ensures more != [] && (forall e | e in more :: Good(e.value) && GoodEntry(e))
    ensures MembersThen(more, tail) == w + MembersThen(members, tail) && MemberMeanings(more) == MemberMeanings(members)
  {
    hide Then, Good, Meaning, GoodPieces, PiecesOut, LiteralThen;
    var e := members[0];
    more := members[0 := e.(before := w + e.before)];
    assert more[1..] == members[1..];
    assert e in members && more[0] in more;
    forall x | x in more ensures Good(x.value) && GoodEntry(x) {
      if x != more[0] {
        var k :| 0 <= k < |more| && more[k] == x;
        assert x in members;
      }
    }
  }

  lemma {:induction false} MembersAreWritten(s: seq<byte>) returns (members: seq<Entry>)
    requires Terminated(s) && ParseMembers(s).Ok?
    ensures members != [] && (forall e | e in members :: Good(e.value) && GoodEntry(e))
    ensures s == MembersThen(members, [125] + ParseMembers(s).rest) && ParseMembers(s).value == MemberMeanings(members)
    decreases |s|, 2
  {
    hide ParseMember, Skip, EntryThen, Good, GoodEntry, Meaning, MembersThen, MemberMeanings, PiecesOut;
    var close := [125] + ParseMembers(s).rest;
    var t := Skip(ParseMember(s).rest);
    var e := EntryIsWritten(s);
    if t[0] == COMMA {
      var more := MembersAreWritten(t[1..]);
      assert t == [44] + t[1..];
      members := [e] + more;
      assert members[1..] == more;
    } else {
      assert t == close;
      members := [e];
    }
    FirstMember(members, close, t);
  }

  lemma EntryIsWritten(s: seq<byte>) returns (e: Entry)
    requires Terminated(s) && ParseMember(s).Ok? && Skip(ParseMember(s).rest)[0] != 0
    ensures Good(e.value) && GoodEntry(e) && GoodPieces(e.name)
    ensures s == EntryThen(e, Skip(ParseMember(s).rest))
    ensures ParseMember(s).value == Member(Some(PiecesOut(e.name)), Meaning(e.value))
    decreases |s|, 1
  {
    hide ParseValue, ReadString, Skip, Then, Good, Meaning, Stops, PiecesOut, PiecesThen;
    var before := SkipSplits(s);
    var s1 := Skip(s);
    var name, closed := StringIsPieces(s1[1..]);
    var s2 := ReadString(s1[1..]).rest;
    var afterName := SkipSplits(s2);
    var s3 := Skip(s2);
    if !closed {
      SkipStays(s2);
      assert false;
    }
    var beforeValue := SkipSplits(s3[1..]);
    var s4 := Skip(s3[1..]);
    var v := ReadIsWritten(s4);
    var after := SkipSplits(ParseValue(s4).rest);
    InnerIsClosed(v, ParseValue(s4).rest);
    e := Entry(before, name, afterName, beforeValue, v, after);
    assert s3 == [58] + s3[1..] && s1 == [34] + s1[1..];
  }

  lemma SkipStays(s: seq<byte>)
    requires Terminated(s) && !(1 <= s[0] <= 32)
    ensures Skip(s) == s
  {
  }

  // ---------- what the model leaves open ----------

  /** An escape that is cut short: by the end of the text, or before its fourth digit. */
  predicate CutEscape(t: seq<byte>) {
    && Terminated(t) && t[0] == 92
    && (|| t[1] == 0
        || (t[1] == 117 && !Hex4(t[2..]))
        || (t[1] == 117 && 0xD800 <= Hex4Value(t[2..]) < 0xDC00 && t[6] == 92 && t[7] == 117 && !Hex4(t[8..])))
  }

  /** A number that goes on with a fraction or an exponent, or does not fit 32 bits. */
  predicate OtherNumber(t: seq<byte>, c: Syntax, rest: seq<byte>) {
    && c.Numeric? && AllDigits(c.digits) && (c.neg || c.zero || c.digits != []) && t == Then(c, rest)
      && Terminated(rest)
    && ((rest[0] == 46 && IsDigit(rest[1])) || rest[0] in {69, 101}
        || !(-0x8000_0000 <= NumericValue(c) <= 0x7FFF_FFFF))
  }

  ghost predicate LeavesModel(t: seq<byte>) {
    CutEscape(t) || exists c, rest :: OtherNumber(t, c, rest)
  }

  ghost predicate LeavesSomewhere(s: seq<byte>) {
    exists k :: 0 <= k < |s| && LeavesModel(s[k..])
  }

  lemma LeavesLater(s: seq<byte>, t: seq<byte>)
    requires LeavesSomewhere(t) && |t| <= |s| && t == s[|s| - |t|..]
    ensures LeavesSomewhere(s)
  {
    hide LeavesModel;
    var k :| 0 <= k < |t| && LeavesModel(t[k..]);
    assert s[|s| - |t| + k..] == t[k..];
  }

  lemma LeavesHere(s: seq<byte>)
    requires s != [] && LeavesModel(s)
    ensures LeavesSomewhere(s)
  {
    hide LeavesModel;
    assert s[0..] == s;
  }

  lemma {:induction false} StringLeaves(s: seq<byte>)
    requires Terminated(s) && ReadString(s).Beyond?
    ensures LeavesSomewhere(s)
    decreases |s|
  {
    hide LeavesSomewhere, LeavesModel;
    if s[0] == BACKSLASH && ReadEscape(s).Cut? {
      EscapeLeaves(s);
      LeavesHere(s);
    } else {
      var t := if s[0] == BACKSLASH then s[ReadEscape(s).used..] else s[1..];
      StringLeaves(t);
      LeavesLater(s, t);
    }
  }

  lemma EscapeLeaves(s: seq<byte>)
    requires Terminated(s) && s[0] == BACKSLASH && ReadEscape(s).Cut?
    ensures LeavesModel(s)
  {
    hide Hex4Value, IsHexDigit, Utf8.Encode;
  }

  lemma NumberLeaves(s: seq<byte>)
    requires Terminated(s) && (s[0] == MINUS || IsDigit(s[0])) && ParseNumber(s).Beyond?
    ensures LeavesModel(s)
  {
    hide ReadDigits, ReadWhole, Digits, ParseNumber, Then, GoodNumeric;
    NumberOfWhole(s);
    var neg := s[0] == MINUS;
    var s1 := if neg then s[1..] else s;
    var zero, f := WholeIsDigits(s1);
    var c := Numeric(neg, zero, f);
    NumericParts(c, s, s1, ReadWhole(s1).1);
    assert OtherNumber(s, c, ReadWhole(s1).1);
  }

  lemma {:induction false} ValueLeaves(s: seq<byte>)
    requires Terminated(s) && ParseValue(s).Beyond?
    ensures LeavesSomewhere(s)
    decreases |s|, 0
  {
    hide LeavesSomewhere, LeavesModel, ParseNumber, ReadString, ParseItems, ParseMembers, Skip;
    var t := s[1..];
    if s[0] == QUOTE {
      StringLeaves(t);
      LeavesLater(s, t);
    } else if s[0] == MINUS || IsDigit(s[0]) {
      NumberLeaves(s);
      LeavesHere(s);
    } else {
      var w := SkipSplits(t);
      if s[0] == LBRACKET {
        ItemsLeave(Skip(t));
      } else {
        MembersLeave(Skip(t));
      }
      LeavesLater(s, Skip(t));
    }
  }

  lemma {:induction false} ItemsLeave(s: seq<byte>)
    requires Terminated(s) && ParseItems(s).Beyond?
    ensures LeavesSomewhere(s)
    decreases |s|, 1
  {
    hide LeavesSomewhere, LeavesModel, ParseValue, Skip;
    var w := SkipSplits(s);
    var v := Skip(s);
    if ParseValue(v).Beyond? {
      ValueLeaves(v);
      LeavesLater(s, v);
    } else {
      var after := SkipSplits(ParseValue(v).rest);
      var t := Skip(ParseValue(v).rest)[1..];
      ItemsLeave(t);
      LeavesLater(ParseValue(v).rest, t);
      RestOfValue(v);
      LeavesLater(v, ParseValue(v).rest);
      LeavesLater(s, v);
    }
  }

  lemma RestOfValue(s: seq<byte>)
    requires Terminated(s) && ParseValue(s).Ok?
    ensures ParseValue(s).rest == s[|s| - |ParseValue(s).rest|..]
  {
    hide ParseValue, Then, Good, Stops;
    var c := ReadIsWritten(s);
    RestIsSuffix(c, s, ParseValue(s).rest);
  }

  lemma RestIsSuffix(c: Syntax, s: seq<byte>, rest: seq<byte>)
    requires s == Then(c, rest)
    ensures |rest| <= |s| && rest == s[|s| - |rest|..]
  {
    ThenIsText(c, rest);
  }
  lemma {:induction false} MembersLeave(s: seq<byte>)
    requires Terminated(s) && ParseMembers(s).Beyond?
    ensures LeavesSomewhere(s)
    decreases |s|, 2
  {
    hide LeavesSomewhere, LeavesModel, ParseMember, Skip;
    if ParseMember(s).Beyond? {
      MemberLeaves(s);
    } else {
      var rest := ParseMember(s).rest;
      var after := SkipSplits(rest);
      var t := Skip(rest)[1..];
      MembersLeave(t);
      var e := EntryIsWritten(s);
      EntryThenSuffix(e, s, Skip(rest));
      LeavesLater(s, t);
    }
  }

  lemma EntryThenSuffix(e: Entry, s: seq<byte>, t: seq<byte>)
    requires s == EntryThen(e, t)
    ensures |t| <= |s| && t == s[|s| - |t|..]
  {
    hide EntryThen;
    EntryTail(e, [], t);
    assert [] + t == t;
  }

  lemma {:induction false} MemberLeaves(s: seq<byte>)
    requires Terminated(s) && ParseMember(s).Beyond?
    ensures LeavesSomewhere(s)
    decreases |s|, 1
  {
    hide LeavesSomewhere, LeavesModel, ParseValue, ReadString, Skip;
    var w := SkipSplits(s);
    var s1 := Skip(s);
    var t := s1[1..];
    if ReadString(t).Beyond? {
      StringLeaves(t);
    } else {
      var ps, closed := StringIsPieces(t);
      var s2 := ReadString(t).rest;
      PiecesSuffix(ps, closed, t, s2);
      BehindNameLeaves(s2);
      LeavesLater(t, s2);
    }
    LeavesLater(s, t);
  }

  /** The colon and the value of a member. */
  lemma {:induction false} BehindNameLeaves(s: seq<byte>)
    requires Terminated(s) && Skip(s)[0] == COLON && ParseValue(Skip(Skip(s)[1..])).Beyond?
    ensures LeavesSomewhere(s)
    decreases |s|, 1
  {
    hide LeavesSomewhere, LeavesModel, ParseValue, Skip;
    var w := SkipSplits(s);
    var t := Skip(s)[1..];
    var w2 := SkipSplits(t);
    ValueLeaves(Skip(t));
    LeavesLater(t, Skip(t));
    LeavesLater(s, t);
  }

  lemma PiecesSuffix(ps: seq<Piece>, closed: bool, s: seq<byte>, rest: seq<byte>)
    requires s == PiecesThen(ps, if closed then [34] + rest else rest)
    ensures |rest| <= |s| && rest == s[|s| - |rest|..]
  {
    hide PiecesThen;
    var t := if closed then [34] + rest else rest;
    PiecesTail(ps, [], t);
    assert [] + t == t;
  }

  /** The model leaves a text open only if there is such an escape or such a number in it: any other text is accepted
      or rejected. */
  lemma OpenForAReason(s: seq<byte>, strict: bool)
    requires Terminated(s) && ParseText(s, strict).Beyond?
    ensures LeavesSomewhere(s)
  {
    hide ParseValue, LeavesSomewhere;
    var w := SkipSplits(s);
    ValueLeaves(Skip(s));
    LeavesLater(s, Skip(s));
  }

  // ---------- the law ----------

  /** A text of the syntax `c` with blanks `w` in front of it and `end` behind it; a strict reader wants blanks behind
      it and then the end of the text. */
  predicate Says(s: seq<byte>, strict: bool, w: seq<byte>, c: Syntax, more: seq<byte>, end: seq<byte>) {
    && Good(c) && Blanks(w) && Blanks(more) && Terminated(end) && Terminated(more + end) && Stops(c, more + end)
    && s == w + Then(c, more + end)
    && (if strict then end[0] == 0 else more == [])
  }

  /** The parser accepts exactly the texts of the syntax, strictly or not, and reads them as what they mean. */
  lemma ExactlyTheLanguage(s: seq<byte>, strict: bool, v: Json, end: seq<byte>)
    requires Terminated(s)
    ensures ParseText(s, strict) == Ok(v, end) <==>
      exists w, c, more :: Says(s, strict, w, c, more, end) && Meaning(c) == v
  {
    hide ParseValue, Then, Good, Meaning, Stops;
    if w, c, more :| Says(s, strict, w, c, more, end) && Meaning(c) == v {
      ReadsAsMeant(c, more + end);
      SkipTo(w, Then(c, more + end));
      if strict {
        SkipTo(more, end);
      } else {
        assert more + end == end;
      }
    }
    if ParseText(s, strict) == Ok(v, end) {
      var w := SkipSplits(s);
      var c := ReadIsWritten(Skip(s));
      var more := [];
      var rest := ParseValue(Skip(s)).rest;
      if strict {
        more := SkipSplits(rest);
      } else {
        assert more + rest == rest;
      }
      assert Says(s, strict, w, c, more, end);
    }
  }
}
