/** The language that the parser reads, written down without the parser: a text is what some concrete syntax tree
    writes, with any blanks, any spelling of a string and any digits; and the tree says what the text means. */
module JsonSyntax {
  import opened Bytes
  import opened JsonText
  import opened JsonNumber
  import JsonRoundTrip
  import Utf8

  /** A row of bytes from 1 to 32. */
  predicate Blanks(w: seq<byte>) {
    forall i :: 0 <= i < |w| ==> 1 <= w[i] <= 32
  }

  // ---------- string literals ----------

  /** Raw: a byte for itself.  Short: a backslash and one byte.  Unit: an escape of four hexadecimal digits, no high
      surrogate.  Lone: a high surrogate that no other unit follows.  Twin: one, and the unit that follows it. */
  datatype Piece = Raw(b: byte) | Short(b: byte) | Unit(u: seq<byte>) | Lone(u: seq<byte>) | Twin(u: seq<byte>,
    l: seq<byte>)

  predicate IsUnit(u: seq<byte>) {
    |u| == 4 && Hex4(u)
  }

  predicate IsHigh(u: seq<byte>)
    requires IsUnit(u)
  {
    0xD800 <= Hex4Value(u) < 0xDC00
  }

  /** One digit: its place in either row of digits is its value. */
  lemma HexDigitsByPlace(b: byte, v: nat)
    requires v < 16
    ensures IsHexDigit(b) && HexValue(b) == v <==>
      b in {"0123456789abcdef"[v] as int, "0123456789ABCDEF"[v] as int}
  {
  }

  /** Four digits stand for a unit, the most significant first. */
  lemma UnitByPlaces(u: seq<byte>, d0: nat, d1: nat, d2: nat, d3: nat)
    requires |u| == 4 && d0 < 16 && d1 < 16 && d2 < 16 && d3 < 16
    ensures Hex4(u) && Hex4Value(u) == ((d0 * 16 + d1) * 16 + d2) * 16 + d3 <==>
      && IsHexDigit(u[0]) && HexValue(u[0]) == d0 && IsHexDigit(u[1]) && HexValue(u[1]) == d1
      && IsHexDigit(u[2]) && HexValue(u[2]) == d2 && IsHexDigit(u[3]) && HexValue(u[3]) == d3
  {
    hide IsHexDigit, HexValue;
    if Hex4(u) {
      var a, b, c, d := HexValue(u[0]), HexValue(u[1]), HexValue(u[2]), HexValue(u[3]);
      assert Hex4Value(u) == ((a * 16 + b) * 16 + c) * 16 + d;
    }
  }

  predicate GoodPiece(p: Piece) {
    match p
    case Raw(b) => b !in {0, 34, 92}
    case Short(b) => b !in {0, 117}
    case Unit(u) => IsUnit(u) && !IsHigh(u)
    case Lone(u) => IsUnit(u) && IsHigh(u)
    case Twin(u, l) => IsUnit(u) && IsHigh(u) && IsUnit(l)
  }

  function PieceText(p: Piece): seq<byte> {
    match p
    case Raw(b) => [b]
    case Short(b) => [92, b]
    case Unit(u) => [92, 117] + u
    case Lone(u) => [92, 117] + u
    case Twin(u, l) => [92, 117] + u + [92, 117] + l
  }

  /** The bytes that a piece stands for.  Five letters name control bytes; any other byte stands for itself. */
  function PieceOut(p: Piece): seq<byte>
    requires GoodPiece(p)
  {
    match p
    case Raw(b) => [b]
    case Short(b) => [if b == 98 then 8 else if b == 102 then 12 else if b == 110 then 10
                      else if b == 114 then 13 else if b == 116 then 9 else b]
    case Unit(u) =>
      var n := Hex4Value(u);
      if n == 0 || 0xDC00 <= n < 0xE000 then [] else Utf8.Encode(n)
    case Lone(_) => []
    case Twin(u, l) =>
      var n, m := Hex4Value(u), Hex4Value(l);
      if 0xDC00 <= m < 0xE000 then Utf8.Encode(0x1_0000 + (n - 0xD800) * 0x400 + (m - 0xDC00)) else []
  }

  predicate GoodPieces(ps: seq<Piece>) {
    && (forall i :: 0 <= i < |ps| ==> GoodPiece(ps[i]))
    && (forall i :: 0 < i < |ps| && ps[i - 1].Lone? ==> ps[i].Raw? || ps[i].Short?)
  }

  function PiecesThen(ps: seq<Piece>, tail: seq<byte>): seq<byte> {
    if ps == [] then tail else PieceText(ps[0]) + PiecesThen(ps[1..], tail)
  }

  function PiecesOut(ps: seq<Piece>): seq<byte>
    requires GoodPieces(ps)
  {
    if ps == [] then [] else PieceOut(ps[0]) + PiecesOut(ps[1..])
  }

  // ---------- values ----------

  /** A literal is closed by a quote, or left open at the end of the text. */
  datatype Syntax =
    | NullWord
    | FalseWord
    | TrueWord
    | Numeric(neg: bool, zero: bool, digits: seq<byte>)
    | Literal(pieces: seq<Piece>, closed: bool)
    | NoItems(w: seq<byte>)
    | Items(items: seq<Element>)
    | NoMembers(w: seq<byte>)
    | Members(members: seq<Entry>)

  datatype Element = Element(before: seq<byte>, value: Syntax, after: seq<byte>)

  datatype Entry = Entry(before: seq<byte>, name: seq<Piece>, afterName: seq<byte>,
                         beforeValue: seq<byte>, value: Syntax, after: seq<byte>)

  /** A minus sign, a zero and digits that do not start with zero: each may be missing, but not all of them. */
  predicate GoodNumeric(c: Syntax)
    requires c.Numeric?
  {
    && AllDigits(c.digits) && (c.digits != [] ==> c.digits[0] != 48)
    && (c.neg || c.zero || c.digits != [])
    && -0x8000_0000 <= NumericValue(c) <= 0x7FFF_FFFF
  }

  function NumericValue(c: Syntax): int
    requires c.Numeric? && AllDigits(c.digits)
  {
    if c.neg then -(Digits(c.digits, 0) as int) else Digits(c.digits, 0)
  }

  predicate Closed(c: Syntax) {
    c.Literal? ==> c.closed
  }

  predicate Good(c: Syntax) {
    match c
    case Numeric(_, _, _) => GoodNumeric(c)
    case Literal(ps, _) => GoodPieces(ps)
    case NoItems(w) => Blanks(w)
    case Items(items) => items != [] && forall e | e in items :: Good(e.value) && GoodElement(e)
    case NoMembers(w) => Blanks(w)
    case Members(members) => members != [] && forall e | e in members :: Good(e.value) && GoodEntry(e)
    case _ => true
  }

  predicate GoodElement(e: Element) {
    Blanks(e.before) && Blanks(e.after) && Closed(e.value)
  }

  predicate GoodEntry(e: Entry) {
    && Blanks(e.before) && Blanks(e.afterName) && Blanks(e.beforeValue) && Blanks(e.after)
    && GoodPieces(e.name) && Closed(e.value)
  }

  /** What the syntax means. */
  function Meaning(c: Syntax): Json
    requires Good(c)
  {
    match c
    case NullWord => Null
    case FalseWord => False
    case TrueWord => True
    case Numeric(_, _, _) => Number(NumericValue(c))
    case Literal(ps, _) => String(Some(PiecesOut(ps)))
    case NoItems(_) => Array([])
    case Items(items) => Array(ItemMeanings(items))
    case NoMembers(_) => Object([])
    case Members(members) => Object(MemberMeanings(members))
  }

  function ItemMeanings(items: seq<Element>): seq<Json>
    requires forall e | e in items :: Good(e.value) && GoodElement(e)
  {
    if items == [] then [] else [Meaning(items[0].value)] + ItemMeanings(items[1..])
  }

  function MemberMeanings(members: seq<Entry>): seq<Member>
    requires forall e | e in members :: Good(e.value) && GoodEntry(e)
  {
    if members == [] then []
    else
      assert members[0] in members && GoodEntry(members[0]);
      [Member(Some(PiecesOut(members[0].name)), Meaning(members[0].value))] + MemberMeanings(members[1..])
  }

  /** The text of the syntax, and what follows it. */
  function Then(c: Syntax, tail: seq<byte>): seq<byte>
    decreases c, 1
  {
    match c
    case NullWord => [110, 117, 108, 108] + tail
    case FalseWord => [102, 97, 108, 115, 101] + tail
    case TrueWord => [116, 114, 117, 101] + tail
    case Numeric(neg, zero, digits) => (if neg then [45] else []) + ((if zero then [48] else []) + (digits + tail))
    case Literal(ps, closed) => LiteralThen(ps, if closed then [34] + tail else tail)
    case NoItems(w) => [91] + (w + ([93] + tail))
    case Items(items) => [91] + ItemsThen(items, [93] + tail)
    case NoMembers(w) => [123] + (w + ([125] + tail))
    case Members(members) => [123] + MembersThen(members, [125] + tail)
  }

  function LiteralThen(ps: seq<Piece>, tail: seq<byte>): seq<byte> {
    [34] + PiecesThen(ps, tail)
  }

  /** Items with a comma between them. */
  function ItemsThen(items: seq<Element>, tail: seq<byte>): seq<byte>
    decreases items, 1
  {
    if items == [] then tail
    else items[0].before + Then(items[0].value,
           items[0].after + (if |items| == 1 then tail else [44] + ItemsThen(items[1..], tail)))
  }

  function MembersThen(members: seq<Entry>, tail: seq<byte>): seq<byte>
    decreases members, 1
  {
    if members == [] then tail
    else EntryThen(members[0], if |members| == 1 then tail else [44] + MembersThen(members[1..], tail))
  }

  function EntryThen(e: Entry, tail: seq<byte>): seq<byte>
    decreases e, 0
  {
    e.before + LiteralThen(e.name, [34] + (e.afterName + ([58] + (e.beforeValue + Then(e.value, e.after + tail)))))
  }

  /** What may follow: a literal that is left open reaches the end of the text, and a number is not cut short. */
  predicate Stops(c: Syntax, rest: seq<byte>)
    requires Terminated(rest)
  {
    && (c.Literal? && !c.closed ==> rest[0] == 0)
    && (c.Numeric? ==>
          && !(rest[0] == 46 && IsDigit(rest[1])) && rest[0] !in {69, 101}
          && (if c.digits != [] then !(48 <= rest[0] <= 57)
              else !(49 <= rest[0] <= 57) && (rest[0] == 48 ==> c.zero)))
  }

  // ---------- the text of the tree is a text in front of the tail ----------

  lemma Assoc(a: seq<byte>, b: seq<byte>, c: seq<byte>)
    ensures (a + b) + c == a + (b + c)
  {
  }

  lemma {:induction false} PiecesTail(ps: seq<Piece>, a: seq<byte>, b: seq<byte>)
    ensures PiecesThen(ps, a + b) == PiecesThen(ps, a) + b
  {
    hide PieceText;
    if ps != [] {
      PiecesTail(ps[1..], a, b);
      Assoc(PieceText(ps[0]), PiecesThen(ps[1..], a), b);
    }
  }

  lemma LiteralTail(ps: seq<Piece>, a: seq<byte>, b: seq<byte>)
    ensures LiteralThen(ps, a + b) == LiteralThen(ps, a) + b
  {
    hide PiecesThen;
    PiecesTail(ps, a, b);
    Assoc([34], PiecesThen(ps, a), b);
  }

  lemma {:induction false} ThenTail(c: Syntax, a: seq<byte>, b: seq<byte>)
    ensures Then(c, a + b) == Then(c, a) + b
    decreases c, 1
  {
    hide LiteralThen, ItemsThen, MembersThen;
    match c
    case Literal(ps, closed) =>
      Assoc([34], a, b);
      LiteralTail(ps, if closed then [34] + a else a, b);
    case Items(items) =>
      Assoc([93], a, b);
      ItemsTail(items, [93] + a, b);
      Assoc([91], ItemsThen(items, [93] + a), b);
    case Members(members) =>
      Assoc([125], a, b);
      MembersTail(members, [125] + a, b);
      Assoc([123], MembersThen(members, [125] + a), b);
    case _ => LeafTail(c, a, b);
  }

  lemma LeafTail(c: Syntax, a: seq<byte>, b: seq<byte>)
    requires !c.Literal? && !c.Items? && !c.Members?
    ensures Then(c, a + b) == Then(c, a) + b
  {
    match c
    case NullWord => Assoc([110, 117, 108, 108], a, b);
    case FalseWord => Assoc([102, 97, 108, 115, 101], a, b);
    case TrueWord => Assoc([116, 114, 117, 101], a, b);
    case Numeric(neg, zero, digits) =>
      var m, z := if neg then [45] else [], if zero then [48] else [];
      Assoc(digits, a, b);
      Assoc(z, digits + a, b);
      Assoc(m, z + (digits + a), b);
    case NoItems(w) =>
      Assoc([93], a, b);
      Assoc(w, [93] + a, b);
      Assoc([91], w + ([93] + a), b);
    case NoMembers(w) =>
      Assoc([125], a, b);
      Assoc(w, [125] + a, b);
      Assoc([123], w + ([125] + a), b);
  }

  lemma {:induction false} ItemsTail(items: seq<Element>, a: seq<byte>, b: seq<byte>)
    ensures ItemsThen(items, a + b) == ItemsThen(items, a) + b
    decreases items, 1
  {
    hide Then;
    if items != [] {
      var e := items[0];
      var t := if |items| == 1 then a else [44] + ItemsThen(items[1..], a);
      if |items| > 1 {
        ItemsTail(items[1..], a, b);
        Assoc([44], ItemsThen(items[1..], a), b);
      }
      Assoc(e.after, t, b);
      ThenTail(e.value, e.after + t, b);
      Assoc(e.before, Then(e.value, e.after + t), b);
    }
  }

  lemma {:induction false} MembersTail(members: seq<Entry>, a: seq<byte>, b: seq<byte>)
    ensures MembersThen(members, a + b) == MembersThen(members, a) + b
    decreases members, 1
  {
    hide EntryThen;
    if members != [] {
      var t := if |members| == 1 then a else [44] + MembersThen(members[1..], a);
      if |members| > 1 {
        MembersTail(members[1..], a, b);
        Assoc([44], MembersThen(members[1..], a), b);
      }
      EntryTail(members[0], t, b);
    }
  }

  lemma {:induction false} EntryTail(e: Entry, a: seq<byte>, b: seq<byte>)
    ensures EntryThen(e, a + b) == EntryThen(e, a) + b
    decreases e, 0
  {
    hide Then, LiteralThen;
    Assoc(e.after, a, b);
    ThenTail(e.value, e.after + a, b);
    var v := Then(e.value, e.after + a);
    Assoc(e.beforeValue, v, b);
    Assoc([58], e.beforeValue + v, b);
    var colon := [58] + (e.beforeValue + v);
    Assoc(e.afterName, colon, b);
    Assoc([34], e.afterName + colon, b);
    LiteralTail(e.name, [34] + (e.afterName + colon), b);
    Assoc(e.before, LiteralThen(e.name, [34] + (e.afterName + colon)), b);
  }

  /** The text of the syntax does not depend on what follows it. */
  lemma ThenIsText(c: Syntax, tail: seq<byte>)
    ensures Then(c, tail) == Then(c, []) + tail
  {
    hide Then;
    ThenTail(c, [], tail);
    assert [] + tail == tail;
  }

  // ---------- what the tree writes is read as what it means ----------

  lemma {:induction false} SkipBlanks(w: seq<byte>, t: seq<byte>)
    requires Blanks(w) && Terminated(t)
    ensures Terminated(w + t) && Skip(w + t) == Skip(t)
  {
    if w == [] {
      assert w + t == t;
    } else {
      assert (w + t)[1..] == w[1..] + t;
      SkipBlanks(w[1..], t);
    }
  }

  /** Blanks, and then a byte that is none. */
  lemma SkipTo(w: seq<byte>, t: seq<byte>)
    requires Blanks(w) && Terminated(t) && !(1 <= t[0] <= 32)
    ensures Terminated(w + t) && Skip(w + t) == t
  {
    SkipBlanks(w, t);
  }

  lemma ReadPiece(p: Piece, t: seq<byte>)
    requires GoodPiece(p) && Terminated(t) && (p.Lone? ==> t[0] != 92 || t[1] != 117)
    ensures Terminated(PieceText(p) + t)
    ensures ReadString(PieceText(p) + t) == Prepend(PieceOut(p), ReadString(t))
  {
    hide ReadEscape, PieceOut;
    var x := PieceText(p);
    var s := x + t;
    assert s[|x|..] == t;
    if p.Raw? {
      assert s[0] == p.b && PieceOut(p) == [p.b] by { RawOut(p); }
    } else {
      ReadPieceEscape(p, t);
    }
  }

  lemma RawOut(p: Piece)
    requires GoodPiece(p) && p.Raw?
    ensures PieceOut(p) == [p.b]
  {
  }

  lemma ReadPieceEscape(p: Piece, t: seq<byte>)
    requires GoodPiece(p) && !p.Raw? && Terminated(t) && (p.Lone? ==> t[0] != 92 || t[1] != 117)
    ensures Terminated(PieceText(p) + t) && (PieceText(p) + t)[0] == BACKSLASH
    ensures ReadEscape(PieceText(p) + t) == Reads(PieceOut(p), |PieceText(p)|)
  {
    hide Hex4, Hex4Value, Utf8.Encode, Utf8.Combine;
    match p
    case Short(b) => assert (PieceText(p) + t)[1] == b;
    case Unit(u) => ReadUnit(u, t);
    case Lone(u) => ReadUnit(u, t);
    case Twin(u, l) => ReadTwin(u, l, t);
  }

  lemma ReadUnit(u: seq<byte>, t: seq<byte>)
    requires IsUnit(u) && Terminated(t) && (IsHigh(u) ==> t[0] != 92 || t[1] != 117)
    ensures var p := if IsHigh(u) then Lone(u) else Unit(u);
      ReadEscape([92, 117] + u + t) == Reads(PieceOut(p), 6)
  {
    hide Hex4, Hex4Value, Utf8.Encode;
    var s := [92, 117] + u + t;
    UnitStands(u, t);
    assert s[6..] == t && s[6] == t[0] && (t[0] == 92 ==> s[7] == t[1]);
  }

  lemma ReadTwin(u: seq<byte>, l: seq<byte>, t: seq<byte>)
    requires IsUnit(u) && IsHigh(u) && IsUnit(l) && Terminated(t)
    ensures ReadEscape([92, 117] + u + [92, 117] + l + t) == Reads(PieceOut(Twin(u, l)), 12)
  {
    hide Hex4, Hex4Value, Utf8.Encode;
    var t2 := [92, 117] + l + t;
    var s := [92, 117] + u + t2;
    assert [92, 117] + u + [92, 117] + l + t == s;
    UnitStands(u, t2);
    UnitStands(l, t);
    assert s[6..] == t2 && s[8..] == t2[2..] && s[6] == 92 && s[7] == 117;
    HighLow(Hex4Value(u), Hex4Value(l));
  }

  lemma HighLow(n: nat, m: nat)
    requires 0xD800 <= n < 0xDC00
    ensures 0xDC00 <= m < 0xE000 ==> Utf8.Combine(n, m) == 0x1_0000 + (n - 0xD800) * 0x400 + (m - 0xDC00)
  {
  }

  lemma UnitStands(u: seq<byte>, t: seq<byte>)
    requires IsUnit(u)
    ensures var s := [92, 117] + u + t; Hex4(s[2..]) && Hex4Value(s[2..]) == Hex4Value(u)
  {
    hide HexValue, IsHexDigit;
    var s := [92, 117] + u + t;
    assert s[2..] == u + t;
  }

  lemma {:induction false} ReadPieces(ps: seq<Piece>, tail: seq<byte>)
    requires GoodPieces(ps) && Terminated(tail) && tail[0] in {0, 34}
    ensures Terminated(PiecesThen(ps, tail))
    ensures ReadString(PiecesThen(ps, tail)) == Ok(PiecesOut(ps), if tail[0] == 34 then tail[1..] else tail)
    ensures ps != [] && (ps[0].Raw? || ps[0].Short?) ==> PiecesThen(ps, tail)[0] != 92 || PiecesThen(ps, tail)[1] != 117
  {
    hide ReadEscape, PieceOut;
    if ps != [] {
      ReadPieces(ps[1..], tail);
      ReadPiece(ps[0], PiecesThen(ps[1..], tail));
    }
  }

  lemma ReadLiteral(ps: seq<Piece>, tail: seq<byte>)
    requires GoodPieces(ps) && Terminated(tail) && tail[0] in {0, 34}
    ensures Terminated(LiteralThen(ps, tail)) && LiteralThen(ps, tail)[0] == 34
    ensures ParseString(LiteralThen(ps, tail)) == Ok(PiecesOut(ps), if tail[0] == 34 then tail[1..] else tail)
  {
    hide PiecesThen, PiecesOut;
    ReadPieces(ps, tail);
    assert LiteralThen(ps, tail)[1..] == PiecesThen(ps, tail);
  }

  lemma {:induction false} DigitsThen(f: seq<byte>, rest: seq<byte>)
    requires AllDigits(f) && Terminated(rest) && (f != [] ==> !IsDigit(rest[0]))
    ensures Terminated(f + rest) && (f != [] ==> ReadDigits(f + rest, 0) == (Digits(f, 0), rest))
  {
    if f != [] {
      ReadDigitRow(f, 0, rest);
    }
  }

  /** The digits of a number, behind its sign. */
  lemma ReadWholePart(zero: bool, f: seq<byte>, rest: seq<byte>)
    requires AllDigits(f) && (f != [] ==> f[0] != 48) && Terminated(rest)
    requires if f != [] then !IsDigit(rest[0]) else !(49 <= rest[0] <= 57) && (rest[0] == 48 ==> zero)
    ensures var z := (if zero then [48] else []) + (f + rest);
      && Terminated(z) && (zero || f != [] ==> IsDigit(z[0])) && ReadWhole(z) == (Digits(f, 0), rest)
  {
    hide ReadDigits, Digits;
    var d := f + rest;
    DigitsThen(f, rest);
    if f == [] {
      assert d == rest;
      NoDigits(0);
    }
    assert zero ==> ([48] + d)[1..] == d;
    assert [] + d == d;
  }

  lemma NumericRest(c: Syntax, rest: seq<byte>)
    requires c.Numeric? && Terminated(rest) && Stops(c, rest)
    ensures !NumberGoesOn(rest)
    ensures if c.digits != [] then !IsDigit(rest[0]) else !(49 <= rest[0] <= 57) && (rest[0] == 48 ==> c.zero)
  {
  }

  lemma SignedText(c: Syntax, rest: seq<byte>, z: seq<byte>)
    requires c.Numeric? && GoodNumeric(c) && z == (if c.zero then [48] else []) + (c.digits + rest)
    requires Terminated(z) && (c.zero || c.digits != [] ==> IsDigit(z[0])) && Terminated(rest)
    requires !c.neg ==> c.zero || c.digits != []
    ensures var s := Then(c, rest); Terminated(s) && (s[0] == MINUS <==> c.neg) && z == (if c.neg then s[1..] else s)
    ensures !c.neg ==> IsDigit(Then(c, rest)[0])
    ensures IsInt32(NumericValue(c))
  {
    hide Digits;
    assert Then(c, rest) == if c.neg then [45] + z else z;
  }

  lemma ReadNumeric(c: Syntax, rest: seq<byte>)
    requires c.Numeric? && GoodNumeric(c) && Terminated(rest) && Stops(c, rest)
    ensures Terminated(Then(c, rest)) && (Then(c, rest)[0] == 45 || IsDigit(Then(c, rest)[0]))
    ensures ParseNumber(Then(c, rest)) == Ok(Number(NumericValue(c)), rest)
  {
    hide ReadDigits, Digits, ReadWhole, Then, ParseNumber, Stops, NumberGoesOn, IsInt32;
    NumericRest(c, rest);
    ReadWholePart(c.zero, c.digits, rest);
    var z := (if c.zero then [48] else []) + (c.digits + rest);
    SignedText(c, rest, z);
    NumberOfWhole(Then(c, rest));
  }

  /** The integer part of the two ways to read a number is the same. */
  lemma NumberOfWhole(s: seq<byte>)
    requires Terminated(s) && (s[0] == MINUS || IsDigit(s[0]))
    ensures var (n, rest) := ReadWhole(if s[0] == MINUS then s[1..] else s);
      var value := if s[0] == MINUS then -(n as int) else n as int;
      ParseNumber(s) == if NumberGoesOn(rest) || !IsInt32(value) then Beyond else Ok(Number(value), rest)
  {
    hide ReadDigits;
  }

  lemma ReadWord(c: Syntax, rest: seq<byte>)
    requires c.NullWord? || c.FalseWord? || c.TrueWord?
    requires Terminated(rest)
    ensures Terminated(Then(c, rest)) && Then(c, rest)[0] > 32 && ParseValue(Then(c, rest)) == Ok(Meaning(c), rest)
  {
    var s := Then(c, rest);
    assert c.FalseWord? ==> s[5..] == rest && StartsWith(s, FALSE_TEXT);
    assert c.NullWord? ==> s[4..] == rest && StartsWith(s, NULL_TEXT);
    assert c.TrueWord? ==> s[4..] == rest && StartsWith(s, TRUE_TEXT);
  }

  /** The text of any good syntax is read as what it means, up to its end. */
  lemma {:induction false} ReadsAsMeant(c: Syntax, rest: seq<byte>)
    requires Good(c) && Terminated(rest) && Stops(c, rest)
    ensures Terminated(Then(c, rest)) && Then(c, rest)[0] > 32
    ensures ParseValue(Then(c, rest)) == Ok(Meaning(c), rest)
    decreases c, 3
  {
    hide ParseArray, ParseObject, LiteralThen, ItemsThen, MembersThen, Skip, ParseValue;
    hide ItemMeanings, MemberMeanings;
    match c
    case Numeric(_, _, _) => ReadNumericValue(c, rest);
    case Literal(_, _) => ReadLiteralValue(c, rest);
    case NoItems(w) =>
      ReadNothing(w, rest);
      ReadBracket(w + ([93] + rest));
    case NoMembers(w) =>
      ReadNothing(w, rest);
      ReadBracket(w + ([125] + rest));
    case Items(items) =>
      ReadItems(items, rest);
      ReadBracket(ItemsThen(items, [93] + rest));
    case Members(members) =>
      ReadMembers(members, rest);
      ReadBracket(MembersThen(members, [125] + rest));
    case _ => ReadWord(c, rest);
  }

  lemma ReadNumericValue(c: Syntax, rest: seq<byte>)
    requires c.Numeric? && GoodNumeric(c) && Terminated(rest) && Stops(c, rest)
    ensures Terminated(Then(c, rest)) && Then(c, rest)[0] > 32
    ensures ParseValue(Then(c, rest)) == Ok(Number(NumericValue(c)), rest)
  {
    hide ParseNumber, ParseArray, ParseObject, ParseString, Then, Stops;
    ReadNumeric(c, rest);
  }

  lemma ReadLiteralValue(c: Syntax, rest: seq<byte>)
    requires c.Literal? && GoodPieces(c.pieces) && Terminated(rest) && Stops(c, rest)
    ensures Terminated(Then(c, rest)) && Then(c, rest)[0] > 32
    ensures ParseValue(Then(c, rest)) == Ok(String(Some(PiecesOut(c.pieces))), rest)
  {
    hide ParseNumber, ParseArray, ParseObject, ParseString, LiteralThen, PiecesOut;
    var tail := if c.closed then [34] + rest else rest;
    ReadLiteral(c.pieces, tail);
    assert c.closed ==> tail[1..] == rest;
  }

  lemma ReadBracket(t: seq<byte>)
    requires Terminated(t)
    ensures ParseValue([91] + t) == ParseArray(t) && ParseValue([123] + t) == ParseObject(t)
  {
    JsonRoundTrip.ParseBracket(t);
  }

  lemma ReadNothing(w: seq<byte>, rest: seq<byte>)
    requires Blanks(w) && Terminated(rest)
    ensures Terminated(w + ([93] + rest)) && Terminated(w + ([125] + rest))
    ensures ParseArray(w + ([93] + rest)) == Ok(Array([]), rest)
    ensures ParseObject(w + ([125] + rest)) == Ok(Object([]), rest)
  {
    SkipTo(w, [93] + rest);
    SkipTo(w, [125] + rest);
    assert ([93] + rest)[1..] == rest && ([125] + rest)[1..] == rest;
  }

  /** A value in a list is followed by blanks and a comma or a bracket, none of which goes on from it. */
  lemma AfterValue(c: Syntax, after: seq<byte>, t: seq<byte>)
    requires Closed(c) && Blanks(after) && Terminated(t) && t[0] in {44, 93, 125}
    ensures Terminated(after + t) && Stops(c, after + t) && Skip(after + t) == t
  {
    SkipTo(after, t);
  }

  lemma {:induction false} ReadItems(items: seq<Element>, rest: seq<byte>)
    requires items != [] && (forall e | e in items :: Good(e.value) && GoodElement(e)) && Terminated(rest)
    ensures var s := ItemsThen(items, [93] + rest);
      && Terminated(s) && Skip(s)[0] != 93
      && ParseItems(s) == Ok(ItemMeanings(items), rest)
      && ParseArray(s) == Ok(Array(ItemMeanings(items)), rest)
    decreases items, 2
  {
    hide Then, ParseValue, Meaning, Good, Skip, ParseItems, ParseArray, ItemMeanings, ItemsThen, GoodElement, Stops;
    var e := items[0];
    var close := [93] + rest;
    var more := ItemsThen(items[1..], close);
    var t := if |items| == 1 then close else [44] + more;
    assert close[1..] == rest && ([44] + more)[1..] == more;
    if |items| > 1 {
      ReadItems(items[1..], rest);
    }
    FirstItem(items, close, t);
    ReadElement(e, t);
    ItemsOn(ItemsThen(items, close), Meaning(e.value), e.after + t, t);
  }

  /** One item, and the comma or the bracket behind it. */
  lemma ReadElement(e: Element, t: seq<byte>)
    requires Good(e.value) && GoodElement(e) && Terminated(t) && t[0] in {44, 93}
    ensures Terminated(e.after + t) && Skip(e.after + t) == t
    ensures var s := e.before + Then(e.value, e.after + t);
      && Terminated(s) && !(Skip(s)[0] in {93, 125}) && Skip(Skip(s)) == Skip(s)
      && ParseValue(Skip(s)) == Ok(Meaning(e.value), e.after + t)
    decreases e, 4
  {
    hide Then, ParseValue, Meaning, Good, Skip;
    AfterValue(e.value, e.after, t);
    ReadsAsMeant(e.value, e.after + t);
    var v := Then(e.value, e.after + t);
    SkipTo(e.before, v);
    SkipTo([], v);
    assert [] + v == v;
    NotBracket(e.value, e.after + t);
  }

  lemma FirstItem(items: seq<Element>, close: seq<byte>, t: seq<byte>)
    requires items != [] && forall e | e in items :: Good(e.value) && GoodElement(e)
    requires t == if |items| == 1 then close else [44] + ItemsThen(items[1..], close)
    ensures items[0] in items && Good(items[0].value) && GoodElement(items[0])
    ensures ItemsThen(items, close) == items[0].before + Then(items[0].value, items[0].after + t)
    ensures ItemMeanings(items) == [Meaning(items[0].value)] + ItemMeanings(items[1..])
    ensures |items| == 1 ==> ItemMeanings(items) == [Meaning(items[0].value)]
  {
    hide Then, Meaning, Good, GoodElement;
    if |items| == 1 {
      assert items[1..] == [];
    }
  }

  /** What the parser makes of one item and what follows it. */
  lemma ItemsOn(s: seq<byte>, x: Json, after: seq<byte>, t: seq<byte>)
    requires Terminated(s) && Terminated(after) && Terminated(t) && Skip(s)[0] != 93 && Skip(Skip(s)) == Skip(s)
    requires ParseValue(Skip(s)) == Ok(x, after) && Skip(after) == t && t[0] in {44, 93}
    ensures ParseItems(s) == if t[0] == 44 then Prepend([x], ParseItems(t[1..])) else Ok([x], t[1..])
    ensures ParseItems(s).Ok? ==> ParseArray(s) == Ok(Array(ParseItems(s).value), ParseItems(s).rest)
  {
    hide Skip;
    OneItem(s, Skip(s), x, after, t);
    OneItem(Skip(s), Skip(s), x, after, t);
    ArrayOf(s);
  }

  lemma ArrayOf(s: seq<byte>)
    requires Terminated(s) && Skip(s)[0] != 93 && ParseItems(Skip(s)) == ParseItems(s)
    ensures ParseItems(s).Ok? ==> ParseArray(s) == Ok(Array(ParseItems(s).value), ParseItems(s).rest)
  {
    hide ParseItems, Skip;
  }

  /** A value does not start with a closing bracket. */
  lemma NotBracket(c: Syntax, rest: seq<byte>)
    requires Good(c)
    ensures |Then(c, rest)| > 0 ==> c.Numeric? || Then(c, rest)[0] !in {93, 125}
    ensures c.Numeric? && Then(c, rest) != [] ==> Then(c, rest)[0] == 45 || IsDigit(Then(c, rest)[0])
  {
  }

  /** What the parser makes of one item and what follows it. */
  lemma OneItem(s: seq<byte>, v: seq<byte>, x: Json, after: seq<byte>, t: seq<byte>)
    requires Terminated(s) && Skip(s) == v && Terminated(v) && Terminated(after) && Terminated(t)
    requires ParseValue(v) == Ok(x, after) && Skip(after) == t && t[0] in {44, 93}
    ensures ParseItems(s) == if t[0] == 44 then Prepend([x], ParseItems(t[1..])) else Ok([x], t[1..])
  {
    hide ParseValue, Skip;
  }

  lemma {:induction false} ReadMembers(members: seq<Entry>, rest: seq<byte>)
    requires members != [] && (forall e | e in members :: Good(e.value) && GoodEntry(e)) && Terminated(rest)
    ensures var s := MembersThen(members, [125] + rest);
      && Terminated(s) && ParseMembers(s) == Ok(MemberMeanings(members), rest)
      && ParseObject(s) == Ok(Object(MemberMeanings(members)), rest)
    decreases members, 2
  {
    hide ParseValue, Meaning, Good, Skip, ParseMembers, ParseMember, ParseObject, EntryThen, GoodEntry, PiecesOut;
    hide MemberMeanings, MembersThen;
    var e := members[0];
    var close := [125] + rest;
    var more := MembersThen(members[1..], close);
    var t := if |members| == 1 then close else [44] + more;
    assert close[1..] == rest && ([44] + more)[1..] == more;
    if |members| > 1 {
      ReadMembers(members[1..], rest);
    }
    FirstMember(members, close, t);
    ReadEntry(e, t);
    OneMember(EntryThen(e, t), Member(Some(PiecesOut(e.name)), Meaning(e.value)), e.after + t, t);
  }

  lemma ReadEntry(e: Entry, t: seq<byte>)
    requires Good(e.value) && GoodEntry(e) && Terminated(t) && t[0] in {44, 125}
    ensures var s := EntryThen(e, t);
      && Terminated(s) && Skip(s)[0] == 34
      && ParseMember(s) == Ok(Member(Some(PiecesOut(e.name)), Meaning(e.value)), e.after + t)
      && ParseMember(Skip(s)) == ParseMember(s)
    ensures Terminated(e.after + t) && Skip(e.after + t) == t
    decreases e, 4
  {
    hide Then, ParseValue, Meaning, Good, Skip, ParseString, LiteralThen, PiecesOut;
    AfterValue(e.value, e.after, t);
    ReadsAsMeant(e.value, e.after + t);
    var v := Then(e.value, e.after + t);
    SkipTo(e.beforeValue, v);
    var colon := [58] + (e.beforeValue + v);
    assert colon[1..] == e.beforeValue + v;
    SkipTo(e.afterName, colon);
    var close := [34] + (e.afterName + colon);
    assert close[1..] == e.afterName + colon;
    ReadLiteral(e.name, close);
    var name := LiteralThen(e.name, close);
    SkipTo(e.before, name);
    SkipTo([], name);
    assert [] + name == name;
  }

  lemma FirstMember(members: seq<Entry>, close: seq<byte>, t: seq<byte>)
    requires members != [] && forall e | e in members :: Good(e.value) && GoodEntry(e)
    requires t == if |members| == 1 then close else [44] + MembersThen(members[1..], close)
    ensures members[0] in members && Good(members[0].value) && GoodEntry(members[0]) && GoodPieces(members[0].name)
    ensures MembersThen(members, close) == EntryThen(members[0], t)
    ensures var m := Member(Some(PiecesOut(members[0].name)), Meaning(members[0].value));
      && MemberMeanings(members) == [m] + MemberMeanings(members[1..])
      && (|members| == 1 ==> MemberMeanings(members) == [m])
  {
    hide EntryThen, Meaning, Good, PiecesOut;
    assert members[0] in members && GoodEntry(members[0]);
    if |members| == 1 {
      assert members[1..] == [];
    }
  }

  lemma OneMember(s: seq<byte>, m: Member, after: seq<byte>, t: seq<byte>)
    requires Terminated(s) && Terminated(t) && Terminated(after)
    requires ParseMember(s) == Ok(m, after) && Skip(after) == t && t[0] in {44, 125}
    requires Skip(s)[0] == 34 && ParseMember(Skip(s)) == ParseMember(s)
    ensures ParseMembers(s) == if t[0] == 44 then Prepend([m], ParseMembers(t[1..])) else Ok([m], t[1..])
    ensures ParseMembers(Skip(s)) == ParseMembers(s)
    ensures ParseMembers(s).Ok? ==> ParseObject(s) == Ok(Object(ParseMembers(s).value), ParseMembers(s).rest)
  {
    hide ParseMember, ParseMembers, ParseObject, Skip;
    MembersStep(s, m, after, t);
    MembersStep(Skip(s), m, after, t);
    ObjectOf(s);
  }

  lemma MembersStep(s: seq<byte>, m: Member, after: seq<byte>, t: seq<byte>)
    requires Terminated(s) && Terminated(t) && Terminated(after)
    requires ParseMember(s) == Ok(m, after) && Skip(after) == t && t[0] in {44, 125}
    ensures ParseMembers(s) == if t[0] == 44 then Prepend([m], ParseMembers(t[1..])) else Ok([m], t[1..])
  {
    hide ParseMember, Skip;
  }

  lemma ObjectOf(s: seq<byte>)
    requires Terminated(s) && Skip(s)[0] == 34 && ParseMembers(Skip(s)) == ParseMembers(s)
    ensures ParseMembers(s).Ok? ==> ParseObject(s) == Ok(Object(ParseMembers(s).value), ParseMembers(s).rest)
  {
    hide ParseMembers, Skip;
  }
}
