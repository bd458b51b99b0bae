/** The spelling of unformatted text: of all the texts that stand for a value, the one without blanks, with its numbers
    in least digits and its strings in least escapes. */
module JsonCompact {
  import opened Bytes
  import opened JsonText
  import opened JsonEmit
  import opened JsonNumber
  import opened JsonSyntax

  /** Digits of a unit in lower case. */
  predicate LowerCase(u: seq<byte>) {
    forall i :: 0 <= i < |u| ==> 48 <= u[i] <= 57 || 97 <= u[i] <= 102
  }

  /** Bytes from 32 on stand for themselves, but for the quote and the backslash; five control bytes have a letter, the
      others four digits. */
  predicate CompactPiece(p: Piece) {
    match p
    case Raw(b) => b >= 32
    case Short(b) => b in {34, 92, 98, 102, 110, 114, 116}
    case Unit(u) => IsUnit(u) && LowerCase(u) && 0 < Hex4Value(u) < 32 && Hex4Value(u) !in {8, 9, 10, 12, 13}
    case _ => false
  }

  predicate CompactPieces(ps: seq<Piece>) {
    forall i :: 0 <= i < |ps| ==> CompactPiece(ps[i])
  }

  predicate Compact(c: Syntax) {
    match c
    case Numeric(neg, zero, digits) => (zero <==> digits == []) && (neg ==> digits != [])
    case Literal(ps, closed) => CompactPieces(ps) && closed
    case NoItems(w) => w == []
    case Items(items) => forall e | e in items :: Compact(e.value) && e.before == e.after == []
    case NoMembers(w) => w == []
    case Members(members) =>
      forall e | e in members :: Compact(e.value) && CompactPieces(e.name)
                                 && e.before == e.afterName == e.beforeValue == e.after == []
    case _ => true
  }

  // ---------- numbers ----------

  lemma {:induction false} DigitsSnoc(f: seq<byte>, d: byte, acc: nat)
    requires AllDigits(f) && IsDigit(d)
    ensures AllDigits(f + [d]) && Digits(f + [d], acc) == Digits(f, acc) * 10 + (d - 48)
  {
    if f == [] {
      assert f + [d] == [d];
    } else {
      assert (f + [d])[1..] == f[1..] + [d];
      DigitsSnoc(f[1..], d, acc * 10 + (f[0] - 48));
    }
  }

  /** Without a zero in front, the digits of a number are those that are printed for it. */
  lemma {:induction false} PrintsDigits(f: seq<byte>)
    requires AllDigits(f) && f != [] && f[0] != 48
    ensures Digits(f, 0) > 0 && PrintNat(Digits(f, 0)) == f
    decreases |f|
  {
    var g, d := f[..|f| - 1], f[|f| - 1];
    assert f == g + [d];
    DigitsSnoc(g, d, 0);
    if g == [] {
      NoDigits(0);
    } else {
      PrintsDigits(g);
      var n := Digits(g, 0);
      assert (n * 10 + (d - 48)) / 10 == n && (n * 10 + (d - 48)) % 10 == d - 48;
    }
  }

  lemma {:induction false} PrintedDigits(n: nat)
    requires n > 0
    ensures AllDigits(PrintNat(n)) && Digits(PrintNat(n), 0) == n && PrintNat(n)[0] != 48
  {
    if n >= 10 {
      PrintedDigits(n / 10);
      DigitsSnoc(PrintNat(n / 10), 48 + n % 10, 0);
    }
  }

  lemma CompactNumber(c: Syntax, tail: seq<byte>)
    requires c.Numeric? && GoodNumeric(c) && Compact(c)
    ensures Then(c, tail) == PrintInt(NumericValue(c)) + tail
  {
    hide Digits;
    if c.digits == [] {
      NoDigits(0);
      assert Then(c, tail) == [48] + tail;
    } else {
      PrintsDigits(c.digits);
      assert [] + (c.digits + tail) == c.digits + tail;
    }
  }

  // ---------- strings ----------

  lemma CompactByte(p: Piece)
    requires GoodPiece(p) && CompactPiece(p)
    ensures |PieceOut(p)| == 1 && EscapeByte(PieceOut(p)[0]) == PieceText(p)
  {
    hide Hex4Value, PrintHex4;
    if p.Unit? {
      LowerUnit(p.u);
    }
  }

  lemma LowerUnit(u: seq<byte>)
    requires IsUnit(u) && LowerCase(u)
    ensures PrintHex4(Hex4Value(u)) == u
  {
    LowerDigit(u[0]);
    LowerDigit(u[1]);
    LowerDigit(u[2]);
    LowerDigit(u[3]);
    Places(HexValue(u[0]), HexValue(u[1]), HexValue(u[2]), HexValue(u[3]));
  }

  lemma LowerDigit(b: byte)
    requires 48 <= b <= 57 || 97 <= b <= 102
    ensures IsHexDigit(b) && HexDigit(HexValue(b)) == b
  {
  }

  lemma Places(a: nat, b: nat, c: nat, d: nat)
    requires a < 16 && b < 16 && c < 16 && d < 16
    ensures var v := a * 4096 + b * 256 + c * 16 + d;
      v / 16 / 16 / 16 == a && v / 16 / 16 % 16 == b && v / 16 % 16 == c && v % 16 == d
  {
    var v := a * 4096 + b * 256 + c * 16 + d;
    assert v / 16 == a * 256 + b * 16 + c;
    assert v / 16 / 16 == a * 16 + b;
  }

  lemma {:induction false} CompactString(ps: seq<Piece>, tail: seq<byte>)
    requires GoodPieces(ps) && CompactPieces(ps)
    ensures PiecesThen(ps, tail) == EmitEscaped(PiecesOut(ps), tail)
  {
    hide EscapeByte, PieceOut, PieceText;
    if ps != [] {
      CompactByte(ps[0]);
      CompactString(ps[1..], tail);
      var b := PieceOut(ps[0])[0];
      assert PieceOut(ps[0]) == [b];
      assert ([b] + PiecesOut(ps[1..]))[1..] == PiecesOut(ps[1..]);
    }
  }

  lemma CompactText(ps: seq<Piece>, tail: seq<byte>)
    requires GoodPieces(ps) && CompactPieces(ps)
    ensures LiteralThen(ps, [34] + tail) == EmitText(Some(PiecesOut(ps)), tail)
  {
    CompactString(ps, [34] + tail);
  }

  // ---------- values ----------

  /** A compact tree writes what is printed for its meaning. */
  lemma {:induction false} CompactIsPrinted(c: Syntax, depth: nat, tail: seq<byte>)
    requires Good(c) && Compact(c)
    ensures Then(c, tail) == Emit(Meaning(c), depth, false, tail)
    decreases c, 2
  {
    hide LiteralThen, ItemsThen, MembersThen, ItemMeanings, MemberMeanings, PiecesOut, EmitItems, EmitMembers, EmitText;
    hide PrintInt, EmitBody;
    match c
    case Numeric(_, _, _) => CompactNumber(c, tail);
    case Literal(ps, _) => CompactText(ps, tail);
    case NoItems(w) => assert w + ([93] + tail) == [93] + tail; NothingEmitted(depth, tail);
    case NoMembers(w) => assert w + ([125] + tail) == [125] + tail; NothingEmitted(depth, tail);
    case Items(items) => CompactItems(items, depth + 1, [93] + tail);
    case Members(members) =>
      CompactMembers(members, depth + 1, [125] + tail);
      SomeMembers(members);
      BodyEmitted(MemberMeanings(members), depth, [125] + tail);
    case _ =>
  }

  lemma NothingEmitted(depth: nat, close: seq<byte>)
    ensures EmitItems([], depth + 1, false, [93] + close) == [93] + close
    ensures EmitBody([], depth, false, [125] + close) == [125] + close
  {
  }

  lemma BodyEmitted(ms: seq<Member>, depth: nat, close: seq<byte>)
    requires ms != []
    ensures EmitBody(ms, depth, false, close) == EmitMembers(ms, depth + 1, false, close)
  {
    hide EmitMembers;
  }

  lemma SomeMembers(members: seq<Entry>)
    requires members != [] && forall e | e in members :: Good(e.value) && GoodEntry(e)
    ensures MemberMeanings(members) != []
  {
    hide Good, GoodEntry, PiecesOut, Meaning;
    FirstMember(members, [], if |members| == 1 then [] else [44] + MembersThen(members[1..], []));
  }

  lemma {:induction false} CompactItems(items: seq<Element>, depth: nat, tail: seq<byte>)
    requires items != [] && forall e | e in items :: Good(e.value) && GoodElement(e)
    requires forall e | e in items :: Compact(e.value) && e.before == e.after == []
    ensures ItemsThen(items, tail) == EmitItems(ItemMeanings(items), depth, false, tail)
    decreases items, 1
  {
    hide Then, Good, GoodElement, Compact, Meaning, Emit, ItemMeanings, ItemsThen;
    var e := items[0];
    var t := if |items| == 1 then tail else [44] + ItemsThen(items[1..], tail);
    FirstItem(items, tail, t);
    assert e in items && e.before == [] && e.after == [];
    CompactIsPrinted(e.value, depth, t);
    assert [] + t == t && [] + Then(e.value, t) == Then(e.value, t);
    var vs := ItemMeanings(items);
    assert vs[0] == Meaning(e.value) && vs[1..] == ItemMeanings(items[1..]);
    if |items| > 1 {
      CompactItems(items[1..], depth, tail);
      FirstItem(items[1..], tail, if |items| == 2 then tail else [44] + ItemsThen(items[1..][1..], tail));
    } else {
      assert |vs| == 1;
    }
  }

  lemma {:induction false} CompactMembers(members: seq<Entry>, depth: nat, tail: seq<byte>)
    requires members != [] && forall e | e in members :: Good(e.value) && GoodEntry(e)
    requires forall e | e in members ::
      Compact(e.value) && CompactPieces(e.name) && e.before == e.afterName == e.beforeValue == e.after == []
    ensures MembersThen(members, tail) == EmitMembers(MemberMeanings(members), depth, false, tail)
    decreases members, 1
  {
    hide EntryThen, Good, GoodEntry, Compact, CompactPieces, Meaning, EmitMember, MemberMeanings, MembersThen,
      PiecesOut;
    var e := members[0];
    var t := if |members| == 1 then tail else [44] + MembersThen(members[1..], tail);
    FirstMember(members, tail, t);
    assert e in members && Compact(e.value);
    CompactEntry(e, depth, t);
    var ms := MemberMeanings(members);
    assert ms[1..] == MemberMeanings(members[1..]);
    if |members| > 1 {
      CompactMembers(members[1..], depth, tail);
      SomeMembers(members[1..]);
    } else {
      assert |ms| == 1;
    }
  }

  lemma CompactEntry(e: Entry, depth: nat, t: seq<byte>)
    requires Good(e.value) && GoodEntry(e) && GoodPieces(e.name)
    requires Compact(e.value) && CompactPieces(e.name) && e.before == e.afterName == e.beforeValue == e.after == []
    ensures EntryThen(e, t) == EmitMember(Member(Some(PiecesOut(e.name)), Meaning(e.value)), depth, false, t)
    decreases e, 3
  {
    hide Then, Good, GoodEntry, Compact, CompactPieces, GoodPieces, Meaning, Emit, PiecesOut, LiteralThen, EmitText;
    CompactIsPrinted(e.value, depth, t);
    var v := Then(e.value, t);
    assert [] + t == t && [] + v == v && [] + ([58] + v) == [58] + v;
    CompactText(e.name, [58] + v);
    var name := LiteralThen(e.name, [34] + ([58] + v));
    assert [] + name == name;
  }

  // ---------- every value has a compact tree ----------

  lemma BytePiece(b: byte) returns (p: Piece)
    requires b != 0
    ensures GoodPiece(p) && CompactPiece(p) && !p.Lone? && PieceOut(p) == [b]
  {
    hide Hex4Value, PrintHex4, IsHexDigit;
    if b >= 32 && b != 34 && b != 92 {
      p := Raw(b);
    } else if b in {8, 9, 10, 12, 13, 34, 92} {
      p := Short(if b == 8 then 98 else if b == 9 then 116 else if b == 10 then 110
                 else if b == 12 then 102 else if b == 13 then 114 else b);
    } else {
      p := Unit(PrintHex4(b));
      PrintedLower(b);
    }
  }

  lemma PrintedLower(n: nat)
    requires n < 0x1_0000
    ensures LowerCase(PrintHex4(n))
  {
  }

  lemma {:induction false} StringPieces(x: seq<byte>) returns (ps: seq<Piece>)
    requires NulFree(x)
    ensures GoodPieces(ps) && CompactPieces(ps) && PiecesOut(ps) == x && forall i :: 0 <= i < |ps| ==> !ps[i].Lone?
  {
    hide GoodPiece, CompactPiece, PieceOut;
    if x == [] {
      ps := [];
    } else {
      var p := BytePiece(x[0]);
      ps := StringPieces(x[1..]);
      assert ([p] + ps)[1..] == ps;
      ps := [p] + ps;
      assert [x[0]] + x[1..] == x;
    }
  }

  lemma {:induction false} HasCompact(v: Json) returns (c: Syntax)
    requires Printable(v)
    ensures Good(c) && Compact(c) && Closed(c) && Meaning(c) == v
    decreases v, 1
  {
    hide GoodPieces, CompactPieces, PiecesOut, Digits;
    match v
    case Null => c := NullWord;
    case False => c := FalseWord;
    case True => c := TrueWord;
    case Number(n) =>
      NoDigits(0);
      if n == 0 {
        c := Numeric(false, true, []);
      } else {
        PrintedDigits(if n < 0 then -n else n);
        c := Numeric(n < 0, false, PrintNat(if n < 0 then -n else n));
      }
    case String(t) =>
      var ps := StringPieces(t.value);
      c := Literal(ps, true);
    case Array(vs) =>
      if vs == [] {
        c := NoItems([]);
      } else {
        var items := HaveCompact(vs);
        c := Items(items);
      }
    case Object(ms) =>
      if ms == [] {
        c := NoMembers([]);
      } else {
        var members := MembersHaveCompact(ms);
        c := Members(members);
      }
  }

  lemma {:induction false} HaveCompact(vs: seq<Json>) returns (items: seq<Element>)
    requires forall v | v in vs :: Printable(v)
    ensures |items| == |vs| && forall e | e in items :: Good(e.value) && GoodElement(e)
    ensures forall e | e in items :: Compact(e.value) && e.before == e.after == []
    ensures ItemMeanings(items) == vs
    decreases vs, 0
  {
    hide Good, Compact, Meaning, Printable;
    if vs == [] {
      items := [];
    } else {
      var c := HasCompact(vs[0]);
      var e := Element([], c, []);
      items := HaveCompact(vs[1..]);
      assert ([e] + items)[1..] == items;
      items := [e] + items;
      assert [vs[0]] + vs[1..] == vs;
    }
  }

  lemma {:induction false} MemberHasCompact(m: Member) returns (c: Syntax)
    requires Printable(m.value)
    ensures Good(c) && Compact(c) && Closed(c) && Meaning(c) == m.value
    decreases m, 0
  {
    c := HasCompact(m.value);
  }

  lemma {:induction false} MembersHaveCompact(ms: seq<Member>) returns (members: seq<Entry>)
    requires forall m | m in ms :: GoodText(m.name) && Printable(m.value)
    ensures |members| == |ms| && forall e | e in members :: Good(e.value) && GoodEntry(e)
    ensures forall e | e in members ::
      Compact(e.value) && CompactPieces(e.name) && e.before == e.afterName == e.beforeValue == e.after == []
    ensures MemberMeanings(members) == ms
    decreases ms, 0
  {
    hide Good, Compact, Meaning, Printable, GoodPieces, CompactPieces, PiecesOut;
    if ms == [] {
      members := [];
    } else {
      var m := ms[0];
      assert m in ms;
      var name := StringPieces(m.name.value);
      var c := MemberHasCompact(ms[0]);
      var e := Entry([], name, [], [], c, []);
      members := MembersHaveCompact(ms[1..]);
      assert ([e] + members)[1..] == members;
      members := [e] + members;
      assert Member(Some(m.name.value), m.value) == m && [m] + ms[1..] == ms;
    }
  }

  /** Unformatted text is the text of a compact tree for the value, and there is no other such text. */
  lemma PrintedIsCompact(v: Json, depth: nat, s: seq<byte>)
    requires Printable(v)
    ensures s == Print(v, depth, false) <==> exists c :: Good(c) && Compact(c) && Meaning(c) == v && s == Then(c, [])
  {
    hide Good, Compact, Meaning, Then, Print, Emit, Printable;
    EmitIsPrint(v, depth, false, []);
    assert Print(v, depth, false) + [] == Print(v, depth, false);
    if c :| Good(c) && Compact(c) && Meaning(c) == v && s == Then(c, []) {
      CompactIsPrinted(c, depth, []);
    }
    if s == Print(v, depth, false) {
      var c := HasCompact(v);
      CompactIsPrinted(c, depth, []);
    }
  }

  /** What the source prints for a value that no text stands for: nothing for a missing string or name, or an unknown
      type. */
  lemma MissingPrintsNothing(depth: nat, fmt: bool)
    ensures Print(Unknown, depth, fmt) == [] && Print(String(None), depth, fmt) == []
  {
  }
}
