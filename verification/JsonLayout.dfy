/** The layout of formatted text, read off the text alone: where lines end and how far they are indented. */
module JsonLayout {
  import opened Bytes
  import opened JsonText
  import opened JsonEmit
  import opened JsonLaws

  /** How many tabs stand at the front. */
  function LeadingTabs(s: seq<byte>): (n: nat)
    ensures n <= |s|
  {
    if s != [] && s[0] == 9 then 1 + LeadingTabs(s[1..]) else 0
  }

  /** What follows a literal, behind its opening quote. */
  function AfterLiteral(s: seq<byte>): (r: seq<byte>)
    ensures |r| <= |s|
  {
    if s == [] then []
    else if s[0] == 34 then s[1..]
    else if s[0] == 92 && |s| > 1 then AfterLiteral(s[2..])
    else AfterLiteral(s[1..])
  }

  /** Brackets and braces are counted in `open`, which remembers them, and `base` is the depth of the whole.
      A brace and a comma between members end the line; the next line has as many tabs as there are brackets and braces
      open, and `base` more.  A closing brace stands on a line of its own, with one tab less, and with two less if the
      object is empty.  A comma between items is followed by one space, a colon by one tab.  There are no other
      blanks. */
  predicate LaidOut(s: seq<byte>, open: seq<byte>, base: nat)
    decreases |s|
  {
    if s == [] then true
    else if s[0] == 34 then LaidOut(AfterLiteral(s[1..]), open, base)
    else if s[0] == 91 then LaidOut(s[1..], open + [91], base)
    else if s[0] == 93 then open != [] && open[|open| - 1] == 91 && LaidOut(s[1..], open[..|open| - 1], base)
    else if s[0] == 123 then
      |s| > 1 && s[1] == 10 &&
      var k := LeadingTabs(s[2..]);
      var t := s[2 + k..];
      t != [] && t[0] > 32
      && if t[0] == 125 then k == (if base + |open| > 0 then base + |open| - 1 else 0) && LaidOut(t[1..], open, base)
         else k == base + |open| + 1 && LaidOut(t, open + [123], base)
    else if s[0] == 44 then
      open != [] &&
      if open[|open| - 1] == 91 then |s| > 2 && s[1] == 32 && s[2] > 32 && LaidOut(s[2..], open, base)
      else
        |s| > 1 && s[1] == 10 &&
        var k := LeadingTabs(s[2..]);
        var t := s[2 + k..];
        t != [] && t[0] > 32 && k == base + |open| && LaidOut(t, open, base)
    else if s[0] == 10 then
      open != [] && open[|open| - 1] == 123 &&
      var k := LeadingTabs(s[1..]);
      var t := s[1 + k..];
      t != [] && t[0] == 125 && k == base + |open| - 1 && LaidOut(t[1..], open[..|open| - 1], base)
    else if s[0] == 58 then |s| > 1 && s[1] == 9 && LaidOut(s[2..], open, base)
    else s[0] > 32 && s[0] != 125 && LaidOut(s[1..], open, base)
  }

  // ---------- printed text is laid out ----------

  lemma {:induction false} TabsLead(n: int, t: seq<byte>)
    requires t != [] && t[0] != 9
    ensures LeadingTabs(Tabs(n) + t) == (if n > 0 then n else 0) && (Tabs(n) + t)[LeadingTabs(Tabs(n) + t)..] == t
  {
    RowLeads(Tabs(n), t);
  }

  lemma {:induction false} RowLeads(w: seq<byte>, t: seq<byte>)
    requires (forall i :: 0 <= i < |w| ==> w[i] == 9) && t != [] && t[0] != 9
    ensures LeadingTabs(w + t) == |w| && (w + t)[|w|..] == t
  {
    if w == [] {
      assert w + t == t;
    } else {
      assert (w + t)[1..] == w[1..] + t;
      RowLeads(w[1..], t);
    }
  }

  /** Bytes that the layout passes over. */
  predicate Inert(w: seq<byte>) {
    forall i :: 0 <= i < |w| ==> w[i] > 32 && w[i] !in {34, 44, 58, 91, 93, 123, 125}
  }

  lemma {:induction false} InertLaidOut(w: seq<byte>, t: seq<byte>, open: seq<byte>, base: nat)
    requires Inert(w)
    ensures LaidOut(w + t, open, base) == LaidOut(t, open, base)
  {
    if w == [] {
      assert w + t == t;
    } else {
      assert (w + t)[1..] == w[1..] + t;
      InertLaidOut(w[1..], t, open, base);
    }
  }

  lemma {:induction false} InertNat(n: nat)
    ensures Inert(PrintNat(n))
  {
    if n >= 10 {
      InertNat(n / 10);
    }
  }

  lemma {:induction false} AfterRow(w: seq<byte>, t: seq<byte>)
    requires forall i :: 0 <= i < |w| ==> w[i] != 34 && w[i] != 92
    ensures AfterLiteral(w + t) == AfterLiteral(t)
  {
    if w == [] {
      assert w + t == t;
    } else {
      assert (w + t)[1..] == w[1..] + t;
      AfterRow(w[1..], t);
    }
  }

  lemma {:induction false} AfterEscaped(x: seq<byte>, t: seq<byte>)
    ensures AfterLiteral(EmitEscaped(x, [34] + t)) == t
  {
    hide EscapeByte;
    if x == [] {
      assert ([34] + t)[1..] == t;
    } else {
      AfterEscaped(x[1..], t);
      var e := EscapeByte(x[0]);
      var more := EmitEscaped(x[1..], [34] + t);
      EscapeShape(x[0]);
      if |e| == 1 {
        AfterRow(e, more);
      } else {
        assert (e + more)[2..] == e[2..] + more;
        AfterRow(e[2..], more);
      }
    }
  }

  lemma TextLaidOut(x: Option<seq<byte>>, t: seq<byte>, open: seq<byte>, base: nat)
    ensures LaidOut(EmitText(x, t), open, base) == LaidOut(t, open, base)
  {
    if x.Some? {
      AfterEscaped(x.value, t);
      assert EmitText(x, t)[1..] == EmitEscaped(x.value, [34] + t);
    }
  }

  lemma {:induction false} EmitLaidOut(v: Json, t: seq<byte>, open: seq<byte>, base: nat)
    ensures LaidOut(Emit(v, base + |open|, true, t), open, base) == LaidOut(t, open, base)
    decreases v, 1
  {
    hide EmitText, EmitItems, EmitBody, LaidOut, PrintNat;
    match v
    case Unknown =>
    case Null => InertLaidOut(NULL_TEXT, t, open, base);
    case False => InertLaidOut(FALSE_TEXT, t, open, base);
    case True => InertLaidOut(TRUE_TEXT, t, open, base);
    case Number(n) =>
      InertNat(if n < 0 then -n else n);
      InertLaidOut(PrintInt(n), t, open, base);
    case String(x) => TextLaidOut(x, t, open, base);
    case Array(items) =>
      ItemsLaidOut(items, [93] + t, open + [91], base);
      BracketsLaidOut(EmitItems(items, base + |open| + 1, true, [93] + t), t, open, base);
    case Object(members) => ObjectLaidOut(members, t, open, base);
  }

  lemma BracketsLaidOut(inner: seq<byte>, t: seq<byte>, open: seq<byte>, base: nat)
    requires LaidOut(inner, open + [91], base) == LaidOut([93] + t, open + [91], base)
    ensures LaidOut([91] + inner, open, base) == LaidOut(t, open, base)
  {
    assert ([91] + inner)[1..] == inner && ([93] + t)[1..] == t && (open + [91])[..|open|] == open;
  }

  /** A printed item does not start with a blank. */
  lemma EmitNotBlank(v: Json, depth: nat, t: seq<byte>)
    requires t != [] && t[0] > 32
    ensures var s := Emit(v, depth, true, t); s != [] && s[0] > 32
  {
  }

  lemma {:induction false} ItemsLaidOut(items: seq<Json>, t: seq<byte>, open: seq<byte>, base: nat)
    requires open != [] && open[|open| - 1] == 91 && t != [] && t[0] > 32
    ensures LaidOut(EmitItems(items, base + |open|, true, t), open, base) == LaidOut(t, open, base)
    ensures EmitItems(items, base + |open|, true, t) != [] && EmitItems(items, base + |open|, true, t)[0] > 32
    decreases items, 0
  {
    hide Emit, LaidOut;
    if items != [] {
      var after := EmitMoreItems(items, base + |open|, true, t);
      EmitLaidOut(items[0], after, open, base);
      if |items| > 1 {
        var more := EmitItems(items[1..], base + |open|, true, t);
        ItemsLaidOut(items[1..], t, open, base);
        assert after == [44, 32] + more;
        CommaLaidOut(more, open, base);
      }
      EmitNotBlank(items[0], base + |open|, after);
    }
  }

  lemma CommaLaidOut(more: seq<byte>, open: seq<byte>, base: nat)
    requires open != [] && open[|open| - 1] == 91 && more != [] && more[0] > 32
    ensures LaidOut([44, 32] + more, open, base) == LaidOut(more, open, base)
  {
    assert ([44, 32] + more)[2..] == more;
  }

  lemma ObjectLaidOut(members: seq<Member>, t: seq<byte>, open: seq<byte>, base: nat)
    ensures LaidOut(Emit(Object(members), base + |open|, true, t), open, base) == LaidOut(t, open, base)
    decreases members, 2
  {
    hide EmitMembers, LaidOut, Tabs;
    var depth := base + |open|;
    var s := Emit(Object(members), depth, true, t);
    var close := [125] + t;
    if members == [] {
      var u := Tabs(depth - 1) + close;
      assert EmitBody(members, depth, true, close) == u;
      TabsLead(depth - 1, close);
      assert s == [123] + ([10] + u);
      assert [123] + ([10] + u) == [123, 10] + u;
      EmptyLaidOut(s, u, t, open, base);
    } else {
      var u := EmitMembers(members, depth + 1, true, Tabs(depth) + close);
      assert EmitBody(members, depth, true, close) == u;
      MembersLaidOut(members, t, open, base);
      assert s == [123] + ([10] + u);
      assert [123] + ([10] + u) == [123, 10] + u;
      BraceLaidOut(s, u, open, base);
    }
  }

  lemma EmptyLaidOut(s: seq<byte>, u: seq<byte>, t: seq<byte>, open: seq<byte>, base: nat)
    requires s == [123, 10] + u && u[LeadingTabs(u)..] == [125] + t
    requires LeadingTabs(u) == if base + |open| > 0 then base + |open| - 1 else 0
    ensures LaidOut(s, open, base) == LaidOut(t, open, base)
  {
    assert s[2..] == u && s[2 + LeadingTabs(u)..] == u[LeadingTabs(u)..] && ([125] + t)[1..] == t;
  }

  lemma BraceLaidOut(s: seq<byte>, u: seq<byte>, open: seq<byte>, base: nat)
    requires s == [123, 10] + u && LeadingTabs(u) == base + |open| + 1
    requires var m := u[LeadingTabs(u)..]; m != [] && m[0] > 32 && m[0] != 125
    ensures LaidOut(s, open, base) == LaidOut(u[LeadingTabs(u)..], open + [123], base)
  {
    assert s[2..] == u && s[2 + LeadingTabs(u)..] == u[LeadingTabs(u)..];
  }

  /** The members of an object inside `open`, from the tabs of the first line to the closing brace. */
  lemma {:induction false} MembersLaidOut(members: seq<Member>, t: seq<byte>, open: seq<byte>, base: nat)
    requires members != []
    ensures var depth := base + |open|;
      var u := EmitMembers(members, depth + 1, true, Tabs(depth) + ([125] + t));
      && LeadingTabs(u) == depth + 1
      && u[depth + 1..] != [] && u[depth + 1] > 32 && u[depth + 1] != 125
      && LaidOut(u[depth + 1..], open + [123], base) == LaidOut(t, open, base)
    decreases members, 1
  {
    hide EmitMember, LaidOut, Tabs, LeadingTabs;
    var depth := base + |open|;
    var end := Tabs(depth) + ([125] + t);
    var after := EmitMoreMembers(members, depth + 1, true, end);
    var m := EmitMember(members[0], depth + 1, true, after);
    MemberLaidOut(members[0], after, open, base);
    TabsLead(depth + 1, m);
    if |members| == 1 {
      TabsLead(depth, [125] + t);
      assert after == [10] + end;
      CloseLaidOut(after, end, t, open, base);
    } else {
      var more := EmitMembers(members[1..], depth + 1, true, end);
      MembersLaidOut(members[1..], t, open, base);
      assert after == [44, 10] + more;
      NextLaidOut(after, more, open, base);
    }
  }

  lemma CloseLaidOut(after: seq<byte>, end: seq<byte>, t: seq<byte>, open: seq<byte>, base: nat)
    requires after == [10] + end && LeadingTabs(end) == base + |open| && end[LeadingTabs(end)..] == [125] + t
    ensures LaidOut(after, open + [123], base) == LaidOut(t, open, base)
  {
    assert after[1..] == end && after[1 + LeadingTabs(end)..] == end[LeadingTabs(end)..];
    assert ([125] + t)[1..] == t && (open + [123])[..|open|] == open;
  }

  lemma NextLaidOut(after: seq<byte>, more: seq<byte>, open: seq<byte>, base: nat)
    requires after == [44, 10] + more && LeadingTabs(more) == base + |open| + 1
    requires var m := more[LeadingTabs(more)..]; m != [] && m[0] > 32
    ensures LaidOut(after, open + [123], base) == LaidOut(more[LeadingTabs(more)..], open + [123], base)
  {
    assert after[2..] == more && after[2 + LeadingTabs(more)..] == more[LeadingTabs(more)..];
  }

  lemma MemberLaidOut(m: Member, t: seq<byte>, open: seq<byte>, base: nat)
    ensures var depth := base + |open| + 1;
      var s := EmitMember(m, depth, true, t);
      && s != [] && s[0] > 32 && s[0] != 125 && s[0] != 9
      && LaidOut(s, open + [123], base) == LaidOut(t, open + [123], base)
    decreases m, 0
  {
    hide Emit, LaidOut, EmitText;
    var depth := base + |open| + 1;
    var value := Emit(m.value, depth, true, t);
    var colon := [58, 9] + value;
    assert [58] + ([9] + value) == colon;
    assert EmitMember(m, depth, true, t) == EmitText(m.name, [COLON] + EmitIf(true, [TAB], value));
    TextLaidOut(m.name, colon, open + [123], base);
    ColonLaidOut(value, open + [123], base);
    EmitLaidOut(m.value, t, open + [123], base);
    TextFront(m.name, colon);
  }

  lemma TextFront(x: Option<seq<byte>>, t: seq<byte>)
    requires t != []
    ensures EmitText(x, t) != [] && EmitText(x, t)[0] in {34, t[0]}
  {
  }

  lemma ColonLaidOut(value: seq<byte>, open: seq<byte>, base: nat)
    ensures LaidOut([58, 9] + value, open, base) == LaidOut(value, open, base)
  {
    assert ([58, 9] + value)[2..] == value;
  }

  /** Formatted text has this layout, at every depth. */
  lemma FormattedIsLaidOut(v: Json, depth: nat)
    ensures LaidOut(Print(v, depth, true), [], depth)
  {
    EmitLaidOut(v, [], [], depth);
    EmitIsPrint(v, depth, true, []);
    assert Print(v, depth, true) + [] == Print(v, depth, true);
  }

  // ---------- the layout determines the blanks ----------

  /** Two texts with this layout that differ in nothing but blanks are the same. */
  lemma {:induction false} LayoutDetermines(s: seq<byte>, s': seq<byte>, open: seq<byte>, base: nat)
    requires LaidOut(s, open, base) && LaidOut(s', open, base) && Strip(s) == Strip(s')
    ensures s == s'
    decreases |s| + |s'|
  {
    hide LaidOut, Strip;
    StripFront(s, open, base);
    StripFront(s', open, base);
    if s != [] && s' != [] {
      var p, t, t', open' := Peel(s, s', open, base);
      LayoutDetermines(t, t', open', base);
    }
  }

  /** The first byte that is no blank. */
  lemma StripFront(s: seq<byte>, open: seq<byte>, base: nat)
    requires LaidOut(s, open, base)
    ensures Strip(s) == [] <==> s == []
    ensures s != [] ==> Strip(s)[0] == (if s[0] == 10 then 125 else s[0]) && s[0] != 125
  {
    if s != [] && s[0] == 10 {
      TabsStrip(s[1..]);
      assert s[1..][LeadingTabs(s[1..])..] == s[1 + LeadingTabs(s[1..])..];
    }
  }

  lemma {:induction false} TabsStrip(s: seq<byte>)
    ensures var k := LeadingTabs(s); Strip(s) == Strip(s[k..]) && forall i :: 0 <= i < k ==> s[i] == 9
  {
    hide Strip;
    if s != [] && s[0] == 9 {
      TabsStrip(s[1..]);
      BlankStrip(s);
      assert s[1..][LeadingTabs(s[1..])..] == s[LeadingTabs(s)..];
    } else {
      assert s[0..] == s;
    }
  }

  lemma BlankStrip(s: seq<byte>)
    requires s != [] && s[0] <= 32
    ensures Strip(s) == Strip(s[1..])
  {
  }

  lemma VisibleStrip(s: seq<byte>)
    requires s != [] && s[0] > 32 && s[0] != 34
    ensures Strip(s) == [s[0]] + Strip(s[1..])
  {
  }

  /** Equal rows of tabs. */
  lemma SameTabs(s: seq<byte>, s': seq<byte>)
    requires LeadingTabs(s) == LeadingTabs(s')
    ensures s[..LeadingTabs(s)] == s'[..LeadingTabs(s)]
  {
    TabsStrip(s);
    TabsStrip(s');
  }

  /** The same front of both texts, and what follows it. */
  lemma Peel(s: seq<byte>, s': seq<byte>, open: seq<byte>, base: nat)
      returns (p: seq<byte>, t: seq<byte>, t': seq<byte>, open': seq<byte>)
    requires LaidOut(s, open, base) && LaidOut(s', open, base) && Strip(s) == Strip(s') && s != [] && s' != []
    ensures p != [] && s == p + t && s' == p + t' && Strip(t) == Strip(t')
    ensures LaidOut(t, open', base) && LaidOut(t', open', base)
  {
    hide LaidOut, Strip;
    StripFront(s, open, base);
    StripFront(s', open, base);
    assert s[0] == s'[0];
    if s[0] == 34 {
      open' := open;
      p, t, t' := PeelLiteral(s, s', open, base);
    } else if s[0] == 10 {
      open' := open[..|open| - 1] by { PopsOpen(s, open, base); }
      p, t, t' := PeelLine(s, s', open, base);
    } else if s[0] == 123 {
      p, t, t', open' := PeelBrace(s, s', open, base);
    } else if s[0] == 44 {
      open' := open;
      p, t, t' := PeelComma(s, s', open, base);
    } else {
      p, t, t', open' := PeelByte(s, s', open, base);
    }
  }

  lemma PopsOpen(s: seq<byte>, open: seq<byte>, base: nat)
    requires LaidOut(s, open, base) && s != [] && s[0] == 10
    ensures open != []
  {
  }

  /** A byte that goes alone, or a colon with its tab. */
  lemma PeelByte(s: seq<byte>, s': seq<byte>, open: seq<byte>, base: nat)
      returns (p: seq<byte>, t: seq<byte>, t': seq<byte>, open': seq<byte>)
    requires LaidOut(s, open, base) && LaidOut(s', open, base) && Strip(s) == Strip(s') && s != [] && s' != []
    requires s[0] == s'[0] && s[0] !in {10, 34, 44, 123}
    ensures p != [] && s == p + t && s' == p + t' && Strip(t) == Strip(t')
    ensures LaidOut(t, open', base) && LaidOut(t', open', base)
  {
    hide Strip;
    VisibleStrip(s);
    VisibleStrip(s');
    assert Strip(s[1..]) == Strip(s)[1..] && Strip(s'[1..]) == Strip(s')[1..];
    var n := if s[0] == 58 then 2 else 1;
    if n == 2 {
      BlankStrip(s[1..]);
      BlankStrip(s'[1..]);
      assert s[1..][1..] == s[2..] && s'[1..][1..] == s'[2..];
    }
    p, t, t' := s[..n], s[n..], s'[n..];
    open' := if s[0] == 91 then open + [91] else if s[0] == 93 then open[..|open| - 1] else open;
  }

  lemma ClosingLine(s: seq<byte>, open: seq<byte>, base: nat)
    requires LaidOut(s, open, base) && s != [] && s[0] == 10
    ensures open != [] && LeadingTabs(s[1..]) == base + |open| - 1 && |s| >= 2 + LeadingTabs(s[1..])
    ensures var k := LeadingTabs(s[1..]);
      && s == [10] + s[1..][..k] + [125] + s[2 + k..] && Strip(s) == [125] + Strip(s[2 + k..])
      && LaidOut(s[2 + k..], open[..|open| - 1], base)
  {
    hide Strip;
    var k := LeadingTabs(s[1..]);
    var u := s[1 + k..];
    Indent(s, 1);
    BlankStrip(s);
    VisibleStrip(u);
    assert u[1..] == s[2 + k..];
  }

  /** A line end, tabs and a closing brace. */
  lemma PeelLine(s: seq<byte>, s': seq<byte>, open: seq<byte>, base: nat)
      returns (p: seq<byte>, t: seq<byte>, t': seq<byte>)
    requires LaidOut(s, open, base) && LaidOut(s', open, base) && Strip(s) == Strip(s') && s != [] && s' != []
    requires s[0] == s'[0] == 10
    ensures p != [] && s == p + t && s' == p + t' && Strip(t) == Strip(t') && open != []
    ensures LaidOut(t, open[..|open| - 1], base) && LaidOut(t', open[..|open| - 1], base)
  {
    hide Strip, LaidOut;
    ClosingLine(s, open, base);
    ClosingLine(s', open, base);
    SameTabs(s[1..], s'[1..]);
    var k := LeadingTabs(s[1..]);
    t, t' := s[2 + k..], s'[2 + k..];
    p := [10] + s[1..][..k] + [125];
    assert Strip(t) == Strip(s)[1..] && Strip(t') == Strip(s')[1..];
  }

  /** The tabs behind a line end at place `n - 1`. */
  lemma Indent(s: seq<byte>, n: nat)
    requires n <= |s|
    ensures var k := LeadingTabs(s[n..]); n + k <= |s| && Strip(s[n..]) == Strip(s[n + k..])
  {
    hide Strip;
    TabsStrip(s[n..]);
    assert s[n..][LeadingTabs(s[n..])..] == s[n + LeadingTabs(s[n..])..];
  }

  /** A brace, a line end and tabs, and what the line begins with. */
  lemma OpenLine(s: seq<byte>, open: seq<byte>, base: nat)
    requires LaidOut(s, open, base) && s != [] && s[0] == 123
    ensures |s| > 1 && LineBehind(s) != []
    ensures var k, u := LeadingTabs(s[2..]), LineBehind(s);
      && s == [123, 10] + s[2..][..k] + u && u[0] > 32 && Strip(s) == [123] + Strip(u) && Strip(u) != []
      && Strip(u)[0] == u[0]
      && (if u[0] == 125 then k == (if base + |open| > 0 then base + |open| - 1 else 0) && LaidOut(u[1..], open, base)
          else k == base + |open| + 1 && LaidOut(u, open + [123], base))
  {
    hide Strip;
    StripMarkAndLine(s);
    StripVisible(LineBehind(s));
  }

  lemma PeelBrace(s: seq<byte>, s': seq<byte>, open: seq<byte>, base: nat)
      returns (p: seq<byte>, t: seq<byte>, t': seq<byte>, open': seq<byte>)
    requires LaidOut(s, open, base) && LaidOut(s', open, base) && Strip(s) == Strip(s') && s != [] && s' != []
    requires s[0] == s'[0] == 123
    ensures p != [] && s == p + t && s' == p + t' && Strip(t) == Strip(t')
    ensures LaidOut(t, open', base) && LaidOut(t', open', base)
  {
    hide Strip, LaidOut;
    OpenLine(s, open, base);
    OpenLine(s', open, base);
    var u, u' := LineBehind(s), LineBehind(s');
    assert Strip(u) == Strip(s)[1..] && Strip(u') == Strip(s')[1..];
    var k := LeadingTabs(s[2..]);
    SameTabs(s[2..], s'[2..]);
    p, t, t', open' := [123, 10] + s[2..][..k], u, u', open + [123];
    if u[0] == 125 {
      VisibleStrip(u);
      VisibleStrip(u');
      assert Strip(u[1..]) == Strip(u)[1..] && Strip(u'[1..]) == Strip(u')[1..];
      assert u == [125] + u[1..] && u' == [125] + u'[1..];
      p, t, t', open' := p + [125], u[1..], u'[1..], open;
    }
  }

  /** What stands behind a mark, a line end and tabs. */
  function LineBehind(s: seq<byte>): (t: seq<byte>)
    requires |s| > 1
  {
    s[2 + LeadingTabs(s[2..])..]
  }

  lemma StripVisible(s: seq<byte>)
    requires s != [] && s[0] > 32
    ensures Strip(s) != [] && Strip(s)[0] == s[0]
  {
  }

  lemma StripMarkAndLine(s: seq<byte>)
    requires |s| > 1 && s[0] > 32 && s[0] != 34 && s[1] <= 32
    ensures Strip(s) == [s[0]] + Strip(s[2..]) && Strip(s[2..]) == Strip(LineBehind(s))
  {
    hide Strip;
    VisibleStrip(s);
    BlankStrip(s[1..]);
    assert s[1..][1..] == s[2..];
    Indent(s, 2);
  }

  lemma PeelComma(s: seq<byte>, s': seq<byte>, open: seq<byte>, base: nat)
      returns (p: seq<byte>, t: seq<byte>, t': seq<byte>)
    requires LaidOut(s, open, base) && LaidOut(s', open, base) && Strip(s) == Strip(s') && s != [] && s' != []
    requires s[0] == s'[0] == 44
    ensures p != [] && s == p + t && s' == p + t' && Strip(t) == Strip(t')
    ensures LaidOut(t, open, base) && LaidOut(t', open, base)
  {
    hide Strip;
    StripMarkAndLine(s);
    StripMarkAndLine(s');
    assert Strip(s[2..]) == Strip(s)[1..] && Strip(s'[2..]) == Strip(s')[1..];
    if open[|open| - 1] == 91 {
      p, t, t' := [44, 32], s[2..], s'[2..];
    } else {
      var k := LeadingTabs(s[2..]);
      SameTabs(s[2..], s'[2..]);
      p, t, t' := s[..2 + k], LineBehind(s), LineBehind(s');
      assert s == [44, 10] + s[2..][..k] + t && s' == [44, 10] + s'[2..][..k] + t';
    }
  }

  lemma OpensLiteral(s: seq<byte>, open: seq<byte>, base: nat)
    requires LaidOut(s, open, base) && s != [] && s[0] == 34
    ensures Strip(s) == [34] + StripLiteral(s[1..]) && LaidOut(AfterLiteral(s[1..]), open, base)
  {
  }

  lemma PeelLiteral(s: seq<byte>, s': seq<byte>, open: seq<byte>, base: nat)
      returns (p: seq<byte>, t: seq<byte>, t': seq<byte>)
    requires LaidOut(s, open, base) && LaidOut(s', open, base) && Strip(s) == Strip(s') && s != [] && s' != []
    requires s[0] == s'[0] == 34
    ensures p != [] && s == p + t && s' == p + t' && Strip(t) == Strip(t')
    ensures LaidOut(t, open, base) && LaidOut(t', open, base)
  {
    hide Strip, LaidOut, StripLiteral, AfterLiteral;
    OpensLiteral(s, open, base);
    OpensLiteral(s', open, base);
    assert StripLiteral(s[1..]) == Strip(s)[1..] && StripLiteral(s'[1..]) == Strip(s')[1..];
    p, t, t' := SameLiteral(s[1..], s'[1..]);
    assert s == [34] + s[1..] && s' == [34] + s'[1..];
    p := [34] + p;
  }

  /** How many bytes a literal goes on by. */
  function LiteralByte(s: seq<byte>): (n: nat)
    requires s != []
    ensures 1 <= n <= |s|
  {
    if s[0] == 92 && |s| > 1 then 2 else 1
  }

  lemma LiteralStep(s: seq<byte>)
    requires s != [] && s[0] != 34
    ensures var n := LiteralByte(s);
      && s == s[..n] + s[n..] && StripLiteral(s) == s[..n] + StripLiteral(s[n..])
      && AfterLiteral(s) == AfterLiteral(s[n..])
  {
  }

  lemma LiteralFront(s: seq<byte>)
    ensures StripLiteral(s) == [] <==> s == []
    ensures s == [] ==> AfterLiteral(s) == [] && Strip([]) == []
    ensures s != [] ==> StripLiteral(s)[0] == s[0]
    ensures s != [] && s[0] == 34 ==> StripLiteral(s) == [34] + Strip(s[1..]) && AfterLiteral(s) == s[1..]
  {
  }

  lemma LiteralLength(s: seq<byte>)
    requires s != [] && s[0] != 34
    ensures |StripLiteral(s)| > 1 <==> |s| > 1
  {
    hide Strip;
    LiteralStep(s);
    if |s| > 1 && LiteralByte(s) == 1 {
      assert StripLiteral(s[1..]) != [];
    }
  }

  lemma {:induction false} SameLiteral(s: seq<byte>, s': seq<byte>) returns (p: seq<byte>, t: seq<byte>, t': seq<byte>)
    requires StripLiteral(s) == StripLiteral(s')
    ensures t == AfterLiteral(s) && t' == AfterLiteral(s') && s == p + t && s' == p + t' && Strip(t) == Strip(t')
    decreases |s|
  {
    hide Strip, StripLiteral, AfterLiteral;
    var r := StripLiteral(s);
    LiteralFront(s);
    LiteralFront(s');
    if s == [] || s' == [] {
      p, t, t' := [], [], [];
    } else if s[0] == 34 {
      p, t, t' := [34], s[1..], s'[1..];
      assert Strip(t) == r[1..] && Strip(t') == r[1..];
    } else {
      LiteralStep(s);
      LiteralStep(s');
      LiteralLength(s);
      LiteralLength(s');
      var n := LiteralByte(s);
      assert StripLiteral(s[n..]) == r[n..] && StripLiteral(s'[n..]) == r[n..];
      p, t, t' := SameLiteral(s[n..], s'[n..]);
      assert s[..n] == r[..n] == s'[..n];
      p := s[..n] + p;
    }
  }

  /** So formatted text is the unformatted text with that layout, and nothing else is. */
  lemma FormattedIsTheLayout(v: Json, depth: nat, s: seq<byte>)
    ensures s == Print(v, depth, true) <==> LaidOut(s, [], depth) && Strip(s) == Print(v, depth, false)
  {
    FormattedIsLaidOut(v, depth);
    FormattingIsBlank(v, depth, depth);
    if LaidOut(s, [], depth) && Strip(s) == Print(v, depth, false) {
      LayoutDetermines(s, Print(v, depth, true), [], depth);
    }
  }
}
