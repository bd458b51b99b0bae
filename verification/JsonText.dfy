/** JSON values, the text the printer gives them and the values the parser gives text.

    Text positions are suffixes: a pointer into the input is the rest of the input from there,
    which always ends in the terminator.  */
module JsonText {
  import opened Bytes
  import Utf8

  /** What an item holds: its type and the payload that the printer reads for that type. */
  datatype Json =
    | Null
    | False
    | True
    | Number(n: int)
    | String(text: Option<seq<byte>>)
    | Array(items: seq<Json>)
    | Object(members: seq<Member>)
    | Unknown  // a type tag that the printer has no case for

  datatype Member = Member(name: Option<seq<byte>>, value: Json)

  const NULL_TEXT: seq<byte> := [110, 117, 108, 108]
  const FALSE_TEXT: seq<byte> := [102, 97, 108, 115, 101]
  const TRUE_TEXT: seq<byte> := [116, 114, 117, 101]

  /** Every type tag has a printed form. */
  predicate Known(v: Json) {
    match v
    case Array(items) => forall x | x in items :: Known(x)
    case Object(members) => forall m | m in members :: Known(m.value)
    case Unknown => false
    case _ => true
  }

  predicate GoodText(t: Option<seq<byte>>) {
    t.Some? && NulFree(t.value)
  }

  /** The values that text can stand for: 32-bit numbers, strings and names that are C strings. */
  predicate Printable(v: Json) {
    match v
    case Number(n) => IsInt32(n)
    case String(t) => GoodText(t)
    case Array(items) => forall x | x in items :: Printable(x)
    case Object(members) => forall m | m in members :: GoodText(m.name) && Printable(m.value)
    case Unknown => false
    case _ => true
  }

  // ---------- printing ----------

  function PrintNat(n: nat): (s: seq<byte>)
    ensures |s| > 0 && IsDigit(s[0])
    ensures n > 0 ==> s[0] != ZERO
  {
    if n < 10 then [48 + n] else PrintNat(n / 10) + [48 + n % 10]
  }

  function PrintInt(n: int): (s: seq<byte>)
    ensures |s| > 0 && (IsDigit(s[0]) || s[0] == MINUS)
  {
    if n < 0 then [MINUS] + PrintNat(-n) else PrintNat(n)
  }

  /** The printed form of one byte of a string. */
  function EscapeByte(b: byte): (s: seq<byte>)
    ensures 1 <= |s| <= 6
  {
    if b > 31 && b != QUOTE && b != BACKSLASH then [b]
    else [BACKSLASH] + (match b
                        case 92 => [92]
                        case 34 => [34]
                        case 8 => [98]
                        case 12 => [102]
                        case 10 => [110]
                        case 13 => [114]
                        case 9 => [116]
                        case _ => [117] + PrintHex4(b))
  }

  function EscapeAll(s: seq<byte>): (r: seq<byte>)
  {
    if s == [] then [] else EscapeByte(s[0]) + EscapeAll(s[1..])
  }

  /** A missing string prints as nothing at all. */
  function PrintText(t: Option<seq<byte>>): (s: seq<byte>)
  {
    match t
    case None => []
    case Some(x) => [QUOTE] + EscapeAll(x) + [QUOTE]
  }

  function Tabs(n: int): (s: seq<byte>)
  {
    Repeat(TAB, n)
  }

  function Print(v: Json, depth: nat, fmt: bool): (s: seq<byte>)
    decreases v, 1
  {
    match v
    case Unknown => []
    case Null => NULL_TEXT
    case False => FALSE_TEXT
    case True => TRUE_TEXT
    case Number(n) => PrintInt(n)
    case String(t) => PrintText(t)
    case Array(items) => [LBRACKET] + PrintItems(items, depth + 1, fmt) + [RBRACKET]
    case Object(members) =>
      if members == [] then
        [LBRACE] + (if fmt then [NEWLINE] + Tabs(depth - 1) else []) + [RBRACE]
      else
        [LBRACE] + (if fmt then [NEWLINE] else [])
        + PrintMembers(members, depth + 1, fmt)
        + (if fmt then Tabs(depth) else []) + [RBRACE]
  }

  function ItemSeparator(fmt: bool): (s: seq<byte>)
  {
    if fmt then [COMMA, SPACE] else [COMMA]
  }

  function PrintItems(items: seq<Json>, depth: nat, fmt: bool): (s: seq<byte>)
    decreases items, 0
  {
    if items == [] then []
    else
      Print(items[0], depth, fmt)
      + (if |items| == 1 then [] else ItemSeparator(fmt) + PrintItems(items[1..], depth, fmt))
  }

  function PrintMember(m: Member, depth: nat, fmt: bool): (s: seq<byte>)
    decreases m, 0
  {
    (if fmt then Tabs(depth) else [])
    + PrintText(m.name) + [COLON] + (if fmt then [TAB] else [])
    + Print(m.value, depth, fmt)
  }

  function MemberEnd(last: bool, fmt: bool): (s: seq<byte>)
  {
    (if last then [] else [COMMA]) + (if fmt then [NEWLINE] else [])
  }

  function PrintMembers(members: seq<Member>, depth: nat, fmt: bool): (s: seq<byte>)
    decreases members, 0
  {
    if members == [] then []
    else
      PrintMember(members[0], depth, fmt) + MemberEnd(|members| == 1, fmt)
      + PrintMembers(members[1..], depth, fmt)
  }

  // ---------- parsing ----------

  /** Ok: parsed, and where the parser stopped.  Bad: the parser returns null.
      Beyond: the text leaves this model (a number that is not a 32-bit integer literal,
      or an escape cut short, after which the source reads past its input). */
  datatype Parsed<+T> = Ok(value: T, rest: seq<byte>) | Bad | Beyond

  predicate IsSpace(b: byte) {
    0 < b <= 32
  }

  function Skip(s: seq<byte>): (r: seq<byte>)
    requires Terminated(s)
    ensures Terminated(r) && |r| <= |s|
    ensures !IsSpace(r[0])
  {
    if IsSpace(s[0]) then Skip(s[1..]) else s
  }

  predicate StartsWith(s: seq<byte>, w: seq<byte>) {
    |w| <= |s| && forall i :: 0 <= i < |w| ==> s[i] == w[i]
  }

  /** The digits at the front of `s`, read onto `acc`, and what follows them. */
  function ReadDigits(s: seq<byte>, acc: nat): (r: (nat, seq<byte>))
    requires Terminated(s)
    ensures Terminated(r.1) && |r.1| <= |s|
    ensures !IsDigit(r.1[0])
  {
    if IsDigit(s[0]) then ReadDigits(s[1..], acc * 10 + (s[0] - 48)) else (acc, s)
  }

  /** A fraction or an exponent starts here. */
  predicate NumberGoesOn(s: seq<byte>)
    requires Terminated(s)
  {
    (s[0] == DOT && IsDigit(s[1])) || s[0] == 101 || s[0] == 69
  }

  function ParseNumber(s: seq<byte>): (r: Parsed<Json>)
    requires Terminated(s)
    requires s[0] == MINUS || IsDigit(s[0])
    ensures r.Ok? ==> Terminated(r.rest) && |r.rest| < |s|
    ensures r.Ok? ==> r.value.Number? && IsInt32(r.value.n)
    ensures !r.Bad?
  {
    var s1 := if s[0] == MINUS then s[1..] else s;
    var s2 := if s1[0] == ZERO then s1[1..] else s1;
    var (n, s3) := if IsDigit(s2[0]) && s2[0] != ZERO then ReadDigits(s2, 0) else (0, s2);
    var value := if s[0] == MINUS then -(n as int) else n as int;
    if NumberGoesOn(s3) || !IsInt32(value) then Beyond else Ok(Number(value), s3)
  }

  /** What one escape puts out and how many bytes of text it takes up. */
  datatype Escape = Reads(out: seq<byte>, used: nat) | Cut

  function SimpleEscape(b: byte): byte {
    match b
    case 98 => 8
    case 102 => 12
    case 110 => 10
    case 114 => 13
    case 116 => 9
    case _ => b
  }

  function ReadEscape(s: seq<byte>): (e: Escape)
    requires Terminated(s) && s[0] == BACKSLASH
    ensures e.Reads? ==> 2 <= e.used < |s| && |e.out| < e.used && NulFree(e.out)
  {
    if s[1] == 0 then Cut
    else if s[1] != 117 then Reads([SimpleEscape(s[1])], 2)
    else if !Hex4(s[2..]) then Cut
    else
      var uc := Hex4Value(s[2..]);
      if uc == 0 || Utf8.IsLowSurrogate(uc) then Reads([], 6)
      else if !Utf8.IsHighSurrogate(uc) then Reads(Utf8.Encode(uc), 6)
      else if s[6] != BACKSLASH || s[7] != 117 then Reads([], 6)
      else if !Hex4(s[8..]) then Cut
      else
        var uc2 := Hex4Value(s[8..]);
        if !Utf8.IsLowSurrogate(uc2) then Reads([], 12)
        else Reads(Utf8.Encode(Utf8.Combine(uc, uc2)), 12)
  }

  function Prepend<T>(xs: seq<T>, r: Parsed<seq<T>>): Parsed<seq<T>> {
    if r.Ok? then Ok(xs + r.value, r.rest) else r
  }

  /** The rest of a string literal after its opening quote.  The end of the text closes it too. */
  function ReadString(s: seq<byte>): (r: Parsed<seq<byte>>)
    requires Terminated(s)
    ensures r.Ok? ==> Terminated(r.rest) && |r.rest| <= |s|
    ensures r.Ok? ==> NulFree(r.value)
    ensures !r.Bad?
    decreases |s|
  {
    if s[0] == 0 then Ok([], s)
    else if s[0] == QUOTE then Ok([], s[1..])
    else if s[0] != BACKSLASH then Prepend([s[0]], ReadString(s[1..]))
    else
      match ReadEscape(s)
      case Cut => Beyond
      case Reads(out, used) => Prepend(out, ReadString(s[used..]))
  }

  function ParseString(s: seq<byte>): (r: Parsed<seq<byte>>)
    requires Terminated(s)
    ensures r.Ok? ==> Terminated(r.rest) && |r.rest| < |s|
    ensures r.Ok? ==> NulFree(r.value)
  {
    if s[0] != QUOTE then Bad else ReadString(s[1..])
  }

  function ParseValue(s: seq<byte>): (r: Parsed<Json>)
    requires Terminated(s)
    ensures r.Ok? ==> Terminated(r.rest) && |r.rest| < |s|
    decreases |s|, 0
  {
    if StartsWith(s, NULL_TEXT) then Ok(Null, s[4..])
    else if StartsWith(s, FALSE_TEXT) then Ok(False, s[5..])
    else if StartsWith(s, TRUE_TEXT) then Ok(True, s[4..])
    else if s[0] == QUOTE then
      match ParseString(s)
      case Ok(t, rest) => Ok(String(Some(t)), rest)
      case Bad => Bad
      case Beyond => Beyond
    else if s[0] == MINUS || IsDigit(s[0]) then ParseNumber(s)
    else if s[0] == LBRACKET then ParseArray(s[1..])
    else if s[0] == LBRACE then ParseObject(s[1..])
    else Bad
  }

  /** An array after its opening bracket. */
  function ParseArray(s: seq<byte>): (r: Parsed<Json>)
    requires Terminated(s)
    ensures r.Ok? ==> Terminated(r.rest) && |r.rest| < |s|
    decreases |s|, 2
  {
    var s1 := Skip(s);
    if s1[0] == RBRACKET then Ok(Array([]), s1[1..])
    else
      match ParseItems(s1)
      case Ok(items, rest) => Ok(Array(items), rest)
      case Bad => Bad
      case Beyond => Beyond
  }

  /** An object after its opening brace. */
  function ParseObject(s: seq<byte>): (r: Parsed<Json>)
    requires Terminated(s)
    ensures r.Ok? ==> Terminated(r.rest) && |r.rest| < |s|
    decreases |s|, 3
  {
    var s1 := Skip(s);
    if s1[0] == RBRACE then Ok(Object([]), s1[1..])
    else
      match ParseMembers(s1)
      case Ok(members, rest) => Ok(Object(members), rest)
      case Bad => Bad
      case Beyond => Beyond
  }

  /** The items of an array from here up to its closing bracket. */
  function ParseItems(s: seq<byte>): (r: Parsed<seq<Json>>)
    requires Terminated(s)
    ensures r.Ok? ==> Terminated(r.rest) && |r.rest| < |s|
    decreases |s|, 1
  {
    match ParseValue(Skip(s))
    case Bad => Bad
    case Beyond => Beyond
    case Ok(v, rest) =>
      var s1 := Skip(rest);
      if s1[0] == COMMA then Prepend([v], ParseItems(s1[1..]))
      else if s1[0] == RBRACKET then Ok([v], s1[1..])
      else Bad
  }

  /** One name, colon and value. */
  function ParseMember(s: seq<byte>): (r: Parsed<Member>)
    requires Terminated(s)
    ensures r.Ok? ==> Terminated(r.rest) && |r.rest| < |s|
    decreases |s|, 1
  {
    match ParseString(Skip(s))
    case Bad => Bad
    case Beyond => Beyond
    case Ok(name, rest) =>
      var s1 := Skip(rest);
      if s1[0] != COLON then Bad
      else
        match ParseValue(Skip(s1[1..]))
        case Bad => Bad
        case Beyond => Beyond
        case Ok(v, rest1) => Ok(Member(Some(name), v), rest1)
  }

  /** The members of an object from here up to its closing brace. */
  function ParseMembers(s: seq<byte>): (r: Parsed<seq<Member>>)
    requires Terminated(s)
    ensures r.Ok? ==> Terminated(r.rest) && |r.rest| < |s|
    decreases |s|, 2
  {
    match ParseMember(s)
    case Bad => Bad
    case Beyond => Beyond
    case Ok(m, rest) =>
      var s1 := Skip(rest);
      if s1[0] == COMMA then Prepend([m], ParseMembers(s1[1..]))
      else if s1[0] == RBRACE then Ok([m], s1[1..])
      else Bad
  }

  /** A whole text: blanks, then a value.  A strict reader lets only blanks follow it. */
  function ParseText(s: seq<byte>, strict: bool): (r: Parsed<Json>)
    requires Terminated(s)
    ensures r.Ok? ==> Terminated(r.rest)
  {
    match ParseValue(Skip(s))
    case Bad => Bad
    case Beyond => Beyond
    case Ok(v, rest) => if !strict then Ok(v, rest) else if Skip(rest)[0] == 0 then Ok(v, Skip(rest)) else Bad
  }
}
