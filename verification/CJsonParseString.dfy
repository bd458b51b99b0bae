/** parse_number and parse_string: the scalars, read from a text that is not changed. */
module CJsonParseString {
  import opened Bytes
  import opened CJsonHeap
  import JsonText
  import JsonLaws
  import JsonNumber
  import Utf8

  /** skip: the first byte from `i` on that is no blank. */
  method SkipBlanks(text: seq<byte>, i: nat) returns (j: nat)
    requires Terminated(text) && i < |text|
    ensures i <= j < |text| && text[j..] == JsonText.Skip(text[i..])
  {
    j := i;
    while text[j] != 0 && text[j] <= 32
      invariant i <= j < |text| && JsonText.Skip(text[i..]) == JsonText.Skip(text[j..])
      decreases |text| - j
    {
      assert text[j..][1..] == text[j + 1..];
      j := j + 1;
    }
  }

  /** The digit loops of parse_number, which go on from the number read so far. */
  method ReadDigits(text: seq<byte>, i: nat, acc: nat) returns (n: nat, num: nat)
    requires Terminated(text) && i < |text|
    ensures i <= num < |text| && JsonText.ReadDigits(text[i..], acc) == (n, text[num..])
  {
    n, num := acc, i;
    while IsDigit(text[num])
      invariant i <= num < |text|
      invariant JsonText.ReadDigits(text[i..], acc) == JsonText.ReadDigits(text[num..], n)
      decreases |text| - num
    {
      assert text[num..][1..] == text[num + 1..];
      n, num := n * 10 + (text[num] as int - 48), num + 1;
    }
  }

  /** parse_number in exact arithmetic.  `double` is what goes to `valuedouble`; `valueint` is its whole part, where
      the conversion is defined. */
  method ParseNumber(item: Node, text: seq<byte>, i: nat) returns (end: nat, double: real)
    requires Terminated(text) && i < |text| && (text[i] == MINUS || IsDigit(text[i]))
    modifies item`kind, item`number
    ensures i < end < |text| && item.kind == NUMBER_KIND
    ensures var (d, rest) := JsonNumber.ReadNumber(text[i..]);
      && rest == text[end..] && double == JsonNumber.ValueOf(d)
      && (IsInt32(JsonNumber.Truncated(double)) ==> item.number == JsonNumber.Truncated(double))
    ensures JsonText.ParseNumber(text[i..]).Ok? ==>
      JsonText.ParseNumber(text[i..]) == JsonText.Ok(JsonText.Number(item.number), text[end..])
  {
    hide JsonText.ReadDigits, JsonNumber.ReadWhole, JsonNumber.ReadFraction, JsonNumber.ReadExponent,
      JsonText.ParseNumber;
    hide JsonNumber.Power10;
    var n: nat, scale: int, e: int, num: nat := 0, 0, 0, i;
    var neg := text[num] == MINUS;
    if neg {
      num := num + 1;
      assert text[i..][1..] == text[num..];
    }
    n, num := ParseWhole(text, num);
    n, scale, num := ParseFraction(text, num, n);
    e, num := ParseExponent(text, num);
    end := num;
    var d := JsonNumber.Decimal(neg, n, scale + e);
    double := JsonNumber.ValueOf(d);
    item.number := *;
    if IsInt32(JsonNumber.Truncated(double)) {
      item.number := JsonNumber.Truncated(double);
    }
    item.kind := NUMBER_KIND;
    if JsonText.ParseNumber(text[i..]).Ok? {
      JsonNumber.WholeNumbersAgree(text[i..]);
    }
  }

  method ParseWhole(text: seq<byte>, i: nat) returns (n: nat, num: nat)
    requires Terminated(text) && i < |text|
    ensures i <= num < |text| && JsonNumber.ReadWhole(text[i..]) == (n, text[num..])
    ensures IsDigit(text[i]) ==> i < num
  {
    hide JsonText.ReadDigits;
    n, num := 0, i;
    if text[num] == ZERO {
      assert text[num..][1..] == text[num + 1..];
      num := num + 1;
    }
    if 49 <= text[num] <= 57 {
      n, num := ReadDigits(text, num, 0);
    }
  }

  /** Each digit behind the point lowers the scale by one. */
  method ParseFraction(text: seq<byte>, i: nat, acc: nat) returns (n: nat, scale: int, num: nat)
    requires Terminated(text) && i < |text|
    ensures i <= num < |text| && JsonNumber.ReadFraction(text[i..], acc) == (n, scale, text[num..])
  {
    hide JsonText.ReadDigits;
    n, scale, num := acc, 0, i;
    if text[num] == DOT && IsDigit(text[num + 1]) {
      assert text[num..][1..] == text[num + 1..];
      n, num := ReadDigits(text, num + 1, n);
      scale := i + 1 - num;
    }
  }

  method ParseExponent(text: seq<byte>, i: nat) returns (e: int, num: nat)
    requires Terminated(text) && i < |text|
    ensures i <= num < |text| && JsonNumber.ReadExponent(text[i..]) == (e, text[num..])
  {
    hide JsonText.ReadDigits;
    e, num := 0, i;
    if text[num] == JsonNumber.SMALL_E || text[num] == JsonNumber.CAPITAL_E {
      var sign: int := 1;
      assert text[num..][1..] == text[num + 1..];
      num := num + 1;
      if text[num] == JsonNumber.PLUS || text[num] == MINUS {
        sign := if text[num] == MINUS then -1 else 1;
        assert text[num..][1..] == text[num + 1..];
        num := num + 1;
      }
      var subscale;
      subscale, num := ReadDigits(text, num, 0);
      e := sign * subscale;
    }
  }

  /** sscanf with "%4x", where four digits stand. */
  method ScanHex4(text: seq<byte>, i: nat) returns (uc: nat)
    requires i <= |text| && Hex4(text[i..])
    ensures uc == Hex4Value(text[i..])
  {
    uc := HexValue(text[i]) * 4096 + HexValue(text[i + 1]) * 256 + HexValue(text[i + 2]) * 16 + HexValue(text[i + 3]);
  }

  /** Writes the UTF-8 form of `uc` at `at`, last byte first. */
  method WriteUtf8(out: array<byte>, at: nat, uc: nat) returns (end: nat)
    requires uc < 0x11_0000 && at + Utf8.EncodedLength(uc) <= out.Length
    modifies out
    ensures end == at + Utf8.EncodedLength(uc)
    ensures out[..at] == old(out[..at]) && out[at..end] == Utf8.Encode(uc)
  {
    var len := Utf8.EncodedLength(uc);
    var ptr := at + len;
    var u := uc;
    if len >= 4 {
      ptr := ptr - 1;
      out[ptr] := Utf8.Continuation(u);
      u := u / 64;
    }
    if len >= 3 {
      ptr := ptr - 1;
      out[ptr] := Utf8.Continuation(u);
      u := u / 64;
    }
    if len >= 2 {
      ptr := ptr - 1;
      out[ptr] := Utf8.Continuation(u);
      u := u / 64;
    }
    ptr := ptr - 1;
    assert len == 1 ==> u == uc;
    assert len == 2 ==> u == uc / 64;
    assert len == 3 ==> u == uc / 64 / 64 == uc / 4096;
    assert len == 4 ==> u == uc / 64 / 64 / 64 == uc / 262144 && uc / 64 / 64 == uc / 4096;
    out[ptr] := FirstByteMark(len) + u;
    end := ptr + len;
  }

  function FirstByteMark(len: nat): byte
    requires 1 <= len <= 4
  {
    if len == 1 then 0x00 else if len == 2 then 0xC0 else if len == 3 then 0xE0 else 0xF0
  }

  /** One escape of a literal: reads it at `ptr` and writes what it stands for at `at`. */
  method CopyEscape(text: seq<byte>, ptr: nat, out: array<byte>, at: nat) returns (ptr': nat, at': nat)
    requires Terminated(text) && ptr < |text| && text[ptr] == BACKSLASH
    requires JsonText.ReadEscape(text[ptr..]).Reads?
    requires at + |JsonText.ReadEscape(text[ptr..]).out| <= out.Length
    modifies out
    ensures var e := JsonText.ReadEscape(text[ptr..]);
      ptr' == ptr + e.used && at' == at + |e.out| && out[..at'] == old(out[..at]) + e.out
  {
    hide Hex4, Hex4Value, Utf8.Encode;
    ghost var s := text[ptr..];
    assert s[1] == text[ptr + 1];
    ptr', at' := ptr + 1, at;
    if text[ptr'] != 117 {
      out[at'] := JsonText.SimpleEscape(text[ptr']);
      at' := at' + 1;
      ptr' := ptr' + 1;
      return;
    }
    assert s[2..] == text[ptr + 2..];
    var uc := ScanHex4(text, ptr' + 1);
    ptr' := ptr' + 4;
    if Utf8.IsLowSurrogate(uc) || uc == 0 {
      ptr' := ptr' + 1;
      return;
    }
    if Utf8.IsHighSurrogate(uc) {
      assert s[6] == text[ptr' + 1];
      if text[ptr' + 1] != BACKSLASH || text[ptr' + 2] != 117 {
        ptr' := ptr' + 1;
        return;
      }
      assert s[7] == text[ptr' + 2] && s[8..] == text[ptr' + 3..];
      var uc2 := ScanHex4(text, ptr' + 3);
      ptr' := ptr' + 6;
      if !Utf8.IsLowSurrogate(uc2) {
        ptr' := ptr' + 1;
        return;
      }
      uc := Utf8.Combine(uc, uc2);
    }
    at' := WriteUtf8(out, at', uc);
    ptr' := ptr' + 1;
  }

  /** The first pass over a literal: how long a buffer it will take. */
  method CountString(text: seq<byte>, i: nat) returns (len: nat)
    requires Terminated(text) && i < |text| && JsonLaws.CountLiteral(text[i..]).Some?
    ensures len == JsonLaws.CountLiteral(text[i..]).value.0
  {
    hide JsonLaws.CountLiteral;
    var ptr := i;
    len := 0;
    while text[ptr] != QUOTE && text[ptr] != 0
      invariant i <= ptr < |text| && JsonLaws.CountLiteral(text[ptr..]).Some?
      invariant JsonLaws.CountLiteral(text[i..]) == JsonLaws.CountMore(len, JsonLaws.CountLiteral(text[ptr..]))
      decreases |text| - ptr
    {
      CountStep(text, ptr);
      len := len + 1;
      if text[ptr] == BACKSLASH {
        ptr := ptr + 1;
      }
      ptr := ptr + 1;
    }
    CountStop(text, ptr);
  }

  lemma CountStop(text: seq<byte>, ptr: nat)
    requires Terminated(text) && ptr < |text| && (text[ptr] == QUOTE || text[ptr] == 0)
    ensures JsonLaws.CountLiteral(text[ptr..]) == Some((0, text[ptr..]))
  {
  }

  lemma CountStep(text: seq<byte>, ptr: nat)
    requires Terminated(text) && ptr < |text| && text[ptr] != QUOTE && text[ptr] != 0
    requires JsonLaws.CountLiteral(text[ptr..]).Some?
    ensures var next := if text[ptr] == BACKSLASH then ptr + 2 else ptr + 1;
      && next < |text| && JsonLaws.CountLiteral(text[next..]).Some?
      && JsonLaws.CountLiteral(text[ptr..]) == JsonLaws.CountMore(1, JsonLaws.CountLiteral(text[next..]))
  {
    var s := text[ptr..];
    assert s[1..] == text[ptr + 1..];
    if s[0] == BACKSLASH {
      assert s[1] == text[ptr + 1];
      assert s[2..] == text[ptr + 2..];
    }
  }

  /** The second pass: copies the literal, undoing its escapes, and returns the position behind it. */
  method CopyString(text: seq<byte>, i: nat, out: array<byte>) returns (end: nat)
    requires Terminated(text) && i < |text| && JsonText.ReadString(text[i..]).Ok?
    requires |JsonText.ReadString(text[i..]).value| < out.Length
    modifies out
    ensures end < |text| && text[end..] == JsonText.ReadString(text[i..]).rest
    ensures HoldsText(out, JsonText.ReadString(text[i..]).value)
  {
    hide JsonText.ReadEscape, JsonText.ReadString;
    ghost var whole := JsonText.ReadString(text[i..]);
    var ptr: nat, at: nat := i, 0;
    assert out[..0] + whole.value == whole.value;
    while text[ptr] != QUOTE && text[ptr] != 0
      invariant i <= ptr < |text| && at <= |whole.value|
      invariant whole == JsonText.Prepend(out[..at], JsonText.ReadString(text[ptr..]))
      decreases |text| - ptr
    {
      label L:
      CopyStep(text, ptr, out[..at]);
      if text[ptr] != BACKSLASH {
        out[at] := text[ptr];
        assert out[..at + 1] == old@L(out[..at]) + [text[ptr]];
        ptr, at := ptr + 1, at + 1;
      } else {
        ptr, at := CopyEscape(text, ptr, out, at);
      }
    }
    CopyStop(text, ptr);
    assert out[..at] + [] == out[..at];
    out[at] := 0;
    assert forall j :: 0 <= j < at ==> out[j] == whole.value[j];
    end := if text[ptr] == QUOTE then ptr + 1 else ptr;
  }

  /** What the second pass reads next. */
  function NextPiece(s: seq<byte>): JsonText.Escape
    requires Terminated(s)
  {
    if s[0] == BACKSLASH then JsonText.ReadEscape(s) else JsonText.Reads([s[0]], 1)
  }

  lemma CopyStep(text: seq<byte>, ptr: nat, done: seq<byte>)
    requires Terminated(text) && ptr < |text| && text[ptr] != QUOTE && text[ptr] != 0
    requires JsonText.ReadString(text[ptr..]).Ok?
    ensures var e := NextPiece(text[ptr..]);
      && e.Reads? && ptr + e.used < |text| && JsonText.ReadString(text[ptr + e.used..]).Ok?
      && JsonText.Prepend(done, JsonText.ReadString(text[ptr..]))
         == JsonText.Prepend(done + e.out, JsonText.ReadString(text[ptr + e.used..]))
      && |done + e.out| <= |JsonText.Prepend(done, JsonText.ReadString(text[ptr..])).value|
  {
    hide JsonText.ReadEscape;
    var s := text[ptr..];
    var e := NextPiece(s);
    assert s[e.used..] == text[ptr + e.used..];
    PrependTwice(done, e.out, JsonText.ReadString(s[e.used..]));
  }

  lemma CopyStop(text: seq<byte>, ptr: nat)
    requires Terminated(text) && ptr < |text| && (text[ptr] == QUOTE || text[ptr] == 0)
    ensures JsonText.ReadString(text[ptr..])
         == JsonText.Ok([], if text[ptr] == QUOTE then text[ptr + 1..] else text[ptr..])
    ensures text[ptr] == QUOTE ==> ptr + 1 < |text|
  {
    assert text[ptr..][1..] == text[ptr + 1..];
  }

  lemma PrependTwice<T>(xs: seq<T>, ys: seq<T>, r: JsonText.Parsed<seq<T>>)
    ensures JsonText.Prepend(xs, JsonText.Prepend(ys, r)) == JsonText.Prepend(xs + ys, r)
  {
    if r.Ok? {
      assert xs + (ys + r.value) == (xs + ys) + r.value;
    }
  }

  /** parse_string: a literal becomes the text of the item. */
  method ParseString(alloc: Allocator, item: Node, text: seq<byte>, i: nat) returns (end: Option<nat>, ghost b: Str)
    requires Terminated(text) && i < |text| && !JsonText.ParseString(text[i..]).Beyond?
    requires item.text == null
    modifies alloc, item`text, item`kind
    ensures HoldsStr(item.text, b) && fresh(StrBlocks(b)) && alloc.live == old(alloc.live) + StrBlocks(b)
    ensures b.Str? <==> end.Some?
    ensures item.kind == if end.Some? then STRING_KIND else old(item.kind)
    ensures alloc.failures >= old(alloc.failures) && (end.Some? ==> alloc.failures == old(alloc.failures))
    ensures alloc.failures == old(alloc.failures) ==> AgreesString(JsonText.ParseString(text[i..]), text, end, b)
  {
    end, b := None, NoStr;
    if text[i] != QUOTE {
      return;
    }
    assert text[i..][1..] == text[i + 1..];
    JsonLaws.TwoPassesAgree(text[i + 1..]);
    var len := CountString(text, i + 1);
    var out := alloc.NewBytes(len + 1);
    if out == null {
      return;
    }
    var stop := CopyString(text, i + 1, out);
    item.text := out;
    item.kind := STRING_KIND;
    end, b := Some(stop), Str(out, JsonText.ReadString(text[i + 1..]).value);
  }

  /** What parse_string has to deliver when memory does not run out. */
  ghost predicate AgreesString(r: JsonText.Parsed<seq<byte>>, text: seq<byte>, end: Option<nat>, b: Str) {
    match r
    case Ok(s, rest) => end.Some? && end.value < |text| && text[end.value..] == rest && Content(b) == Some(s)
    case Bad => end.None?
    case Beyond => true
  }
}
