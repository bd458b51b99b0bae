/** print_number and print_string_ptr: the scalars, written to blocks of exactly known size. */
module CJsonPrintScalar {
  import opened Bytes
  import opened CJsonHeap
  import CStrings
  import JsonText
  import JsonLaws

  /** Eleven characters are enough for any 32-bit number. */
  lemma IntFits(n: int32)
    ensures |JsonText.PrintInt(n)| <= 11 && NulFree(JsonText.PrintInt(n))
  {
    var v: int := n as int;
    assert IsInt32(v);
    assert Pow10(10) == 10_000_000_000;
    if v < 0 {
      NatFits(-v, 10);
    } else {
      NatFits(v, 10);
    }
  }

  function Pow10(d: nat): nat {
    if d == 0 then 1 else 10 * Pow10(d - 1)
  }

  lemma {:induction false} NatFits(n: nat, d: nat)
    requires d >= 1 && n < Pow10(d)
    ensures |JsonText.PrintNat(n)| <= d && NulFree(JsonText.PrintNat(n))
  {
    if n >= 10 {
      NatFits(n / 10, d - 1);
    }
  }

  /** print_number, for a number that is an integer. */
  method PrintNumber(alloc: Allocator, item: Node) returns (out: array?<byte>)
    modifies alloc
    ensures out == null ==> alloc.live == old(alloc.live) && alloc.failures == old(alloc.failures) + 1
    ensures out != null ==> fresh(out) && out.Length == 21 && HoldsText(out, JsonText.PrintInt(item.number))
    ensures out != null ==> alloc.live == old(alloc.live) + {out} && alloc.failures == old(alloc.failures)
  {
    IntFits(item.number);
    out := CStrings.NewText(alloc, 21, JsonText.PrintInt(item.number));
  }

  /** The first pass of print_string_ptr: the length of the string with its escapes. */
  method CountEscaped(str: array<byte>, ghost s: seq<byte>) returns (len: nat)
    requires HoldsText(str, s)
    ensures len == |JsonText.EscapeAll(s)|
  {
    var ptr := 0;
    len := 0;
    while str[ptr] != 0
      invariant ptr <= |s| && len + |JsonText.EscapeAll(s[ptr..])| == |JsonText.EscapeAll(s)|
      decreases |s| - ptr
    {
      var token := str[ptr];
      assert s[ptr..][1..] == s[ptr + 1..];
      len := len + 1;
      if token in {QUOTE, BACKSLASH, 8, 12, 10, 13, 9} {
        len := len + 1;
      } else if token < 32 {
        len := len + 5;
      }
      ptr := ptr + 1;
    }
  }

  /** The second pass: one byte of the string, escaped. */
  method PutEscaped(out: array<byte>, at: nat, token: byte) returns (at': nat)
    requires at + |JsonText.EscapeByte(token)| < out.Length
    modifies out
    ensures at' == at + |JsonText.EscapeByte(token)| && out[..at'] == old(out[..at]) + JsonText.EscapeByte(token)
  {
    if token > 31 && token != QUOTE && token != BACKSLASH {
      at' := CStrings.PutByte(out, at, token);
      return;
    }
    at' := CStrings.PutByte(out, at, BACKSLASH);
    match token
    case 92 => at' := CStrings.PutByte(out, at', 92);
    case 34 => at' := CStrings.PutByte(out, at', 34);
    case 8 => at' := CStrings.PutByte(out, at', 98);
    case 12 => at' := CStrings.PutByte(out, at', 102);
    case 10 => at' := CStrings.PutByte(out, at', 110);
    case 13 => at' := CStrings.PutByte(out, at', 114);
    case 9 => at' := CStrings.PutByte(out, at', 116);
    case _ =>
      at' := PutHex4(out, at', token);
  }

  /** sprintf with "u%04x".  Its terminator is overwritten by what follows. */
  method PutHex4(out: array<byte>, at: nat, token: byte) returns (at': nat)
    requires at + 5 < out.Length
    modifies out
    ensures at' == at + 5 && out[..at'] == old(out[..at]) + ([117] + PrintHex4(token))
  {
    ghost var was := out[..at];
    var digits := PrintHex4(token);
    out[at], out[at + 1], out[at + 2], out[at + 3], out[at + 4] := 117, digits[0], digits[1], digits[2], digits[3];
    at' := at + 5;
    out[at'] := 0;
    assert out[..at] == was;
    assert out[at..at'] == [117] + PrintHex4(token);
    assert out[..at'] == out[..at] + out[at..at'];
  }

  /** print_string_ptr: a string between quotes; a missing string becomes the empty text.
      The block is exactly as long as the text and its terminator. */
  method PrintStringPtr(alloc: Allocator, str: array?<byte>, ghost b: Str) returns (out: array?<byte>)
    requires HoldsStr(str, b)
    modifies alloc
    ensures out == null ==> alloc.live == old(alloc.live) && alloc.failures == old(alloc.failures) + 1
    ensures out != null ==> fresh(out) && HoldsText(out, JsonText.PrintText(Content(b)))
    ensures out != null ==> out.Length == |JsonText.PrintText(Content(b))| + 1
    ensures out != null ==> alloc.live == old(alloc.live) + {out} && alloc.failures == old(alloc.failures)
  {
    if str == null {
      out := CStrings.NewText(alloc, 1, []);
      return;
    }
    var len := CountEscaped(str, b.content);
    out := alloc.NewBytes(len + 3);
    if out != null {
      FillString(str, b.content, out);
    }
  }

  method FillString(str: array<byte>, ghost s: seq<byte>, out: array<byte>)
    requires HoldsText(str, s) && out != str && out.Length == |JsonText.EscapeAll(s)| + 3
    modifies out
    ensures HoldsText(out, JsonText.PrintText(Some(s)))
  {
    hide JsonText.EscapeAll, JsonText.EscapeByte;
    ghost var whole := JsonText.PrintText(Some(s));
    JsonLaws.TextNulFree(Some(s));
    var ptr: nat, at: nat := 0, 0;
    at := CStrings.PutByte(out, at, QUOTE);
    assert s[0..] == s;
    while str[ptr] != 0
      invariant ptr <= |s| && at <= out.Length && HoldsText(str, s)
      invariant whole == out[..at] + (JsonText.EscapeAll(s[ptr..]) + [QUOTE])
      decreases |s| - ptr
    {
      EscapeStep(s, ptr, out[..at]);
      at := PutEscaped(out, at, str[ptr]);
      ptr := ptr + 1;
    }
    EscapeEnd(s);
    at := CStrings.PutByte(out, at, QUOTE);
    CStrings.Terminate(out, at, whole);
  }

  lemma EscapeStep(s: seq<byte>, i: nat, done: seq<byte>)
    requires i < |s|
    ensures done + (JsonText.EscapeAll(s[i..]) + [QUOTE])
         == done + JsonText.EscapeByte(s[i]) + (JsonText.EscapeAll(s[i + 1..]) + [QUOTE])
    ensures |JsonText.EscapeAll(s[i..])| == |JsonText.EscapeByte(s[i])| + |JsonText.EscapeAll(s[i + 1..])|
  {
    hide JsonText.EscapeByte;
    assert s[i..][1..] == s[i + 1..];
  }

  lemma EscapeEnd(s: seq<byte>)
    ensures JsonText.EscapeAll(s[|s|..]) == []
  {
  }
}
