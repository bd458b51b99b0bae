/** Bytes, C strings and the few character codes that the JSON code names. */
module Bytes {
  type byte = b: int | 0 <= b < 256

  datatype Option<+T> = None | Some(value: T)

  const QUOTE: byte := 34
  const COMMA: byte := 44
  const MINUS: byte := 45
  const DOT: byte := 46
  const ZERO: byte := 48
  const COLON: byte := 58
  const LBRACKET: byte := 91
  const BACKSLASH: byte := 92
  const RBRACKET: byte := 93
  const LBRACE: byte := 123
  const RBRACE: byte := 125
  const TAB: byte := 9
  const NEWLINE: byte := 10
  const SPACE: byte := 32

  /** What a `const char *` parameter points at: some bytes, then a terminator. */
  predicate Terminated(s: seq<byte>) {
    |s| > 0 && s[|s| - 1] == 0
  }

  /** The content of a C string: no byte of it is the terminator. */
  predicate NulFree(s: seq<byte>) {
    forall i :: 0 <= i < |s| ==> s[i] != 0
  }

  predicate IsDigit(b: byte) {
    48 <= b <= 57
  }

  predicate IsHexDigit(b: byte) {
    48 <= b <= 57 || 65 <= b <= 70 || 97 <= b <= 102
  }

  function HexValue(b: byte): (v: nat)
    requires IsHexDigit(b)
    ensures v < 16
  {
    if b <= 57 then b - 48 else if b <= 70 then b - 55 else b - 87
  }

  /** The digit that `%x` prints. */
  function HexDigit(v: nat): (b: byte)
    requires v < 16
    ensures IsHexDigit(b) && HexValue(b) == v
  {
    if v < 10 then 48 + v else 87 + v
  }

  /** Four hexadecimal digits start `s`: the condition under which `%4x` reads exactly four. */
  predicate Hex4(s: seq<byte>) {
    |s| >= 4 && IsHexDigit(s[0]) && IsHexDigit(s[1]) && IsHexDigit(s[2]) && IsHexDigit(s[3])
  }

  function Hex4Value(s: seq<byte>): (v: nat)
    requires Hex4(s)
    ensures v < 0x10000
  {
    HexValue(s[0]) * 4096 + HexValue(s[1]) * 256 + HexValue(s[2]) * 16 + HexValue(s[3])
  }

  /** The four digits that `%04x` prints for a 16-bit value. */
  function PrintHex4(v: nat): (s: seq<byte>)
    requires v < 0x10000
    ensures |s| == 4 && Hex4(s) && Hex4Value(s) == v
  {
    var v1, v2, v3 := v / 16, v / 16 / 16, v / 16 / 16 / 16;
    [HexDigit(v3), HexDigit(v2 % 16), HexDigit(v1 % 16), HexDigit(v % 16)]
  }

  predicate IsInt32(n: int) {
    -0x8000_0000 <= n < 0x8000_0000
  }

  /** The C type `int`. */
  type int32 = n: int | IsInt32(n)

  function Repeat(b: byte, n: int): (s: seq<byte>)
    ensures |s| == if n < 0 then 0 else n
    ensures forall i :: 0 <= i < |s| ==> s[i] == b
    decreases n
  {
    if n <= 0 then [] else Repeat(b, n - 1) + [b]
  }
}
