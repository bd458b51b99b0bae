/** The UTF-16 to UTF-8 transcoding of string escapes. */
module Utf8 {
  import opened Bytes

  /** Code points that have a UTF-8 form (section 3 of RFC 3629). */
  predicate IsScalar(c: nat) {
    c < 0xD800 || 0xE000 <= c < 0x11_0000
  }

  predicate IsHighSurrogate(u: nat) {
    0xD800 <= u < 0xDC00
  }

  predicate IsLowSurrogate(u: nat) {
    0xDC00 <= u < 0xE000
  }

  /** The code point that the parser makes of a surrogate pair. */
  function Combine(hi: nat, lo: nat): nat {
    0x1_0000 + hi % 0x400 * 0x400 + lo % 0x400
  }

  /** A continuation byte: the low six bits of `uc` under the mark 10xxxxxx. */
  function Continuation(uc: nat): byte {
    0x80 + uc % 64
  }

  /** How many bytes the parser writes for `uc`. */
  function EncodedLength(uc: nat): (len: nat)
    ensures 1 <= len <= 4
  {
    if uc < 0x80 then 1 else if uc < 0x800 then 2 else if uc < 0x1_0000 then 3 else 4
  }

  /** The bytes the parser writes for `uc`. */
  function Encode(uc: nat): (s: seq<byte>)
    requires uc < 0x11_0000
    ensures |s| == EncodedLength(uc)
  {
    if uc < 0x80 then [uc]
    else if uc < 0x800 then [0xC0 + uc / 64, Continuation(uc)]
    else if uc < 0x1_0000 then [0xE0 + uc / 4096, Continuation(uc / 64), Continuation(uc)]
    else [0xF0 + uc / 262144, Continuation(uc / 4096), Continuation(uc / 64), Continuation(uc)]
  }

  predicate IsContinuation(b: byte) {
    0x80 <= b < 0xC0
  }

  /** The byte sequences of section 4 of RFC 3629, written out row by row. */
  predicate WellFormed(s: seq<byte>) {
    || (|s| == 1 && s[0] < 0x80)
    || (|s| == 2 && 0xC2 <= s[0] <= 0xDF && IsContinuation(s[1]))
    || (|s| == 3 && IsContinuation(s[1]) && IsContinuation(s[2])
        && (|| (s[0] == 0xE0 && 0xA0 <= s[1])
            || 0xE1 <= s[0] <= 0xEC
            || (s[0] == 0xED && s[1] < 0xA0)
            || 0xEE <= s[0] <= 0xEF))
    || (|s| == 4 && IsContinuation(s[1]) && IsContinuation(s[2]) && IsContinuation(s[3])
        && (|| (s[0] == 0xF0 && 0x90 <= s[1])
            || 0xF1 <= s[0] <= 0xF3
            || (s[0] == 0xF4 && s[1] < 0x90)))
  }

  /** Reading a well-formed sequence back, by the bit distribution of section 3 of RFC 3629. */
  function Decode(s: seq<byte>): (uc: nat)
    requires WellFormed(s)
    ensures IsScalar(uc)
  {
    var b0: int := s[0];
    if |s| == 1 then b0
    else
      var b1: int := s[1] - 0x80;
      if |s| == 2 then (b0 - 0xC0) * 64 + b1
      else
        var b2: int := s[2] - 0x80;
        if |s| == 3 then (b0 - 0xE0) * 4096 + b1 * 64 + b2
        else
          var b3: int := s[3] - 0x80;
          (b0 - 0xF0) * 262144 + b1 * 4096 + b2 * 64 + b3
  }

  /** Every scalar value is written as a well-formed sequence that reads back as itself. */
  lemma DecodeEncode(uc: nat)
    requires IsScalar(uc)
    ensures WellFormed(Encode(uc)) && Decode(Encode(uc)) == uc
  {
    if uc >= 0x1_0000 {
      assert uc / 64 / 64 == uc / 4096 && uc / 4096 / 64 == uc / 262144;
    } else if uc >= 0x800 {
      assert uc / 64 / 64 == uc / 4096;
    }
  }

  lemma SplitLast(n: nat, b: byte)
    requires IsContinuation(b)
    ensures (n * 64 + (b - 0x80)) / 64 == n && Continuation(n * 64 + (b - 0x80)) == b
  {
  }

  /** And every well-formed sequence is the one written for the scalar value it stands for. */
  lemma EncodeDecode(s: seq<byte>)
    requires WellFormed(s)
    ensures Encode(Decode(s)) == s
  {
    var b0: int := s[0];
    if |s| == 2 {
      SplitLast(b0 - 0xC0, s[1]);
    } else if |s| == 3 {
      var n1 := (b0 - 0xE0) * 64 + (s[1] - 0x80);
      SplitLast(b0 - 0xE0, s[1]);
      SplitLast(n1, s[2]);
      assert Decode(s) == n1 * 64 + (s[2] - 0x80);
      assert Decode(s) / 4096 == n1 / 64;
    } else if |s| == 4 {
      var n1 := (b0 - 0xF0) * 64 + (s[1] - 0x80);
      var n2 := n1 * 64 + (s[2] - 0x80);
      SplitLast(b0 - 0xF0, s[1]);
      SplitLast(n1, s[2]);
      SplitLast(n2, s[3]);
      assert Decode(s) == n2 * 64 + (s[3] - 0x80);
      assert Decode(s) / 4096 == n2 / 64 && Decode(s) / 262144 == n1 / 64;
    }
  }

  /** Section 2.1 of RFC 2781: the pair of 16-bit units that stands for `c`. */
  function SurrogatePair(c: nat): (units: (nat, nat))
    requires 0x1_0000 <= c < 0x11_0000
    ensures IsHighSurrogate(units.0) && IsLowSurrogate(units.1)
  {
    (0xD800 + (c - 0x1_0000) / 0x400, 0xDC00 + (c - 0x1_0000) % 0x400)
  }

  /** The parser's arithmetic on a pair undoes that split, and any pair it accepts is such a split. */
  lemma CombineSurrogates(hi: nat, lo: nat, c: nat)
    requires IsHighSurrogate(hi) && IsLowSurrogate(lo)
    requires 0x1_0000 <= c < 0x11_0000
    ensures 0x1_0000 <= Combine(hi, lo) < 0x11_0000
    ensures Combine(hi, lo) == c <==> (hi, lo) == SurrogatePair(c)
  {
    assert hi % 0x400 == hi - 0xD800 && lo % 0x400 == lo - 0xDC00;
  }

  /** The masks, shifts and first-byte marks of the source, on 32-bit words, are the remainders, quotients and
      sums used here.  A mark meets what the shifts have left of a value of its length. */
  lemma BitOperations(uc: bv32, lo: bv32)
    ensures (uc | 0x80) & 0xBF == 0x80 + uc % 64
    ensures uc >> 6 == uc / 64
    ensures 0x1_0000 + (((uc & 0x3FF) << 10) | (lo & 0x3FF)) == 0x1_0000 + uc % 0x400 * 0x400 + lo % 0x400
    ensures uc | 0x00 == uc
    ensures uc < 0x800 ==> uc >> 6 < 0x20 && (uc >> 6) | 0xC0 == 0xC0 + (uc >> 6)
    ensures uc < 0x1_0000 ==> uc >> 12 < 0x10 && (uc >> 12) | 0xE0 == 0xE0 + (uc >> 12)
    ensures uc < 0x20_0000 ==> uc >> 18 < 0x08 && (uc >> 18) | 0xF0 == 0xF0 + (uc >> 18)
    ensures uc >> 12 == (uc >> 6) >> 6 && uc >> 18 == ((uc >> 6) >> 6) >> 6
  {
  }
}
