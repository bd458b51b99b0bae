/** Numbers with a fraction and an exponent: what parse_number reads, in exact arithmetic. */
module JsonNumber {
  import opened Bytes
  import opened JsonText
  import opened JsonRoundTrip

  const PLUS: byte := 43
  const SMALL_E: byte := 101
  const CAPITAL_E: byte := 69

  /** A sign, and a whole number times a power of ten. */
  datatype Decimal = Decimal(neg: bool, mantissa: nat, scale: int)

  function Power10(k: int): (p: real)
    ensures p > 0.0
    decreases if k < 0 then -k else k
  {
    if k == 0 then 1.0 else if k > 0 then 10.0 * Power10(k - 1) else Power10(k + 1) / 10.0
  }

  function ValueOf(d: Decimal): real {
    (if d.neg then -1.0 else 1.0) * d.mantissa as real * Power10(d.scale)
  }

  /** The conversion of a double to an `int`, where that is defined: towards zero. */
  function Truncated(v: real): int {
    if v < 0.0 then -((-v).Floor) else v.Floor
  }

  // ---------- reading ----------

  function ReadFraction(s: seq<byte>, n: nat): (r: (nat, int, seq<byte>))
    requires Terminated(s)
    ensures Terminated(r.2) && |r.2| <= |s|
  {
    if s[0] == DOT && IsDigit(s[1]) then
      var (m, rest) := ReadDigits(s[1..], n);
      (m, |rest| - (|s| - 1), rest)
    else (n, 0, s)
  }

  function ReadExponent(s: seq<byte>): (r: (int, seq<byte>))
    requires Terminated(s)
    ensures Terminated(r.1) && |r.1| <= |s|
  {
    if s[0] == SMALL_E || s[0] == CAPITAL_E then
      var s1 := s[1..];
      var s2 := if s1[0] == PLUS || s1[0] == MINUS then s1[1..] else s1;
      var (e, rest) := ReadDigits(s2, 0);
      (if s1[0] == MINUS then -(e as int) else e, rest)
    else (0, s)
  }

  function ReadWhole(s: seq<byte>): (r: (nat, seq<byte>))
    requires Terminated(s)
    ensures Terminated(r.1) && |r.1| <= |s|
    ensures IsDigit(s[0]) ==> |r.1| < |s|
  {
    var s1 := if s[0] == ZERO then s[1..] else s;
    if IsDigit(s1[0]) && s1[0] != ZERO then ReadDigits(s1, 0) else (0, s1)
  }

  /** parse_number. */
  function ReadNumber(s: seq<byte>): (r: (Decimal, seq<byte>))
    requires Terminated(s)
    ensures Terminated(r.1) && |r.1| <= |s|
  {
    var (n, s1) := ReadWhole(if s[0] == MINUS then s[1..] else s);
    var (m, scale, s2) := ReadFraction(s1, n);
    var (e, s3) := ReadExponent(s2);
    (Decimal(s[0] == MINUS, m, scale + e), s3)
  }

  /** Where the grammar of the text reads a whole number, this is the same number. */
  lemma WholeNumbersAgree(s: seq<byte>)
    requires Terminated(s) && (s[0] == MINUS || IsDigit(s[0])) && ParseNumber(s).Ok?
    ensures ReadNumber(s).1 == ParseNumber(s).rest && ValueOf(ReadNumber(s).0) == ParseNumber(s).value.n as real
    ensures Truncated(ValueOf(ReadNumber(s).0)) == ParseNumber(s).value.n
  {
    hide ReadDigits;
    var (n, rest) := ReadWhole(if s[0] == MINUS then s[1..] else s);
    assert Power10(0) == 1.0;
    WholeValue(s[0] == MINUS, n);
  }

  lemma WholeValue(neg: bool, n: nat)
    ensures ValueOf(Decimal(neg, n, 0)) == (if neg then -(n as int) else n) as real
    ensures Truncated(ValueOf(Decimal(neg, n, 0))) == if neg then -(n as int) else n
  {
    assert Power10(0) == 1.0;
  }

  // ---------- what a numeral means ----------

  predicate AllDigits(f: seq<byte>) {
    forall i :: 0 <= i < |f| ==> IsDigit(f[i])
  }

  /** The number that a row of digits stands for, written behind `acc`. */
  function Digits(f: seq<byte>, acc: nat): nat
    requires AllDigits(f)
  {
    if f == [] then acc else Digits(f[1..], acc * 10 + (f[0] - 48))
  }

  function FractionText(f: seq<byte>): seq<byte> {
    if f == [] then [] else [DOT] + f
  }

  function ExponentText(e: Option<int>): seq<byte> {
    if e.None? then [] else [SMALL_E] + PrintInt(e.value)
  }

  /** A number as it is written: sign, whole part, fraction, exponent. */
  function Numeral(neg: bool, n: nat, f: seq<byte>, e: Option<int>): seq<byte> {
    Sign(neg, PrintNat(n) + FractionText(f) + ExponentText(e))
  }

  lemma {:induction false} ReadDigitRow(f: seq<byte>, acc: nat, rest: seq<byte>)
    requires AllDigits(f) && Terminated(rest)
    ensures ReadDigits(f + rest, acc) == ReadDigits(rest, Digits(f, acc))
  {
    if f == [] {
      assert f + rest == rest;
    } else {
      assert (f + rest)[1..] == f[1..] + rest;
      ReadDigitRow(f[1..], acc * 10 + (f[0] - 48), rest);
    }
  }

  lemma ReadFractionText(n: nat, f: seq<byte>, rest: seq<byte>)
    requires AllDigits(f) && Terminated(rest) && !IsDigit(rest[0]) && (rest[0] == DOT ==> !IsDigit(rest[1]))
    ensures ReadFraction(FractionText(f) + rest, n) == (Digits(f, n), -|f|, rest)
  {
    if f == [] {
      assert FractionText(f) + rest == rest;
    } else {
      var s := FractionText(f) + rest;
      assert s[1..] == f + rest;
      ReadDigitRow(f, n, rest);
      ReadDigitsStop(rest, Digits(f, n));
    }
  }

  lemma NoExponent(rest: seq<byte>)
    requires Terminated(rest) && EndsNumber(rest)
    ensures ReadExponent(rest) == (0, rest)
  {
  }

  lemma ReadPrintedExponent(e: int, rest: seq<byte>)
    requires Terminated(rest) && EndsNumber(rest)
    ensures var t := PrintInt(e) + rest; Terminated(t) && ReadExponent([SMALL_E] + t) == (e, rest)
  {
    hide ReadDigits, PrintNat, ReadExponent, EndsNumber;
    var m: nat := if e < 0 then -e else e;
    var d := PrintNat(m) + rest;
    ReadPrintedNat(m, rest);
    ReadDigitsStop(rest, m) by { assert !IsDigit(rest[0]) by { EndsOnNoDigit(rest); } }
    ExponentSplits(e < 0, d);
    assert PrintInt(e) + rest == Sign(e < 0, d);
  }

  lemma EndsOnNoDigit(rest: seq<byte>)
    requires Terminated(rest) && EndsNumber(rest)
    ensures !IsDigit(rest[0])
  {
  }

  lemma ExponentSplits(neg: bool, d: seq<byte>)
    requires Terminated(d) && IsDigit(d[0])
    ensures var t := Sign(neg, d);
      Terminated(t) && ReadExponent([SMALL_E] + t)
      == (if neg then -(ReadDigits(d, 0).0 as int) else ReadDigits(d, 0).0 as int, ReadDigits(d, 0).1)
  {
    hide ReadDigits;
    var t := Sign(neg, d);
    assert ([SMALL_E] + t)[1..] == t;
    if neg {
      assert t[1..] == d;
    }
  }

  lemma ReadExponentText(e: Option<int>, rest: seq<byte>)
    requires Terminated(rest) && EndsNumber(rest)
    ensures ReadExponent(ExponentText(e) + rest) == (if e.None? then 0 else e.value, rest)
  {
    hide ReadDigits, PrintInt, ReadExponent;
    if e.None? {
      assert ExponentText(e) + rest == rest;
      assert ReadExponent(rest) == (0, rest) by { NoExponent(rest); }
    } else {
      var t := PrintInt(e.value) + rest;
      assert ExponentText(e) + rest == [SMALL_E] + t;
      ReadPrintedExponent(e.value, rest);
    }
  }

  lemma ReadWholeText(n: nat, rest: seq<byte>)
    requires Terminated(rest) && !IsDigit(rest[0])
    ensures Terminated(PrintNat(n) + rest) && ReadWhole(PrintNat(n) + rest) == (n, rest)
  {
    hide ReadDigits;
    ReadPrintedNat(n, rest);
    ReadDigitsStop(rest, n);
    if n == 0 {
      assert (PrintNat(n) + rest)[1..] == rest;
    }
  }

  lemma AfterFraction(e: Option<int>, rest: seq<byte>)
    requires Terminated(rest) && EndsNumber(rest)
    ensures var s := ExponentText(e) + rest; Terminated(s) && !IsDigit(s[0]) && (s[0] == DOT ==> !IsDigit(s[1]))
  {
    hide PrintInt;
  }

  lemma AfterWhole(f: seq<byte>, rest: seq<byte>)
    requires Terminated(rest) && !IsDigit(rest[0])
    ensures var s := FractionText(f) + rest; Terminated(s) && !IsDigit(s[0])
  {
  }

  lemma NumeralSplits(neg: bool, n: nat, f: seq<byte>, e: Option<int>, rest: seq<byte>)
    ensures Numeral(neg, n, f, e) + rest == Sign(neg, PrintNat(n) + (FractionText(f) + (ExponentText(e) + rest)))
  {
    hide PrintNat, FractionText, ExponentText;
  }

  lemma SignSplits(neg: bool, t: seq<byte>)
    requires Terminated(t) && IsDigit(t[0])
    ensures var s := Sign(neg, t); Terminated(s) && (s[0] == MINUS <==> neg) && t == (if neg then s[1..] else s)
  {
  }

  /** A numeral is read as what it says, and up to its end: the digits before and behind the point make the mantissa,
      and the exponent less the number of digits behind the point is the scale. */
  lemma ReadNumeral(neg: bool, n: nat, f: seq<byte>, e: Option<int>, rest: seq<byte>)
    requires AllDigits(f) && Terminated(rest) && EndsNumber(rest)
    ensures Terminated(Numeral(neg, n, f, e) + rest)
    ensures ReadNumber(Numeral(neg, n, f, e) + rest)
         == (Decimal(neg, Digits(f, n), (if e.None? then 0 else e.value) - |f|), rest)
  {
    hide ReadWhole, ReadFraction, ReadExponent, PrintNat, Digits, FractionText, ExponentText, Terminated, EndsNumber;
    var t2 := ExponentText(e) + rest;
    var t1 := FractionText(f) + t2;
    var t0 := PrintNat(n) + t1;
    AfterFraction(e, rest);
    ReadExponentText(e, rest);
    AfterWhole(f, t2);
    ReadFractionText(n, f, t2);
    ReadWholeText(n, t1);
    NumeralSplits(neg, n, f, e, rest);
    SignSplits(neg, t0);
  }

  /** The value of a numeral: the whole part and the fraction, times ten to the exponent. */
  lemma NumeralValue(neg: bool, n: nat, f: seq<byte>, e: int)
    requires AllDigits(f)
    ensures ValueOf(Decimal(neg, Digits(f, n), e - |f|))
         == (if neg then -1.0 else 1.0) * (n as real + Digits(f, 0) as real * Power10(-|f|)) * Power10(e)
  {
    hide Power10, Digits;
    DigitsShift(f, n);
    PowerSum(-|f|, e);
    PowerSum(|f|, -|f|);
    PowerZero();
    Mix(n as real, Power10(|f|), Digits(f, 0) as real, Power10(-|f|), Power10(e));
  }

  lemma Mix(w: real, p: real, v: real, q: real, g: real)
    requires p * q == 1.0
    ensures (w * p + v) * (q * g) == (w + v * q) * g
  {
    assert (w * p + v) * q == w * (p * q) + v * q;
  }

  lemma PowerZero()
    ensures Power10(0) == 1.0
  {
  }

  lemma {:induction false} DigitsShift(f: seq<byte>, acc: nat)
    requires AllDigits(f)
    ensures Digits(f, acc) as real == acc as real * Power10(|f|) + Digits(f, 0) as real
  {
    hide Power10, Digits;
    if f == [] {
      NoDigits(acc);
      NoDigits(0);
      PowerZero();
    } else {
      var d: nat := f[0] - 48;
      FirstDigit(f, acc);
      FirstDigit(f, 0);
      DigitsShift(f[1..], acc * 10 + d);
      DigitsShift(f[1..], d);
      PowerStep(|f| - 1);
      Scale(acc, d, Power10(|f| - 1));
    }
  }

  lemma Scale(acc: nat, d: nat, p: real)
    ensures (acc * 10 + d) as real * p == acc as real * (10.0 * p) + d as real * p
  {
  }

  lemma NoDigits(acc: nat)
    ensures Digits([], acc) == acc
  {
  }

  lemma FirstDigit(f: seq<byte>, acc: nat)
    requires AllDigits(f) && f != []
    ensures Digits(f, acc) == Digits(f[1..], acc * 10 + (f[0] - 48))
  {
  }

  lemma PowerStep(k: int)
    ensures Power10(k + 1) == 10.0 * Power10(k)
  {
  }

  lemma {:induction false} PowerSum(j: int, k: int)
    ensures Power10(j + k) == Power10(j) * Power10(k)
    decreases if k < 0 then -k else k
  {
    hide Power10;
    if k > 0 {
      PowerSum(j, k - 1);
      PowerStep(j + k - 1);
      PowerStep(k - 1);
      Swap(10.0, Power10(j), Power10(k - 1));
    } else if k < 0 {
      PowerSum(j, k + 1);
      PowerStep(j + k);
      PowerStep(k);
      Swap(10.0, Power10(j), Power10(k));
    } else {
      PowerZero();
    }
  }

  lemma Swap(a: real, b: real, c: real)
    ensures a * (b * c) == b * (a * c)
  {
  }
}
