/** arm_linear_interp_q31: table lookup with a 12-bit index and a 20-bit fraction. */
module LinearInterp {
  type q31 = n: int | -0x8000_0000 <= n < 0x8000_0000

  const TWO31 := 0x8000_0000
  const TWO32 := 0x1_0000_0000

  /** The bits of a signed word, as the mask 0xFFF00000 makes the compiler see them. */
  function Unsigned(x: q31): (u: nat)
    ensures u < TWO32
  {
    x % TWO32
  }

  /** A conversion to a signed 32-bit word. */
  function Wrap(n: int): q31 {
    (n + TWO31) % TWO32 - TWO31
  }

  function Index(x: q31): (i: nat)
    ensures i < 0x1000
  {
    Unsigned(x) / 0x10_0000
  }

  /** The fraction in 1.31 format. */
  function Fract(x: q31): (f: nat)
    ensures f <= TWO31 - 0x800
  {
    Unsigned(x) % 0x10_0000 * 0x800
  }

  /** `(q63_t) a * b >> 32`. */
  function Product(a: q31, b: int): int {
    a * b / TWO32
  }

  /** The code, with its conversions. */
  function Interpolate(table: seq<q31>, x: q31, nValues: nat): (y: q31)
    requires 1 <= nValues <= |table| && nValues < TWO32
  {
    var index := Wrap(Index(x));
    if index >= Wrap(nValues - 1) then table[nValues - 1]
    else if index < 0 then table[0]
    else
      IndexFits(x, nValues);
      var fract := Fract(x);
      var y0, y1 := table[index], table[index + 1];
      Wrap(2 * Wrap(Wrap(Product(y0, 0x7FFF_FFFF - fract)) + Wrap(Product(y1, fract))))
  }

  /** The two entries that are read are there, for every input; the third case of the code is never taken. */
  lemma IndexFits(x: q31, nValues: nat)
    requires 1 <= nValues < TWO32
    ensures Wrap(Index(x)) == Index(x)
    ensures Wrap(Index(x)) < Wrap(nValues - 1) ==> Index(x) + 1 < nValues
  {
    assert nValues - 1 < TWO31 || Wrap(nValues - 1) < 0;
  }

  /** The exact interpolant between two entries, times 2^31. */
  function Exact(y0: q31, y1: q31, fract: nat): int {
    y0 * (TWO31 - fract) + y1 * fract
  }

  /** The upper twelve bits of the input are the index, the lower twenty the fraction; a negative input counts as
      2^32 more. */
  lemma InputSplits(x: q31, i: nat, f: nat)
    requires f < 0x10_0000 && (if x < 0 then x + 0x1_0000_0000 else x) == i * 0x10_0000 + f
    ensures Index(x) == i && Fract(x) == f * 0x800
  {
  }

  lemma Floor(n: int)
    ensures 0 <= n - n / TWO32 * TWO32 < TWO32
  {
  }

  lemma Between(a: q31, b: nat)
    requires b < TWO31
    ensures -TWO31 * b <= a * b <= (TWO31 - 1) * b
  {
    var n: int := a as int;
    NotNegative(n + TWO31, b);
    NotNegative(TWO31 - 1 - n, b);
    assert (n + TWO31) * b == n * b + TWO31 * b;
    assert (TWO31 - 1 - n) * b == (TWO31 - 1) * b - n * b;
  }

  lemma NotNegative(m: nat, n: nat)
    ensures m * n >= 0
  {
  }

  /** A weighted mean of two words, scaled down by 2^32, is at most half as large as a word. */
  lemma HalfScale(y0: q31, y1: q31, w0: nat, w1: nat)
    requires w0 + w1 == TWO31 - 1
    ensures var s := Product(y0, w0) + Product(y1, w1); -0x4000_0000 <= s < 0x4000_0000
    ensures -0x4000_0000 <= Product(y0, w0) < 0x4000_0000 && -0x4000_0000 <= Product(y1, w1) < 0x4000_0000
  {
    Between(y0, w0);
    Between(y1, w1);
    Floor(y0 * w0);
    Floor(y1 * w1);
  }

  /** No conversion changes a value: nothing overflows 32 bits. */
  lemma NothingOverflows(y0: q31, y1: q31, fract: nat)
    requires fract < TWO31
    ensures var a, b := Product(y0, 0x7FFF_FFFF - fract), Product(y1, fract);
      && Wrap(a) == a && Wrap(b) == b && Wrap(a + b) == a + b && Wrap(2 * (a + b)) == 2 * (a + b)
  {
    HalfScale(y0, y1, 0x7FFF_FFFF - fract, fract);
  }

  /** On a segment between two entries the result is at most one unit above the exact interpolant
      and less than five units below it. */
  lemma ErrorBound(table: seq<q31>, x: q31, nValues: nat, i: nat, f: nat)
    requires 1 <= nValues <= |table| && nValues < 0x8000_0000
    requires f < 0x10_0000 && (if x < 0 then x + 0x1_0000_0000 else x) == i * 0x10_0000 + f && i + 1 < nValues
    ensures var exact := (table[i] * (0x10_0000 - f) + table[i + 1] * f) * 0x800;
      var y: int := Interpolate(table, x, nValues);
      -0x8000_0000 <= exact - 0x8000_0000 * y < 5 * 0x8000_0000
  {
    hide Wrap, Product;
    InputSplits(x, i, f);
    IndexFits(x, nValues);
    SmallWrap(nValues - 1);
    var y0, y1, fract := table[i], table[i + 1], Fract(x);
    NothingOverflows(y0, y1, fract);
    Truncation(y0, y1, fract);
    Scaled(y0, y1, f);
  }

  lemma Scaled(y0: q31, y1: q31, f: nat)
    requires f < 0x10_0000
    ensures Exact(y0, y1, f * 0x800) == (y0 * (0x10_0000 - f) + y1 * f) * 0x800
  {
    var a, b: int := y0 as int, y1 as int;
    assert TWO31 - f * 0x800 == (0x10_0000 - f) * 0x800;
    assert a * ((0x10_0000 - f) * 0x800) == a * (0x10_0000 - f) * 0x800;
    assert b * (f * 0x800) == b * f * 0x800;
  }

  lemma SmallWrap(n: nat)
    requires n < TWO31
    ensures Wrap(n) == n
  {
  }

  lemma Truncation(y0: q31, y1: q31, fract: nat)
    requires fract < TWO31
    ensures var y := 2 * (Product(y0, 0x7FFF_FFFF - fract) + Product(y1, fract));
      -TWO31 <= Exact(y0, y1, fract) - TWO31 * y < 5 * TWO31
  {
    Floor(y0 * (0x7FFF_FFFF - fract));
    Floor(y1 * fract);
    assert y0 * (TWO31 - fract) == y0 * (0x7FFF_FFFF - fract) + y0;
  }

  /** Beyond the table, and for every negative input with a table of at most 2049 values, the last value comes out:
      the index is taken from the unsigned bits of the input. */
  lemma BeyondTheTable(table: seq<q31>, x: q31, nValues: nat)
    requires 1 <= nValues <= |table| && nValues < 0x8000_0000
    requires if x < 0 then (x + 0x1_0000_0000) / 0x10_0000 >= nValues - 1 || nValues <= 2049
             else x / 0x10_0000 >= nValues - 1
    ensures Interpolate(table, x, nValues) == table[nValues - 1]
  {
    IndexFits(x, nValues);
    SmallWrap(nValues - 1);
  }
}
