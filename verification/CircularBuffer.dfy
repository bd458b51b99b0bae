/** arm_circularWrite_q15 and arm_circularRead_q15: a block of samples through a ring. */
module CircularBuffer {
  type q15 = n: int | -0x8000 <= n < 0x8000

  /** One step of the offset, as the loops take it. */
  function Next(offset: int, inc: int, length: int): int {
    if offset + inc >= length then offset + inc - length else offset + inc
  }

  /** The offset stays in the ring from every place in it exactly when the increment is not negative and
      not longer than the ring: the loops mean to watch for negative increments, but do not. */
  lemma StaysInRing(inc: int, length: int)
    requires length > 0
    ensures (forall o :: 0 <= o < length ==> 0 <= Next(o, inc, length) < length) <==> 0 <= inc <= length
  {
    if forall o :: 0 <= o < length ==> 0 <= Next(o, inc, length) < length {
      assert 0 <= Next(0, inc, length) < length;
      assert 0 <= Next(length - 1, inc, length) < length;
    }
  }

  lemma NegativeIncrementEscapes()
    ensures Next(0, -1, 8) == -1
  {
  }

  /** The place of sample `i`. */
  function Place(start: nat, inc: nat, length: nat, i: nat): (p: nat)
    requires length > 0
    ensures p < length
  {
    (start + i * inc) % length
  }

  lemma PlaceIs(start: nat, inc: nat, length: nat, i: nat)
    requires length > 0
    ensures Place(start, inc, length, i) == (start + i * inc) % length
  {
  }

  lemma PlaceStep(start: nat, inc: nat, length: nat, i: nat)
    requires length > 0 && inc <= length
    ensures Next(Place(start, inc, length, i), inc, length) == Place(start, inc, length, i + 1)
  {
    var a := start + i * inc;
    assert start + (i + 1) * inc == a + inc;
    ModStep(a, inc, length);
  }

  lemma ModStep(a: nat, inc: nat, length: nat)
    requires length > 0 && inc <= length
    ensures Next(a % length, inc, length) == (a + inc) % length
  {
    var q, r := a / length, a % length;
    assert a + inc == q * length + (r + inc);
    if r + inc >= length {
      Unique(a + inc, q + 1, r + inc - length, length);
    } else {
      Unique(a + inc, q, r + inc, length);
    }
  }

  lemma Unique(n: nat, q: nat, r: nat, length: nat)
    requires length > 0 && r < length && n == q * length + r
    ensures n % length == r
  {
    var m, t := n / length, n % length;
    assert n == m * length + t;
    SameQuotient(q, m, r, t, length);
  }

  lemma SameQuotient(q: int, m: int, r: nat, t: nat, length: nat)
    requires r < length && t < length && q * length + r == m * length + t
    ensures r == t
  {
    Multiple(q - m, length);
    assert (q - m) * length == q * length - m * length;
  }

  lemma Multiple(k: int, length: nat)
    requires length > 0
    ensures k == 0 || k * length >= length || k * length + length <= 0
  {
    if k > 0 {
      assert (k - 1) * length >= 0;
    } else if k < 0 {
      assert (-k - 1) * length >= 0;
    }
  }

  /** The ring after the samples `xs` have been written. */
  function Written(buf: seq<q15>, length: nat, start: nat, inc: nat, xs: seq<q15>): (b: seq<q15>)
    requires 0 < length <= |buf|
    ensures |b| == |buf|
  {
    if xs == [] then buf
    else
      var n := |xs| - 1;
      Written(buf, length, start, inc, xs[..n])[Place(start, inc, length, n) := xs[n]]
  }

  /** The samples at every `inc`-th place of the ring. */
  function Fetched(buf: seq<q15>, length: nat, start: nat, inc: nat, n: nat): (xs: seq<q15>)
    requires 0 < length <= |buf|
    ensures |xs| == n
  {
    if n == 0 then [] else Fetched(buf, length, start, inc, n - 1) + [buf[Place(start, inc, length, n - 1)]]
  }

  /** The samples that a moving source pointer passes. */
  function Strided(src: seq<q15>, srcInc: int, n: nat): (xs: seq<q15>)
    requires forall i: nat :: i < n ==> 0 <= At(srcInc, i) < |src|
    ensures |xs| == n
  {
    if n == 0 then [] else Strided(src, srcInc, n - 1) + [src[At(srcInc, n - 1)]]
  }

  function At(inc: int, i: nat): int {
    i * inc
  }

  lemma AtStep(inc: int, i: nat)
    ensures At(inc, 0) == 0 && At(inc, i + 1) == At(inc, i) + inc
  {
  }

  lemma StridedStep(src: seq<q15>, srcInc: int, k: nat)
    requires forall i: nat :: i < k + 1 ==> 0 <= At(srcInc, i) < |src|
    ensures Strided(src, srcInc, k + 1) == Strided(src, srcInc, k) + [src[At(srcInc, k)]]
  {
    hide At;
  }

  lemma PlaceStart(start: nat, inc: nat, length: nat)
    requires start < length
    ensures Place(start, inc, length, 0) == start
  {
    Unique(start, 0, start, length);
  }

  lemma WrittenStep(buf: seq<q15>, length: nat, start: nat, inc: nat, xs: seq<q15>, x: q15)
    requires 0 < length <= |buf|
    ensures Written(buf, length, start, inc, xs + [x])
         == Written(buf, length, start, inc, xs)[Place(start, inc, length, |xs|) := x]
  {
    hide Place;
    assert (xs + [x])[..|xs|] == xs;
  }

  lemma NothingWritten(buf: seq<q15>, length: nat, start: nat, inc: nat)
    requires 0 < length <= |buf|
    ensures Written(buf, length, start, inc, []) == buf
  {
  }

  lemma NoSamples(src: seq<q15>, srcInc: int)
    ensures Strided(src, srcInc, 0) == []
  {
  }

  /** arm_circularWrite_q15. */
  method CircularWrite(buf: array<q15>, length: nat, writeOffset: nat, inc: nat, src: seq<q15>, srcInc: int,
    blockSize: nat)
    returns (offset: nat)
    requires 0 < length <= buf.Length && writeOffset < length && writeOffset < 0x1_0000 && inc <= length
    requires forall i: nat :: i < blockSize ==> 0 <= At(srcInc, i) < |src|
    modifies buf
    ensures buf[..] == Written(old(buf[..]), length, writeOffset, inc, Strided(src, srcInc, blockSize))
    ensures offset == (writeOffset + blockSize * inc) % length % 0x1_0000
  {
    hide Place, Next, At, Strided, Written;
    var wOffset, ptr, i: int := writeOffset, 0, blockSize;
    PlaceStart(writeOffset, inc, length);
    AtStep(srcInc, 0);
    NoSamples(src, srcInc);
    NothingWritten(buf[..], length, writeOffset, inc);
    while i > 0
      invariant 0 <= i <= blockSize && ptr == At(srcInc, blockSize - i)
      invariant wOffset == Place(writeOffset, inc, length, blockSize - i)
      invariant buf[..] == Written(old(buf[..]), length, writeOffset, inc, Strided(src, srcInc, blockSize - i))
    {
      ghost var k := blockSize - i;
      PlaceStep(writeOffset, inc, length, k);
      WrittenStep(old(buf[..]), length, writeOffset, inc, Strided(src, srcInc, k), src[ptr]);
      StridedStep(src, srcInc, k);
      AtStep(srcInc, k);
      buf[wOffset] := src[ptr];
      ptr := ptr + srcInc;
      wOffset := Advance(wOffset, inc, length);
      i := i - 1;
    }
    offset := wOffset % 0x1_0000;
    PlaceIs(writeOffset, inc, length, blockSize);
  }

  method Advance(offset: int, inc: int, length: int) returns (o: int)
    ensures o == Next(offset, inc, length)
  {
    o := offset + inc;
    if o >= length {
      o := o - length;
    }
  }

  // ---------- reading ----------

  /** Where sample `i` goes: the destination pointer starts over when it meets the end of its own buffer. */
  function Target(start: int, base: int, length: int, inc: int, i: nat): int {
    if i == 0 then start
    else
      var p := Target(start, base, length, inc, i - 1) + inc;
      if p == base + length then base else p
  }

  /** The destination after the samples `xs` have been delivered. */
  function Delivered(dst: seq<q15>, start: int, base: int, length: int, inc: int, xs: seq<q15>): (d: seq<q15>)
    requires forall i: nat :: i < |xs| ==> 0 <= Target(start, base, length, inc, i) < |dst|
    ensures |d| == |dst|
  {
    if xs == [] then dst
    else
      var n := |xs| - 1;
      Delivered(dst, start, base, length, inc, xs[..n])[Target(start, base, length, inc, n) := xs[n]]
  }

  lemma DeliveredStep(dst: seq<q15>, start: int, base: int, length: int, inc: int, xs: seq<q15>, x: q15)
    requires forall i: nat :: i < |xs| + 1 ==> 0 <= Target(start, base, length, inc, i) < |dst|
    ensures Delivered(dst, start, base, length, inc, xs + [x])
         == Delivered(dst, start, base, length, inc, xs)[Target(start, base, length, inc, |xs|) := x]
  {
    hide Target;
    assert (xs + [x])[..|xs|] == xs;
  }

  /** arm_circularRead_q15. */
  method CircularRead(buf: array<q15>, length: nat, readOffset: nat, inc: nat,
                      dst: array<q15>, start: int, base: int, dstLength: int, dstInc: int, blockSize: nat)
    returns (offset: nat)
    requires 0 < length <= buf.Length && readOffset < length && inc <= length && buf != dst
    requires forall i: nat :: i < blockSize ==> 0 <= Target(start, base, dstLength, dstInc, i) < dst.Length
    modifies dst
    ensures dst[..] == Delivered(old(dst[..]), start, base, dstLength, dstInc,
                                 Fetched(buf[..], length, readOffset, inc, blockSize))
    ensures offset == (readOffset + blockSize * inc) % length
  {
    hide Place, Next, Target, Delivered, Fetched;
    var rOffset, ptr, i: int := readOffset, start, blockSize;
    NothingDelivered(old(dst[..]), buf[..], length, readOffset, inc, start, base, dstLength, dstInc);
    PlaceStart(readOffset, inc, length);
    TargetStart(start, base, dstLength, dstInc);
    while i > 0
      invariant 0 <= i <= blockSize && ptr == Target(start, base, dstLength, dstInc, blockSize - i)
      invariant rOffset == Place(readOffset, inc, length, blockSize - i)
      invariant dst[..] == Delivered(old(dst[..]), start, base, dstLength, dstInc,
                                     Fetched(buf[..], length, readOffset, inc, blockSize - i))
    {
      ghost var k := blockSize - i;
      PlaceStep(readOffset, inc, length, k);
      FetchedStep(buf[..], length, readOffset, inc, k);
      DeliveredStep(old(dst[..]), start, base, dstLength, dstInc, Fetched(buf[..], length, readOffset, inc, k),
        buf[rOffset]);
      dst[ptr] := buf[rOffset];
      TargetStep(start, base, dstLength, dstInc, k);
      ptr := ptr + dstInc;
      if ptr == base + dstLength {
        ptr := base;
      }
      rOffset := Advance(rOffset, inc, length);
      i := i - 1;
    }
    offset := rOffset;
    PlaceIs(readOffset, inc, length, blockSize);
  }

  lemma NothingDelivered(dst: seq<q15>, buf: seq<q15>, length: nat, from: nat, inc: nat, start: int, base: int,
    dstLength: int, dstInc: int)
    requires 0 < length <= |buf|
    ensures Fetched(buf, length, from, inc, 0) == [] && Delivered(dst, start, base, dstLength, dstInc, []) == dst
  {
  }

  lemma FetchedStep(buf: seq<q15>, length: nat, start: nat, inc: nat, k: nat)
    requires 0 < length <= |buf|
    ensures Fetched(buf, length, start, inc, k + 1)
         == Fetched(buf, length, start, inc, k) + [buf[Place(start, inc, length, k)]]
  {
  }

  lemma TargetStart(start: int, base: int, length: int, inc: int)
    ensures Target(start, base, length, inc, 0) == start
  {
  }

  lemma TargetStep(start: int, base: int, length: int, inc: int, k: nat)
    ensures var p := Target(start, base, length, inc, k) + inc;
      Target(start, base, length, inc, k + 1) == if p == base + length then base else p
  {
  }

  // ---------- what a ring is for ----------

  /** Samples less than one round apart have places of their own. */
  lemma PlacesDiffer(start: nat, length: nat, i: nat, j: nat)
    requires length > 0 && i < j < i + length
    ensures Place(start, 1, length, i) != Place(start, 1, length, j)
  {
    var a, b := start + i, start + j;
    if a % length == b % length {
      var q, r := a / length, a % length;
      assert a == q * length + r && b == b / length * length + r;
      Multiple(b / length - q, length);
    }
  }

  /** The last round of samples is in the ring, each in its place. */
  lemma {:induction false} LastRound(buf: seq<q15>, length: nat, start: nat, xs: seq<q15>, j: nat)
    requires 0 < length <= |buf| && j < |xs| <= j + length
    ensures Written(buf, length, start, 1, xs)[Place(start, 1, length, j)] == xs[j]
    decreases |xs|
  {
    hide Place;
    var n := |xs| - 1;
    if j < n {
      LastRound(buf, length, start, xs[..n], j);
      PlacesDiffer(start, length, j, n);
    }
  }

  /** Whether sample `i` falls on cell `c`. */
  predicate FallsOn(start: nat, inc: nat, length: nat, i: nat, c: nat)
    requires length > 0
  {
    (start + i * inc) % length == c
  }

  /** Every cell, for any increment: it holds the last sample that fell on it, or is as it was. */
  lemma {:induction false} WrittenCell(buf: seq<q15>, length: nat, start: nat, inc: nat, xs: seq<q15>, c: nat)
      returns (i: nat)
    requires 0 < length <= |buf| && c < |buf|
    ensures i <= |xs| && Written(buf, length, start, inc, xs)[c] == if i < |xs| then xs[i] else buf[c]
    ensures i < |xs| ==> FallsOn(start, inc, length, i, c)
    ensures forall k: nat :: (if i < |xs| then i < k else true) && k < |xs| ==> !FallsOn(start, inc, length, k, c)
    decreases |xs|
  {
    hide Place, FallsOn;
    if xs == [] {
      i := 0;
    } else {
      var n := |xs| - 1;
      PlaceFalls(start, inc, length, n, c);
      if Place(start, inc, length, n) == c {
        i := n;
      } else {
        i := WrittenCell(buf, length, start, inc, xs[..n], c);
        i := if i < n then i else |xs|;
      }
    }
  }

  lemma PlaceFalls(start: nat, inc: nat, length: nat, i: nat, c: nat)
    requires length > 0
    ensures Place(start, inc, length, i) == c <==> FallsOn(start, inc, length, i, c)
  {
  }

  /** Nothing else is touched. */
  lemma OthersStay(buf: seq<q15>, length: nat, start: nat, inc: nat, xs: seq<q15>, c: nat)
    requires 0 < length <= |buf| && c < |buf|
    requires forall j: nat :: j < |xs| ==> !FallsOn(start, inc, length, j, c)
    ensures Written(buf, length, start, inc, xs)[c] == buf[c]
  {
    var i := WrittenCell(buf, length, start, inc, xs, c);
  }

  /** The source pointer moves by its own increment. */
  lemma {:induction false} StridedAt(src: seq<q15>, srcInc: int, n: nat, i: nat)
    requires (forall k: nat :: k < n ==> 0 <= At(srcInc, k) < |src|) && i < n
    ensures 0 <= i * srcInc < |src| && Strided(src, srcInc, n)[i] == src[i * srcInc]
  {
    if i < n - 1 {
      StridedAt(src, srcInc, n - 1, i);
    } else {
      assert 0 <= At(srcInc, i) < |src|;
    }
  }

  /** Every cell of the destination holds the last sample that was put there, or is as it was. */
  lemma {:induction false} DeliveredCell(dst: seq<q15>, start: int, base: int, length: int, inc: int, xs: seq<q15>,
    c: nat)
      returns (i: nat)
    requires (forall k: nat :: k < |xs| ==> 0 <= Target(start, base, length, inc, k) < |dst|) && c < |dst|
    ensures i <= |xs| && Delivered(dst, start, base, length, inc, xs)[c] == if i < |xs| then xs[i] else dst[c]
    ensures i < |xs| ==> Target(start, base, length, inc, i) == c
    ensures forall k: nat :: (if i < |xs| then i < k else true) && k < |xs| ==> Target(start, base, length, inc, k) != c
    decreases |xs|
  {
    hide Target;
    if xs == [] {
      i := 0;
    } else {
      var n := |xs| - 1;
      if Target(start, base, length, inc, n) == c {
        i := n;
      } else {
        i := DeliveredCell(dst, start, base, length, inc, xs[..n], c);
        i := if i < n then i else |xs|;
      }
    }
  }

  /** A destination of `d` steps, entered at step `e`, is gone round and round. */
  lemma {:induction false} TargetGoesRound(base: int, d: nat, e: nat, inc: nat, i: nat)
    requires inc > 0 && e < d
    ensures Target(base + e * inc, base, d * inc, inc, i) == base + (e + i) % d * inc
  {
    if i == 0 {
      Unique(e, 0, e, d);
    } else {
      TargetGoesRound(base, d, e, inc, i - 1);
      ModStep(e + (i - 1), 1, d);
      var k := (e + (i - 1)) % d;
      assert (k + 1) * inc == k * inc + inc;
      SameMultiple(k + 1, d, inc);
    }
  }

  lemma SameMultiple(a: nat, b: nat, inc: nat)
    requires inc > 0
    ensures a * inc == b * inc <==> a == b
  {
    Multiple(a - b, inc);
    assert (a - b) * inc == a * inc - b * inc;
  }

  /** What was written can be read back from the same place, as long as it fits. */
  lemma WriteThenRead(buf: seq<q15>, length: nat, start: nat, xs: seq<q15>)
    requires 0 < length <= |buf| && |xs| <= length
    ensures Fetched(Written(buf, length, start, 1, xs), length, start, 1, |xs|) == xs
  {
    var b := Written(buf, length, start, 1, xs);
    forall j: nat | j < |xs| ensures Fetched(b, length, start, 1, |xs|)[j] == xs[j] {
      FetchedAt(b, length, start, 1, |xs|, j);
      LastRound(buf, length, start, xs, j);
    }
  }

  lemma {:induction false} FetchedAt(buf: seq<q15>, length: nat, start: nat, inc: nat, n: nat, j: nat)
    requires 0 < length <= |buf| && j < n
    ensures Fetched(buf, length, start, inc, n)[j] == buf[Place(start, inc, length, j)]
    ensures Place(start, inc, length, j) == (start + j * inc) % length
  {
    hide Place;
    PlaceIs(start, inc, length, j);
    if j < n - 1 {
      FetchedAt(buf, length, start, inc, n - 1, j);
    }
  }

  /** The number of the last of `n` samples that fell on cell `c`. */
  function LastOn(start: nat, length: nat, n: nat, c: nat): (j: nat)
    requires 0 < length <= n
    ensures n - length <= j < n
  {
    n - length + (c - start - (n - length)) % length
  }

  /** Once a whole round has been written, the ring holds the last `length` samples and nothing else. */
  lemma RingHoldsLastRound(buf: seq<q15>, length: nat, start: nat, xs: seq<q15>, c: nat)
    requires 0 < length <= |buf| && length <= |xs| && c < length
    ensures Written(buf, length, start, 1, xs)[c] == xs[LastOn(start, length, |xs|, c)]
  {
    hide Written, LastOn;
    LastOnPlace(start, length, |xs|, c);
    LastRound(buf, length, start, xs, LastOn(start, length, |xs|, c));
  }

  lemma LastOnPlace(start: nat, length: nat, n: nat, c: nat)
    requires 0 < length <= n && c < length
    ensures Place(start, 1, length, LastOn(start, length, n, c)) == c
  {
    var d := c - start - (n - length);
    var q := d / length;
    assert d % length == d - q * length;
    Cell(start + LastOn(start, length, n, c), c, q, length);
  }

  lemma Cell(a: nat, c: nat, q: int, length: nat)
    requires length > 0 && c < length && a == c - q * length
    ensures a % length == c
  {
    Multiple(q, length);
    if q > 0 {
      assert false;
    }
    assert -q * length == -(q * length);
    Unique(a, -q, c, length);
  }
}
