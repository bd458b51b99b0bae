/** Tables of string pointers: where print_array and print_object keep the texts of the children. */
module CJsonTables {
  import opened Bytes
  import opened CJsonHeap

  ghost function StrsBlocks(es: seq<Str>): set<object> {
    set b, o | b in es && o in StrBlocks(b) :: o
  }

  function Pointer(b: Str): array?<byte> {
    match b
    case NoStr => null
    case Str(p, _) => p
  }

  /** The table points at these strings. */
  ghost predicate Points(table: array<array?<byte>>, es: seq<Str>)
    reads table
  {
    table.Length == |es| && forall i :: 0 <= i < |es| ==> table[i] == Pointer(es[i])
  }

  /** The strings hold their content. */
  ghost predicate Contents(es: seq<Str>)
    reads StrsBlocks(es)
  {
    forall b | b in es :: HoldsStr(Pointer(b), b)
  }

  /** No two entries share a block. */
  ghost predicate Distinct(es: seq<Str>) {
    forall i, j :: 0 <= i < j < |es| ==> StrBlocks(es[i]) !! StrBlocks(es[j])
  }

  ghost predicate Table(table: array<array?<byte>>, es: seq<Str>)
    reads table, StrsBlocks(es)
  {
    Points(table, es) && Contents(es) && Distinct(es)
  }

  /** What memset leaves in a new table. */
  ghost function Empty(n: nat): (es: seq<Str>)
    ensures |es| == n && StrsBlocks(es) == {} && Distinct(es) && Contents(es)
    ensures forall i :: 0 <= i < n ==> es[i] == NoStr
  {
    seq(n, _ => NoStr)
  }

  lemma NotText(es: seq<Str>, alloc: Allocator)
    ensures alloc !in StrsBlocks(es)
  {
  }

  lemma NotTable(es: seq<Str>, table: array<array?<byte>>)
    ensures table !in StrsBlocks(es)
  {
  }

  lemma StrsUpdate(es: seq<Str>, i: nat, b: Str)
    requires i < |es| && es[i] == NoStr && Distinct(es) && Contents(es)
    requires HoldsStr(Pointer(b), b) && StrBlocks(b) !! StrsBlocks(es)
    ensures var fs := es[i := b];
      Distinct(fs) && Contents(fs) && StrsBlocks(fs) == StrsBlocks(es) + StrBlocks(b)
  {
    hide HoldsStr;
    var fs := es[i := b];
    forall x | x in es ensures x in fs || x == NoStr {
      var k :| 0 <= k < |es| && es[k] == x;
      assert fs[k] == if k == i then b else x;
    }
    assert fs[i] == b;
    forall j, k | 0 <= j < k < |fs| ensures StrBlocks(fs[j]) !! StrBlocks(fs[k]) {
      assert es[j] in es && es[k] in es;
    }
  }

  /** `table[i] = p`. */
  method Store(table: array<array?<byte>>, i: nat, p: array?<byte>, ghost es: seq<Str>, ghost b: Str)
    requires Table(table, es) && i < |es| && es[i] == NoStr
    requires HoldsStr(p, b) && StrBlocks(b) !! StrsBlocks(es)
    modifies table
    ensures Table(table, es[i := b]) && StrsBlocks(es[i := b]) == StrsBlocks(es) + StrBlocks(b)
  {
    hide HoldsText, StrsBlocks, Distinct;
    StrsUpdate(es, i, b);
    NotTable(es[i := b], table);
    table[i] := p;
  }

  lemma StrsStep(es: seq<Str>, i: nat)
    requires Distinct(es) && i < |es|
    ensures StrsBlocks(es[..i + 1]) == StrsBlocks(es[..i]) + StrBlocks(es[i])
    ensures StrBlocks(es[i]) <= StrsBlocks(es) && StrBlocks(es[i]) !! StrsBlocks(es[..i])
    ensures StrsBlocks(es[..i + 1]) <= StrsBlocks(es)
  {
    assert es[..i + 1] == es[..i] + [es[i]];
  }

  /** The strings from place `i` on: the first of them, and the others. */
  lemma ContentsStep(es: seq<Str>, i: nat)
    requires Distinct(es) && i < |es| && Contents(es[i..])
    ensures HoldsStr(Pointer(es[i]), es[i]) && Contents(es[i + 1..])
    ensures StrsBlocks(es[i + 1..]) <= StrsBlocks(es) && StrsBlocks(es[i + 1..]) !! StrBlocks(es[i])
  {
    hide HoldsStr;
    assert es[i..][0] == es[i];
    assert es[i..][1..] == es[i + 1..];
  }

  lemma AllStrs(es: seq<Str>)
    ensures StrsBlocks(es[..0]) == {} && es[..|es|] == es && es[0..] == es
  {
  }

  /** Frees one entry, if it is there. */
  method FreeEntry(alloc: Allocator, p: array?<byte>, ghost b: Str)
    requires p == Pointer(b) && StrBlocks(b) <= alloc.live
    modifies alloc, StrBlocks(b)
    ensures alloc.live == old(alloc.live) - StrBlocks(b) && alloc.failures == old(alloc.failures)
  {
    if p != null {
      alloc.FreeBytes(p);
    }
  }

  /** The failure path of print_array: frees the entries that are there. */
  method FreeEntries(alloc: Allocator, table: array<array?<byte>>, ghost es: seq<Str>)
    requires Points(table, es) && Distinct(es) && StrsBlocks(es) <= alloc.live
    modifies alloc, StrsBlocks(es)
    ensures alloc.live == old(alloc.live) - StrsBlocks(es) && alloc.failures == old(alloc.failures)
  {
    hide StrsBlocks, Distinct;
    NotText(es, alloc);
    NotTable(es, table);
    AllStrs(es);
    for i := 0 to table.Length
      invariant Points(table, es)
      invariant alloc.live == old(alloc.live) - StrsBlocks(es[..i]) && alloc.failures == old(alloc.failures)
    {
      StrsStep(es, i);
      FreeEntry(alloc, table[i], es[i]);
    }
  }

  /** The failure path of print_object: frees the names and the entries that are there. */
  method FreePairs(alloc: Allocator, names: array<array?<byte>>, entries: array<array?<byte>>, ghost ns: seq<Str>,
    ghost es: seq<Str>)
    requires Points(names, ns) && Distinct(ns) && Points(entries, es) && Distinct(es) && names.Length == entries.Length
    requires StrsBlocks(ns) !! StrsBlocks(es) && StrsBlocks(ns) + StrsBlocks(es) <= alloc.live
    modifies alloc, StrsBlocks(ns), StrsBlocks(es)
    ensures alloc.live == old(alloc.live) - StrsBlocks(ns) - StrsBlocks(es) && alloc.failures == old(alloc.failures)
  {
    hide StrsBlocks, Distinct;
    NotText(es, alloc);
    NotText(ns, alloc);
    NotTable(es, entries);
    NotTable(es, names);
    NotTable(ns, entries);
    NotTable(ns, names);
    AllStrs(ns);
    AllStrs(es);
    for i := 0 to names.Length
      invariant Points(names, ns) && Points(entries, es)
      invariant alloc.live == old(alloc.live) - StrsBlocks(ns[..i]) - StrsBlocks(es[..i])
      invariant alloc.failures == old(alloc.failures)
    {
      StrsStep(ns, i);
      StrsStep(es, i);
      FreeEntry(alloc, names[i], ns[i]);
      FreeEntry(alloc, entries[i], es[i]);
    }
  }
}
