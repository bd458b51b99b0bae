/** The C library's string calls, on blocks. */
module CStrings {
  import opened Bytes
  import opened CJsonHeap

  /** strlen: the distance to the terminator. */
  method StrLen(p: array<byte>, ghost s: seq<byte>) returns (n: nat)
    requires HoldsText(p, s)
    ensures n == |s|
  {
    n := 0;
    while p[n] != 0
      invariant n <= |s|
      decreases |s| - n
    {
      n := n + 1;
    }
  }

  /** strcpy to position `at`: the string and its terminator, and nothing else. */
  method StrCpy(dst: array<byte>, at: nat, src: array<byte>, ghost s: seq<byte>) returns (n: nat)
    requires HoldsText(src, s) && dst != src
    requires at + |s| < dst.Length
    modifies dst
    ensures n == |s|
    ensures dst[..at] == old(dst[..at]) && dst[at..at + n] == s && dst[at + n] == 0
    ensures dst[at + n + 1..] == old(dst[at + n + 1..])
  {
    n := 0;
    while src[n] != 0
      invariant n <= |s|
      invariant dst[..at] == old(dst[..at]) && dst[at..at + n] == s[..n]
      invariant dst[at + n..] == old(dst[at + n..])
      decreases |s| - n
    {
      dst[at + n] := src[n];
      n := n + 1;
    }
    dst[at + n] := 0;
  }

  /** cJSON_strdup. */
  method StrDup(alloc: Allocator, src: array<byte>, ghost s: seq<byte>) returns (p: array?<byte>)
    requires HoldsText(src, s)
    modifies alloc
    ensures p == null ==> alloc.live == old(alloc.live) && alloc.failures == old(alloc.failures) + 1
    ensures p != null ==> fresh(p) && HoldsText(p, s)
    ensures p != null ==> alloc.live == old(alloc.live) + {p} && alloc.failures == old(alloc.failures)
  {
    var len := StrLen(src, s);
    p := alloc.NewBytes(len + 1);
    if p != null {
      var n := StrCpy(p, 0, src, s);
      assert forall i :: 0 <= i < |s| ==> p[i] == p[0..n][i];
    }
  }

  /** cJSON_strdup of a string that may be missing. */
  method StrDupIfAny(alloc: Allocator, src: array?<byte>, ghost b: Str)
    returns (ok: bool, p: array?<byte>, ghost c: Str)
    requires HoldsStr(src, b)
    modifies alloc
    ensures HoldsStr(p, c) && fresh(StrBlocks(c)) && alloc.live == old(alloc.live) + StrBlocks(c)
    ensures ok ==> Content(c) == Content(b) && alloc.failures == old(alloc.failures)
    ensures !ok ==> c == NoStr && alloc.failures == old(alloc.failures) + 1
  {
    ok, p, c := true, null, NoStr;
    if src != null {
      p := StrDup(alloc, src, b.content);
      ok := p != null;
      c := if p == null then NoStr else Str(p, b.content);
    }
  }

  /** `*ptr++ = b`. */
  method PutByte(dst: array<byte>, at: nat, b: byte) returns (at': nat)
    requires at < dst.Length
    modifies dst
    ensures at' == at + 1 && dst[..at'] == old(dst[..at]) + [b]
  {
    dst[at] := b;
    at' := at + 1;
  }

  /** A row of tabs. */
  method PutTabs(dst: array<byte>, at: nat, n: int) returns (at': nat)
    requires at + |Repeat(TAB, n)| <= dst.Length
    modifies dst
    ensures at' == at + |Repeat(TAB, n)| && dst[..at'] == old(dst[..at]) + Repeat(TAB, n)
  {
    var i: int := 0;
    while i < n
      invariant 0 <= i && (i <= n || i == 0)
      invariant dst[..at + i] == old(dst[..at]) + Repeat(TAB, i)
    {
      dst[at + i] := TAB;
      i := i + 1;
      assert dst[..at + i] == old(dst[..at]) + (Repeat(TAB, i - 1) + [TAB]);
    }
    at' := at + i;
  }

  /** strcpy to `at` and a step to the new end. */
  method Append(dst: array<byte>, at: nat, src: array<byte>, ghost s: seq<byte>) returns (at': nat)
    requires HoldsText(src, s) && dst != src && at + |s| < dst.Length
    modifies dst
    ensures at' == at + |s| && dst[..at'] == old(dst[..at]) + s && dst[at'] == 0
  {
    var n := StrCpy(dst, at, src, s);
    at' := at + n;
    assert dst[..at'] == dst[..at] + dst[at..at'];
  }

  /** strcpy or sprintf of a known text to the start of a block. */
  method Put(dst: array<byte>, s: seq<byte>)
    requires |s| < dst.Length && NulFree(s)
    modifies dst
    ensures HoldsText(dst, s)
  {
    for i := 0 to |s|
      invariant forall j :: 0 <= j < i ==> dst[j] == s[j]
    {
      dst[i] := s[i];
    }
    dst[|s|] := 0;
  }

  /** The terminator turns what was written into a string. */
  method Terminate(dst: array<byte>, at: nat, ghost s: seq<byte>)
    requires at < dst.Length && dst[..at] == s && NulFree(s)
    modifies dst
    ensures HoldsText(dst, s)
  {
    assert |s| == at;
    assert forall i :: 0 <= i < at ==> dst[i] == dst[..at][i];
    dst[at] := 0;
  }

  /** A new block with a known text, as cJSON_strdup makes of a literal. */
  method NewText(alloc: Allocator, size: nat, s: seq<byte>) returns (p: array?<byte>)
    requires |s| < size && NulFree(s)
    modifies alloc
    ensures p == null ==> alloc.live == old(alloc.live) && alloc.failures == old(alloc.failures) + 1
    ensures p != null ==> fresh(p) && p.Length == size && HoldsText(p, s)
    ensures p != null ==> alloc.live == old(alloc.live) + {p} && alloc.failures == old(alloc.failures)
  {
    p := alloc.NewBytes(size);
    if p != null {
      Put(p, s);
    }
  }
}
