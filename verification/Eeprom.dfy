/** The EEPROM driver: byte by byte over the bus, page by page over the memory. */
module Eeprom {
  import opened Bytes
  import opened EepromSpec

  const EEPROM_ADDRESS: byte := 0xA0

  type uint16 = n: int | 0 <= n < 0x1_0000

  /** What the device makes of the next byte it is sent. */
  datatype Phase = Idle | Started | Addressed | Writing | Reading

  /** The AT24C02 behind its bus.  `answers` says which starts and bytes it reacts to. */
  class Device {
    const answers: Answers
    var mem: seq<byte>
    var clock: nat
    var acked: bool
    var phase: Phase
    var pointer: nat
    ghost var pieces: seq<Piece>  // the page transactions so far

    constructor (answers: Answers, mem: seq<byte>)
      requires IsMemory(mem)
      ensures Valid() && this.answers == answers && this.mem == mem && clock == 0 && pieces == []
    {
      this.answers, this.mem, clock, acked, phase, pointer, pieces := answers, mem, 0, false, Idle, 0, [];
    }

    predicate Valid()
      reads this
    {
      IsMemory(mem) && pointer < SIZE
    }

    method Start() returns (ok: bool)
      requires Valid()
      modifies this`clock, this`phase
      ensures Valid() && ok == answers(old(clock)) && clock == old(clock) + 1 && (ok ==> phase == Started)
    {
      ok := answers(clock);
      clock := clock + 1;
      phase := if ok then Started else Idle;
    }

    /** Sends a byte.  A device that does not take it does not answer it. */
    method SendByte(b: byte)
      requires Valid()
      modifies this`mem, this`clock, this`acked, this`phase, this`pointer
      ensures Valid() && acked == answers(old(clock)) && clock == old(clock) + 1
      ensures phase == if !acked then old(phase) else AfterByte(old(phase), b)
      ensures pointer == if !acked then old(pointer) else PointerAfter(old(phase), old(pointer), b)
      ensures mem == if acked && old(phase) == Writing then old(mem)[old(pointer) := b] else old(mem)
    {
      acked := answers(clock);
      clock := clock + 1;
      if acked {
        PointerSteps(pointer, 0);
        if phase == Writing {
          mem := mem[pointer := b];
        }
        pointer := PointerAfter(phase, pointer, b);
        phase := AfterByte(phase, b);
      }
    }

    method WaitAck() returns (ok: bool)
      ensures ok == acked
    {
      ok := acked;
    }

    method ReadByte() returns (b: byte)
      requires Valid() && phase == Reading
      modifies this`pointer
      ensures Valid() && b == mem[old(pointer)] && pointer == (old(pointer) + 1) % SIZE
    {
      b := mem[pointer];
      pointer := (pointer + 1) % SIZE;
    }

    method Stop()
      modifies this`phase
    {
      phase := Idle;
    }
  }

  function AfterByte(phase: Phase, b: byte): Phase {
    match phase
    case Started => if b == 0xA0 then Addressed else if b == 0xA1 then Reading else Idle
    case Addressed => Writing
    case _ => phase
  }

  function PointerAfter(phase: Phase, pointer: nat, b: byte): (p: nat)
    requires pointer < SIZE
    ensures p < SIZE
  {
    PointerSteps(pointer, 0);
    match phase
    case Addressed => b
    case Writing => NextInPage(pointer)
    case _ => pointer
  }

  /** EEPROM_Write_Page. */
  method WritePage(d: Device, page: byte, offset: byte, data: seq<byte>) returns (ok: bool)
    requires d.Valid() && 1 <= |data| <= 255
    modifies d
    ensures d.Valid() && d.pieces == old(d.pieces) + [Piece(page, offset, |data|)]
    ensures var r := EepromSpec.WritePage(d.answers, old(d.clock), old(d.mem), (page * PAGE_SIZE + offset) % 256, data);
      ok == r.ok && d.mem == r.mem && d.clock == r.clock
  {
    hide Store, Pointer, NextInPage, Heard;
    d.pieces := d.pieces + [Piece(page, offset, |data|)];
    ghost var c := d.clock;
    var address: byte := (page * PAGE_SIZE + offset) % 256;
    var r := Open(d, address, c);
    if !r {
      return false;
    }
    StoreNothing(d.mem, address, data);
    ghost var mem := d.mem;
    r := SendAwaited(d, data, address, mem);
    if !r {
      return false;
    }
    SendData(d, data, |data| - 1, address, mem);
    assert data[..|data|] == data;
    d.Stop();
    return true;
  }

  /** All bytes but the last, each of which must be answered. */
  method SendAwaited(d: Device, data: seq<byte>, ghost address: nat, ghost mem: seq<byte>) returns (ok: bool)
    requires d.Valid() && d.phase == Writing && address < SIZE && data != [] && |data| <= 255
    requires d.pointer == address && d.mem == mem
    modifies d`clock, d`mem, d`acked, d`phase, d`pointer
    ensures var k := Heard(d.answers, old(d.clock), |data| - 1);
      && (ok <==> k == |data| - 1) && d.clock == old(d.clock) + (if ok then k else k + 1)
      && d.Valid() && d.mem == Store(mem, address, data[..k])
      && (ok ==> d.phase == Writing && d.pointer == Pointer(address, k))
  {
    hide Store, Pointer;
    StoreNothing(mem, address, data);
    ghost var c := d.clock;
    for i := 0 to |data| - 1
      invariant d.Valid() && d.phase == Writing && d.pointer == Pointer(address, i)
      invariant d.clock == c + i && d.mem == Store(mem, address, data[..i])
      invariant forall m :: c <= m < c + i ==> d.answers(m)
    {
      SendData(d, data, i, address, mem);
      var a := d.WaitAck();
      if !a {
        d.Stop();
        HeardAll(d.answers, c, i, |data| - 1);
        return false;
      }
    }
    HeardAll(d.answers, c, |data| - 1, |data| - 1);
    return true;
  }

  lemma StoreNothing(mem: seq<byte>, address: nat, data: seq<byte>)
    requires IsMemory(mem) && address < SIZE
    ensures Store(mem, address, data[..0]) == mem && Pointer(address, 0) == address
  {
    PointerSteps(address, 0);
  }

  /** One byte of data.  The device stores it, if it takes it, where its counter stands. */
  method SendData(d: Device, data: seq<byte>, i: nat, ghost address: nat, ghost mem: seq<byte>)
    requires d.Valid() && d.phase == Writing && address < SIZE && i < |data| && IsMemory(mem)
    requires d.pointer == Pointer(address, i) && d.mem == Store(mem, address, data[..i])
    modifies d`clock, d`mem, d`acked, d`phase, d`pointer
    ensures d.Valid() && d.phase == Writing && d.acked == d.answers(old(d.clock)) && d.clock == old(d.clock) + 1
    ensures d.pointer == Pointer(address, if d.acked then i + 1 else i)
    ensures d.mem == Store(mem, address, if d.acked then data[..i + 1] else data[..i])
  {
    hide Store, Pointer;
    d.SendByte(data[i]);
    StoreAppend(mem, address, data[..i], data[i]);
    PointerSteps(address, i);
    assert data[..i + 1] == data[..i] + [data[i]];
  }

  lemma {:induction false} HeardAll(answers: Answers, c: nat, k: nat, n: nat)
    requires k <= n && (forall m :: c <= m < c + k ==> answers(m)) && (k == n || !answers(c + k))
    ensures Heard(answers, c, n) == k
  {
  }

  /** Start, device address and byte address: what every transaction begins with. */
  method Open(d: Device, address: byte, ghost c: nat) returns (ok: bool)
    requires d.Valid() && d.clock == c
    modifies d`clock, d`mem, d`acked, d`phase, d`pointer
    ensures d.Valid() && d.mem == old(d.mem)
    ensures ok <==> Heard(d.answers, c, 3) == 3
    ensures ok ==> d.clock == c + 3 && d.phase == Writing && d.pointer == address
    ensures !ok ==> d.clock == c + Heard(d.answers, c, 3) + 1
  {
    var s := d.Start();
    if !s {
      HeardAll(d.answers, c, 0, 3);
      return false;
    }
    d.SendByte(EEPROM_ADDRESS);
    var a := d.WaitAck();
    if !a {
      d.Stop();
      HeardAll(d.answers, c, 1, 3);
      return false;
    }
    d.SendByte(address);
    a := d.WaitAck();
    if !a {
      d.Stop();
      HeardAll(d.answers, c, 2, 3);
      return false;
    }
    HeardAll(d.answers, c, 3, 3);
    return true;
  }

  // ---------- writing a range ----------

  /** What a write amounts to when `at` bytes are done and `rest` describes the others. */
  function Then(at: nat, rest: Outcome): Outcome {
    Outcome(rest.ok, rest.mem, rest.clock, at + rest.done)
  }

  /** A split write that has come `at` bytes far: what is left to do leads to `whole` and `all`. */
  ghost predicate Going(d: Device, a: nat, data: seq<byte>, at: nat, whole: Outcome, all: seq<Piece>)
    reads d
  {
    && d.Valid() && at <= |data| && a + |data| < SIZE
    && whole == Then(at, WriteFrom(d.answers, d.clock, d.mem, a + at, data[at..]))
    && all == d.pieces + Split(a + at, |data| - at)
  }

  ghost predicate Failed(d: Device, whole: Outcome, all: seq<Piece>)
    reads d
  {
    d.Valid() && d.pieces <= all && !whole.ok && d.mem == whole.mem && d.clock == whole.clock
  }

  ghost predicate Succeeded(d: Device, whole: Outcome, all: seq<Piece>)
    reads d
  {
    d.Valid() && d.pieces == all && whole.ok && d.mem == whole.mem && d.clock == whole.clock
  }

  lemma StartsOff(d: Device, a: nat, data: seq<byte>)
    requires d.Valid() && a + |data| < SIZE
    ensures Going(d, a, data, 0, WriteFrom(d.answers, d.clock, d.mem, a, data), d.pieces + Split(a, |data|))
  {
    assert data[0..] == data;
  }

  lemma Ends(d: Device, a: nat, data: seq<byte>, whole: Outcome, all: seq<Piece>)
    requires Going(d, a, data, |data|, whole, all)
    ensures Succeeded(d, whole, all)
  {
  }

  /** The reference forms, one transaction on. */
  lemma Chunk(answers: Answers, clock: nat, mem: seq<byte>, p: nat, page: nat, offset: nat, data: seq<byte>, at: nat,
    n: nat)
    requires IsMemory(mem) && offset < PAGE_SIZE && page * PAGE_SIZE + offset == p
    requires at < |data| && n == Smaller(Room(p), |data| - at) && p + |data| - at <= SIZE
    ensures Split(p, |data| - at) == [Piece(page, offset, n)] + Split(p + n, |data| - at - n)
    ensures var r := EepromSpec.WritePage(answers, clock, mem, p, data[at..at + n]);
      WriteFrom(answers, clock, mem, p, data[at..])
      == if r.ok then Then(n, WriteFrom(answers, r.clock, r.mem, p + n, data[at + n..])) else r
  {
    hide EepromSpec.WritePage, Room;
    PieceAt(p, page, offset);
    assert data[at..][..n] == data[at..at + n] && data[at..][n..] == data[at + n..];
  }

  lemma PieceAt(p: nat, page: nat, offset: nat)
    requires offset < PAGE_SIZE && page * PAGE_SIZE + offset == p
    ensures p / PAGE_SIZE == page && p % PAGE_SIZE == offset && Room(p) == PAGE_SIZE - offset
  {
  }

  /** One more page transaction of a split write. */
  method WriteChunk(d: Device, page: byte, offset: byte, data: seq<byte>, at: nat, n: nat,
                    ghost a: nat, ghost whole: Outcome, ghost all: seq<Piece>)
    returns (ok: bool)
    requires Going(d, a, data, at, whole, all) && at < |data|
    requires offset < PAGE_SIZE && page * PAGE_SIZE + offset == a + at && n == Smaller(PAGE_SIZE - offset, |data| - at)
    modifies d
    ensures if ok then Going(d, a, data, at + n, whole, all) else Failed(d, whole, all)
  {
    hide EepromSpec.WritePage, Room, WriteFrom, Split;
    PieceAt(a + at, page, offset);
    Chunk(d.answers, d.clock, d.mem, a + at, page, offset, data, at, n);
    ghost var r := EepromSpec.WritePage(d.answers, d.clock, d.mem, a + at, data[at..at + n]);
    ok := WritePage(d, page, offset, data[at..at + n]);
  }

  /** EEPROM_Write: does to the memory exactly what the reference write does, in the same transactions. */
  method Write(d: Device, address: uint16, data: seq<byte>) returns (result: bool)
    requires d.Valid() && 1 <= |data| < 0x1_0000
    modifies d
    ensures d.Valid()
    ensures var r := EepromSpec.Write(d.answers, old(d.clock), old(d.mem), address, data);
      result == r.ok && d.mem == r.mem && d.clock == r.clock
    ensures address + |data| >= 256 ==> !result && d.pieces == old(d.pieces) && d.clock == old(d.clock)
    ensures result <==>
      address + |data| < 256 && forall j: nat :: j < |data| ==> Heeded(d.answers, old(d.clock), address, |data|, j)
    ensures address + |data| < 256
            && Answered(d.answers, old(d.clock), old(d.clock) + 3 * PagesTouched(address, |data|) + |data|) ==>
      result && d.mem == Overlay(old(d.mem), address, data)
    ensures d.pieces <= old(d.pieces) + Split(address, |data|)
    ensures result ==> d.pieces == old(d.pieces) + Split(address, |data|)
  {
    hide Going, WriteFrom, Split, Heeded, Answered, PagesTouched, Overlay;
    WriteAccepted(d.answers, d.clock, d.mem, address, data);
    var len := |data|;
    var page: byte := address / PAGE_SIZE % 256;
    var offset: byte := address % PAGE_SIZE;
    var length: byte := PAGE_SIZE - offset;
    if address + len >= SIZE {
      return false;
    }
    ghost var a: nat := address;
    ghost var whole := WriteFrom(d.answers, d.clock, d.mem, a, data);
    ghost var all := d.pieces + Split(a, len);
    StartsOff(d, a, data);
    if length >= len {
      result := WriteChunk(d, page, offset, data, 0, len, a, whole, all);
      if result {
        Ends(d, a, data, whole, all);
      }
      return;
    }
    result := WriteChunk(d, page, offset, data, 0, length, a, whole, all);
    if !result {
      return false;
    }
    result := WriteOn(d, page + 1, data, length, a, whole, all);
  }

  /** The part of EEPROM_Write behind the first page: whole pages, then what is left. */
  method WriteOn(d: Device, first: byte, data: seq<byte>, length: byte,
                 ghost a: nat, ghost whole: Outcome, ghost all: seq<Piece>)
    returns (result: bool)
    requires Going(d, a, data, length, whole, all) && length < |data| && a + |data| < SIZE
    requires first * PAGE_SIZE == a + length
    modifies d
    ensures if result then Succeeded(d, whole, all) else Failed(d, whole, all)
  {
    hide Going, Succeeded, Failed;
    var len := |data|;
    var page, at: nat := first, length;
    var pageCount: byte := ((len - length) / PAGE_SIZE + page) % 256;
    while page < pageCount
      invariant Going(d, a, data, at, whole, all)
      invariant page <= pageCount && page * PAGE_SIZE == a + at
      invariant len - at == (len - length) % PAGE_SIZE + PAGE_SIZE * (pageCount - page)
    {
      result := WriteChunk(d, page, 0, data, at, PAGE_SIZE, a, whole, all);
      if !result {
        return false;
      }
      page, at := page + 1, at + PAGE_SIZE;
    }
    var endLen: byte := (len - length) - (len - length) / PAGE_SIZE * PAGE_SIZE;
    if endLen > 0 {
      result := WriteChunk(d, page, 0, data, at, endLen, a, whole, all);
      if !result {
        return false;
      }
    }
    Ends(d, a, data, whole, all);
    return true;
  }

  // ---------- reading a range ----------

  /** EEPROM_Read_Page, into the buffer from `at` on. */
  method ReadPage(d: Device, page: byte, offset: byte, data: array<byte>, at: nat, len: byte) returns (ok: bool)
    requires d.Valid() && 1 <= len && at + len <= data.Length
    modifies d, data
    ensures d.Valid() && d.mem == old(d.mem) && d.pieces == old(d.pieces) + [Piece(page, offset, len)]
    ensures (ok, d.clock) == EepromSpec.ReadPage(d.answers, old(d.clock))
    ensures !ok ==> data[..] == old(data[..])
    ensures ok ==> data[..] == Overlay(old(data[..]), at, Sequential(d.mem, (page * PAGE_SIZE + offset) % 256, len))
  {
    hide Heard, Sequential, Overlay;
    d.pieces := d.pieces + [Piece(page, offset, len)];
    ghost var c := d.clock;
    var address: byte := (page * PAGE_SIZE + offset) % 256;
    var r := Open(d, address, c);
    if r {
      r := Reopen(d, c);
    }
    HeardMore(d.answers, c);
    if !r {
      return false;
    }
    Fetch(d, data, at, len, address);
    d.Stop();
    return true;
  }

  /** The bytes of an open read. */
  method Fetch(d: Device, data: array<byte>, at: nat, len: byte, ghost address: byte)
    requires d.Valid() && d.phase == Reading && d.pointer == address && 1 <= len && at + len <= data.Length
    modifies d`pointer, data
    ensures d.Valid() && data[..] == Overlay(old(data[..]), at, Sequential(d.mem, address, len))
  {
    hide Overlay, Sequential;
    OverlayNothing(data[..], at);
    NoneRead(d.mem, address);
    for i := 0 to len - 1
      invariant d.Valid() && d.pointer == (address + i) % SIZE
      invariant data[..] == Overlay(old(data[..]), at, Sequential(d.mem, address, i))
    {
      FetchOne(d, data, at, i, address, old(data[..]));
    }
    FetchOne(d, data, at, len - 1, address, old(data[..]));
  }

  lemma NoneRead(mem: seq<byte>, p: nat)
    requires IsMemory(mem)
    ensures Sequential(mem, p, 0) == []
  {
  }

  lemma SequentialNext(mem: seq<byte>, p: nat, n: nat)
    requires IsMemory(mem)
    ensures Sequential(mem, p, n + 1) == Sequential(mem, p, n) + [mem[(p + n) % SIZE]]
  {
  }

  lemma CounterNext(k: nat)
    ensures (k % SIZE + 1) % SIZE == (k + 1) % SIZE
  {
  }

  method FetchOne(d: Device, data: array<byte>, at: nat, i: nat, ghost address: byte, ghost was: seq<byte>)
    requires d.Valid() && d.phase == Reading && d.pointer == (address + i) % SIZE && at + i < data.Length == |was|
    requires data[..] == Overlay(was, at, Sequential(d.mem, address, i))
    modifies d`pointer, data
    ensures d.Valid() && d.pointer == (address + i + 1) % SIZE
    ensures data[..] == Overlay(was, at, Sequential(d.mem, address, i + 1))
  {
    hide Overlay, Sequential;
    OverlayAppend(was, at, Sequential(d.mem, address, i), d.mem[d.pointer]);
    SequentialNext(d.mem, address, i);
    CounterNext(address + i);
    data[at + i] := d.ReadByte();
  }

  /** The second start, and the device address with the read bit. */
  method Reopen(d: Device, ghost c: nat) returns (ok: bool)
    requires d.Valid() && d.clock == c + 3
    modifies d`clock, d`mem, d`acked, d`phase, d`pointer
    ensures d.Valid() && d.mem == old(d.mem)
    ensures ok <==> Heard(d.answers, c + 3, 2) == 2
    ensures ok ==> d.clock == c + 5 && d.phase == Reading && d.pointer == old(d.pointer)
    ensures !ok ==> d.clock == c + 3 + Heard(d.answers, c + 3, 2) + 1
  {
    var s := d.Start();
    if !s {
      HeardAll(d.answers, c + 3, 0, 2);
      return false;
    }
    d.SendByte(EEPROM_ADDRESS + 1);
    var a := d.WaitAck();
    if !a {
      d.Stop();
      HeardAll(d.answers, c + 3, 1, 2);
      return false;
    }
    HeardAll(d.answers, c + 3, 2, 2);
    return true;
  }

  lemma HeardMore(answers: Answers, c: nat)
    ensures Heard(answers, c, 5)
         == if Heard(answers, c, 3) < 3 then Heard(answers, c, 3) else 3 + Heard(answers, c + 3, 2)
  {
    var k := Heard(answers, c, 3);
    HeardAll(answers, c, if k < 3 then k else 3 + Heard(answers, c + 3, 2), 5);
  }

  /** A split read that has come `at` bytes far, into a buffer that held `was`. */
  ghost predicate Reads(d: Device, a: nat, len: nat, data: array<byte>, at: nat, was: seq<byte>, mem: seq<byte>,
    whole: EepromSpec.Fetch)
    reads d, data
  {
    && d.Valid() && d.mem == mem && at <= len <= data.Length && a + len < SIZE && |was| == data.Length
    && data[..] == Overlay(was, 0, mem[a..a + at])
    && (var rest := ReadFrom(d.answers, d.clock, a + at, len - at);
        whole == EepromSpec.Fetch.Fetch(rest.ok, rest.clock, at + rest.got))
  }

  /** A read that is over. */
  ghost predicate Delivered(d: Device, a: nat, data: array<byte>, was: seq<byte>, mem: seq<byte>,
    whole: EepromSpec.Fetch, result: bool)
    reads d, data
  {
    && d.Valid() && d.mem == mem && result == whole.ok && d.clock == whole.clock
    && whole.got <= data.Length == |was| && a + whole.got <= SIZE
    && data[..] == Overlay(was, 0, mem[a..a + whole.got])
  }

  lemma DeliveredRange(d: Device, a: nat, len: nat, data: array<byte>, was: seq<byte>, mem: seq<byte>,
                       whole: EepromSpec.Fetch, result: bool)
    requires Delivered(d, a, data, was, mem, whole, result) && (whole.ok ==> whole.got == len)
    ensures result == whole.ok && (result ==> data[..] == mem[a..a + len] + was[len..])
  {
  }

  lemma ReadEnds(d: Device, a: nat, len: nat, data: array<byte>, was: seq<byte>, mem: seq<byte>,
    whole: EepromSpec.Fetch)
    requires Reads(d, a, len, data, len, was, mem, whole)
    ensures Delivered(d, a, data, was, mem, whole, true)
  {
  }

  lemma ReadStep(answers: Answers, clock: nat, p: nat, n: nat, k: nat)
    requires n > 0 && k == Smaller(Room(p), n)
    ensures var r := EepromSpec.ReadPage(answers, clock);
      ReadFrom(answers, clock, p, n)
      == if !r.0 then EepromSpec.Fetch.Fetch(false, r.1, 0)
         else var s := ReadFrom(answers, r.1, p + k, n - k); EepromSpec.Fetch.Fetch(s.ok, s.clock, k + s.got)
  {
    hide EepromSpec.ReadPage, Room;
  }

  /** One more page transaction of a split read. */
  method ReadChunk(d: Device, page: byte, offset: byte, data: array<byte>, at: nat, n: nat,
                   ghost a: nat, ghost len: nat, ghost was: seq<byte>, ghost mem: seq<byte>,
                   ghost whole: EepromSpec.Fetch)
    returns (ok: bool)
    requires Reads(d, a, len, data, at, was, mem, whole) && at < len
    requires offset < PAGE_SIZE && page * PAGE_SIZE + offset == a + at && n == Smaller(PAGE_SIZE - offset, len - at)
    modifies d, data
    ensures if ok then Reads(d, a, len, data, at + n, was, mem, whole)
      else Delivered(d, a, data, was, mem, whole, false)
  {
    hide EepromSpec.ReadPage, Room, ReadFrom, Sequential, Overlay;
    PieceAt(a + at, page, offset);
    SequentialIsSlice(d.mem, a + at, n);
    ReadStep(d.answers, d.clock, a + at, len - at, n);
    OverlayTwice(was, 0, mem[a..a + at], mem[a + at..a + at + n]);
    assert mem[a..a + at] + mem[a + at..a + at + n] == mem[a..a + at + n];
    ok := ReadPage(d, page, offset, data, at, n);
  }

  /** EEPROM_Read: delivers the range, or what came before a transaction that failed, and touches nothing else. */
  method Read(d: Device, address: uint16, data: array<byte>, len: uint16) returns (result: bool)
    requires d.Valid() && 1 <= len <= data.Length
    modifies d, data
    ensures result <==>
      address + len < 256
      && Answered(d.answers, old(d.clock), old(d.clock) + 5 * PagesTouched(address, len))
    ensures result ==> data[..] == old(d.mem)[address..address + len] + old(data[..])[len..]
    ensures address + len >= SIZE ==> !result && data[..] == old(data[..]) && d.pieces == old(d.pieces)
    ensures address + len >= SIZE ==> d.Valid() && d.mem == old(d.mem) && d.clock == old(d.clock)
    ensures address + len < SIZE ==>
      Delivered(d, address, data, old(data[..]), old(d.mem), ReadFrom(d.answers, old(d.clock), address, len), result)
  {
    hide ReadFrom, Delivered, Overlay, Answered, PagesTouched;
    ReadAccepted(d.answers, d.clock, address, len);
    var page: byte := address / PAGE_SIZE % 256;
    var offset: byte := address % PAGE_SIZE;
    var length: byte := PAGE_SIZE - offset;
    if address + len >= SIZE {
      return false;
    }
    ghost var whole := ReadFrom(d.answers, d.clock, address, len);
    ghost var was, mem := data[..], d.mem;
    OverlayNothing(was, 0);
    assert mem[address..address] == [];
    if length >= len {
      result := ReadChunk(d, page, offset, data, 0, len, address, len, was, mem, whole);
      if result {
        ReadEnds(d, address, len, data, was, mem, whole);
      }
    } else {
      result := ReadChunk(d, page, offset, data, 0, length, address, len, was, mem, whole);
      if result {
        result := ReadOn(d, page + 1, data, length, len, address, was, mem, whole);
      }
    }
    DeliveredRange(d, address, len, data, was, mem, whole, result);
  }

  /** The part of EEPROM_Read behind the first page. */
  method ReadOn(d: Device, first: byte, data: array<byte>, length: byte, len: uint16,
                ghost a: nat, ghost was: seq<byte>, ghost mem: seq<byte>, ghost whole: EepromSpec.Fetch)
    returns (result: bool)
    requires Reads(d, a, len, data, length, was, mem, whole) && length < len && a + len < SIZE
    requires first * PAGE_SIZE == a + length
    modifies d, data
    ensures Delivered(d, a, data, was, mem, whole, result)
  {
    hide Reads, Delivered;
    var page, at: nat := first, length;
    var pageCount: byte := ((len - length) / PAGE_SIZE + page) % 256;
    while page < pageCount
      invariant Reads(d, a, len, data, at, was, mem, whole)
      invariant page <= pageCount && page * PAGE_SIZE == a + at
      invariant len - at == (len - length) % PAGE_SIZE + PAGE_SIZE * (pageCount - page)
    {
      result := ReadChunk(d, page, 0, data, at, PAGE_SIZE, a, len, was, mem, whole);
      if !result {
        return false;
      }
      page, at := page + 1, at + PAGE_SIZE;
    }
    var endLen: byte := (len - length) - (len - length) / PAGE_SIZE * PAGE_SIZE;
    if endLen > 0 {
      result := ReadChunk(d, page, 0, data, at, endLen, a, len, was, mem, whole);
      if !result {
        return false;
      }
    }
    ReadEnds(d, a, len, data, was, mem, whole);
    return true;
  }

  // ---------- runs ----------

  /** The arguments are what the parameters of the two functions can hold, and a read fits its buffer. */
  predicate Callable(op: Op, size: nat) {
    match op
    case WriteOp(a, data) => a < 0x1_0000 && 1 <= |data| < 0x1_0000
    case ReadOp(a, n) => a < 0x1_0000 && 1 <= n < 0x1_0000 && n <= size
  }

  /** Any calls of EEPROM_Write and EEPROM_Read, one after another. */
  method CallAll(d: Device, ops: seq<Op>, data: array<byte>)
    requires d.Valid() && forall op | op in ops :: Callable(op, data.Length)
    modifies d, data
    ensures var r := RunOps(d.answers, old(d.clock), old(d.mem), ops);
      d.Valid() && d.mem == r.mem && d.clock == r.clock
  {
    hide EepromSpec.Write, ReadFrom, Overlay, Split;
    NoOps(d.answers, d.clock, d.mem, ops);
    for i := 0 to |ops|
      invariant d.Valid()
      invariant var r := RunOps(d.answers, old(d.clock), old(d.mem), ops[..i]); d.mem == r.mem && d.clock == r.clock
    {
      OneMoreOp(d.answers, old(d.clock), old(d.mem), ops, i);
      assert Callable(ops[i], data.Length);
      match ops[i]
      case WriteOp(a, bytes) => var result := Write(d, a, bytes);
      case ReadOp(a, n) => var result := Read(d, a, data, n);
    }
    assert ops[..|ops|] == ops;
  }

  lemma NoOps(answers: Answers, clock: nat, mem: seq<byte>, ops: seq<Op>)
    requires IsMemory(mem)
    ensures RunOps(answers, clock, mem, ops[..0]) == Run(mem, clock, [])
  {
  }

  lemma OneMoreOp(answers: Answers, clock: nat, mem: seq<byte>, ops: seq<Op>, i: nat)
    requires IsMemory(mem) && i < |ops|
    ensures var r, s := RunOps(answers, clock, mem, ops[..i]), RunOps(answers, clock, mem, ops[..i + 1]);
      match ops[i]
      case WriteOp(a, data) =>
        var w := EepromSpec.Write(answers, r.clock, r.mem, a, data);
        s.mem == w.mem && s.clock == w.clock
      case ReadOp(a, n) => s.mem == r.mem && s.clock == EepromSpec.Read(answers, r.clock, a, n).clock
  {
    hide EepromSpec.Write, EepromSpec.Read;
    assert ops[..i + 1][..i] == ops[..i];
  }

  /** Any calls, and then a read: what it delivers is, byte for byte, what the last write to reach the place put
      there, or what was there before all calls. */
  method CallAllThenRead(d: Device, ops: seq<Op>, data: array<byte>, address: uint16, len: uint16)
    returns (result: bool)
    requires d.Valid() && (forall op | op in ops :: Callable(op, data.Length)) && 1 <= len <= data.Length
    modifies d, data
    ensures var r := RunOps(d.answers, old(d.clock), old(d.mem), ops);
      var f := EepromSpec.Read(d.answers, r.clock, address, len);
      && result == f.ok && (result ==> f.got == len) && d.mem == r.mem
      && forall j :: 0 <= j < f.got ==> data[j] == Expected(d.answers, old(d.mem), ops, r.log, address + j)
  {
    hide RunOps, Expected, ReadFrom;
    CallAll(d, ops, data);
    ghost var r := RunOps(d.answers, old(d.clock), old(d.mem), ops);
    ghost var f := EepromSpec.Read(d.answers, r.clock, address, len);
    result := Read(d, address, data, len);
    forall j: nat | j < f.got ensures data[j] == Expected(d.answers, old(d.mem), ops, r.log, address + j) {
      RunThenRead(d.answers, old(d.clock), old(d.mem), ops, address, len, j);
      assert data[j] == data[..][j] == r.mem[address..address + f.got][j];
    }
  }
}
