/** The EEPROM as a page device on a bus that may fall silent, and what a split transfer does to it. */
module EepromSpec {
  import opened Bytes

  const PAGE_SIZE := 8
  const SIZE := 256

  /** Whether the bus answers the start condition or the byte that is sent at a given moment. */
  type Answers = nat -> bool

  /** What a transfer leaves behind.  `done` counts the bytes of data the driver got through. */
  datatype Outcome = Outcome(ok: bool, mem: seq<byte>, clock: nat, done: nat)

  predicate IsMemory(mem: seq<byte>) {
    |mem| == 256
  }

  // ---------- the device ----------

  /** The address counter of a page write: it wraps inside the page. */
  function NextInPage(p: nat): nat {
    Pointer(p, 1)
  }

  /** A page write of `data` from address `p` on. */
  function Store(mem: seq<byte>, p: nat, data: seq<byte>): (m: seq<byte>)
    requires IsMemory(mem) && p < SIZE
    ensures IsMemory(m)
    decreases |data|
  {
    PointerSteps(p, 0);
    if data == [] then mem else Store(mem[p := data[0]], NextInPage(p), data[1..])
  }

  /** A flat array: `data` replaces what stood from `p` on. */
  function Overlay(mem: seq<byte>, p: nat, data: seq<byte>): (m: seq<byte>)
    requires p + |data| <= |mem|
    ensures |m| == |mem|
  {
    mem[..p] + data + mem[p + |data|..]
  }

  /** Where the address counter stands after `n` bytes. */
  function Pointer(p: nat, n: nat): nat {
    p / PAGE_SIZE * PAGE_SIZE + (p % PAGE_SIZE + n) % PAGE_SIZE
  }

  lemma PointerSteps(p: nat, n: nat)
    requires p < SIZE
    ensures Pointer(p, n) < SIZE && NextInPage(p) < SIZE
    ensures Pointer(p, 0) == p
    ensures Pointer(NextInPage(p), n) == Pointer(p, n + 1) == NextInPage(Pointer(p, n))
  {
    var q, o := p / PAGE_SIZE, p % PAGE_SIZE;
    Address(q, (o + n) % PAGE_SIZE);
    Address(q, (o + 1) % PAGE_SIZE);
    Wraps(o, n);
  }

  lemma Address(q: nat, x: nat)
    requires x < PAGE_SIZE
    ensures (q * PAGE_SIZE + x) / PAGE_SIZE == q && (q * PAGE_SIZE + x) % PAGE_SIZE == x
  {
  }

  lemma Wraps(o: nat, n: nat)
    ensures ((o + 1) % PAGE_SIZE + n) % PAGE_SIZE == (o + n + 1) % PAGE_SIZE == ((o + n) % PAGE_SIZE + 1) % PAGE_SIZE
  {
  }

  lemma {:induction false} StoreAppend(mem: seq<byte>, p: nat, data: seq<byte>, b: byte)
    requires IsMemory(mem) && p < SIZE
    ensures Pointer(p, |data|) < SIZE
    ensures Store(mem, p, data + [b]) == Store(mem, p, data)[Pointer(p, |data|) := b]
    decreases |data|
  {
    hide Pointer, NextInPage;
    PointerSteps(p, 0);
    if data == [] {
      assert data + [b] == [b];
      assert Store(mem[p := b], NextInPage(p), []) == mem[p := b];
    } else {
      assert (data + [b])[1..] == data[1..] + [b];
      PointerSteps(p, |data| - 1);
      StoreAppend(mem[p := data[0]], NextInPage(p), data[1..], b);
    }
  }

  /** Inside one page the device behaves like a flat array. */
  lemma {:induction false} StoreInPage(mem: seq<byte>, p: nat, data: seq<byte>)
    requires IsMemory(mem) && p < 256 && p % 8 + |data| <= 8
    ensures Store(mem, p, data) == Overlay(mem, p, data)
    decreases |data|
  {
    if |data| == 1 {
      assert data[1..] == [];
    } else if data != [] {
      StoreInPage(mem[p := data[0]], p + 1, data[1..]);
    }
  }

  /** Past its end it does not: the first byte too many goes to the start of the page. */
  lemma StoreWraps(mem: seq<byte>, p: nat, data: seq<byte>)
    requires IsMemory(mem) && p < 256 && p % 8 + |data| == 9
    ensures Store(mem, p, data)[p / 8 * 8] == data[|data| - 1]
    ensures p + |data| <= 256 ==> Store(mem, p, data)[p + |data| - 1] == mem[p + |data| - 1]
  {
    var n := |data| - 1;
    assert data == data[..n] + [data[n]];
    StoreAppend(mem, p, data[..n], data[n]);
    StoreInPage(mem, p, data[..n]);
  }

  // ---------- one page transaction ----------

  /** How many of the next `n` bytes are answered before one is not. */
  function Heard(answers: Answers, clock: nat, n: nat): (k: nat)
    ensures k <= n
    ensures forall c :: clock <= c < clock + k ==> answers(c)
    ensures k < n ==> !answers(clock + k)
    decreases n
  {
    if n == 0 || !answers(clock) then 0 else 1 + Heard(answers, clock + 1, n - 1)
  }

  /** A page write: start, device address, byte address, data.  The driver waits for the answer to
      everything but the last byte of data. */
  function WritePage(answers: Answers, clock: nat, mem: seq<byte>, p: nat, data: seq<byte>): (r: Outcome)
    requires IsMemory(mem) && p < SIZE && data != []
    ensures IsMemory(r.mem) && r.done <= |data| && r.clock > clock
    ensures r.ok <==> r.done == |data|
  {
    var head := Heard(answers, clock, 3);
    var k := Heard(answers, clock + 3, |data| - 1);
    if head < 3 then Outcome(false, mem, clock + head + 1, 0)
    else if k < |data| - 1 then Outcome(false, Store(mem, p, data[..k]), clock + 3 + k + 1, k)
    else if answers(clock + 3 + k) then Outcome(true, Store(mem, p, data), clock + 3 + |data|, |data|)
    else Outcome(true, Store(mem, p, data[..k]), clock + 3 + |data|, |data|)
  }

  /** A page read: both starts and the three address bytes must be answered. */
  function ReadPage(answers: Answers, clock: nat): (r: (bool, nat)) {
    var head := Heard(answers, clock, 5);
    if head < 5 then (false, clock + head + 1) else (true, clock + 5)
  }

  // ---------- splitting ----------

  /** One page transaction of a longer transfer: `len` bytes at this place of this page. */
  datatype Piece = Piece(page: nat, offset: nat, len: nat)

  function Room(address: nat): (n: nat)
    ensures 1 <= n <= PAGE_SIZE
  {
    PAGE_SIZE - address % PAGE_SIZE
  }

  function Smaller(a: nat, b: nat): nat {
    if a < b then a else b
  }

  /** The reference form of the splitter: fill the page, then go on. */
  function Split(address: nat, n: nat): (ps: seq<Piece>)
    decreases n
  {
    if n == 0 then []
    else
      var k := Smaller(Room(address), n);
      [Piece(address / PAGE_SIZE, address % PAGE_SIZE, k)] + Split(address + k, n - k)
  }

  function Total(ps: seq<Piece>): nat {
    if ps == [] then 0 else ps[0].len + Total(ps[1..])
  }

  function PagesTouched(address: nat, n: nat): nat {
    if n == 0 then 0 else (address + n - 1) / 8 - address / 8 + 1
  }

  /** No transaction runs over the end of its page; together they are the transfer;
      and there are no more of them than pages touched. */
  lemma {:induction false} SplitFits(address: nat, n: nat)
    ensures forall q | q in Split(address, n) :: 1 <= q.len && q.offset + q.len <= 8
    ensures forall q | q in Split(address, n) :: address / 8 <= q.page <= (address + n - 1) / 8
    ensures |Split(address, n)| == PagesTouched(address, n)
    ensures Total(Split(address, n)) == n
    decreases n
  {
    hide PagesTouched, Room;
    OnePage(address, n);
    if n > 0 {
      var k := Smaller(Room(address), n);
      SplitFits(address + k, n - k);
      if k < n {
        NextPage(address, n);
      }
    }
  }

  lemma OnePage(address: nat, n: nat)
    ensures n == 0 ==> PagesTouched(address, n) == 0
    ensures 0 < n <= Room(address) ==> PagesTouched(address, n) == 1
    ensures address % PAGE_SIZE + Room(address) == PAGE_SIZE
    ensures n > 0 ==> address / PAGE_SIZE <= (address + n - 1) / PAGE_SIZE
  {
  }

  /** A transfer that fills its page goes on at the start of the next. */
  lemma NextPage(address: nat, n: nat)
    requires n > Room(address)
    ensures (address + Room(address)) / PAGE_SIZE == address / PAGE_SIZE + 1
    ensures (address + Room(address)) % PAGE_SIZE == 0
    ensures PagesTouched(address, n) == 1 + PagesTouched(address + Room(address), n - Room(address))
  {
  }

  // ---------- a whole write ----------

  /** A write page by page, up to the first transaction that fails. */
  function WriteFrom(answers: Answers, clock: nat, mem: seq<byte>, a: nat, data: seq<byte>): (r: Outcome)
    requires IsMemory(mem) && a + |data| <= SIZE
    ensures IsMemory(r.mem) && r.done <= |data| && r.clock >= clock && (r.ok <==> r.done == |data|)
    decreases |data|
  {
    if data == [] then Outcome(true, mem, clock, 0)
    else
      var n := Smaller(Room(a), |data|);
      var r := WritePage(answers, clock, mem, a, data[..n]);
      if !r.ok then r
      else
        var s := WriteFrom(answers, r.clock, r.mem, a + n, data[n..]);
        Outcome(s.ok, s.mem, s.clock, n + s.done)
  }

  /** EEPROM_Write: a transfer that would reach the last byte of the device is refused. */
  function Write(answers: Answers, clock: nat, mem: seq<byte>, a: nat, data: seq<byte>): (r: Outcome)
    requires IsMemory(mem)
    ensures IsMemory(r.mem) && r.done <= |data|
  {
    if a + |data| >= SIZE then Outcome(false, mem, clock, 0) else WriteFrom(answers, clock, mem, a, data)
  }

  /** One transaction: a prefix of the data lands where it should, and only its last byte may be sent
      without being taken. */
  lemma WritePagePrefix(answers: Answers, clock: nat, mem: seq<byte>, p: nat, data: seq<byte>)
    requires IsMemory(mem) && p < SIZE && data != [] && p % PAGE_SIZE + |data| <= PAGE_SIZE && p + |data| <= SIZE
    ensures var r := WritePage(answers, clock, mem, p, data);
      && (forall c :: clock + 3 <= c < clock + 3 + r.done && c < clock + 2 + |data| ==> answers(c))
      && r.mem == Overlay(mem, p, data[..if r.ok && !answers(clock + 3 + |data| - 1) then |data| - 1 else r.done])
  {
    StoreInPage(mem, p, data);
    forall k: nat | k <= |data| ensures Store(mem, p, data[..k]) == Overlay(mem, p, data[..k]) {
      StoreInPage(mem, p, data[..k]);
    }
    assert data[..|data|] == data;
  }

  lemma OverlayNothing(mem: seq<byte>, a: nat)
    requires a <= |mem|
    ensures Overlay(mem, a, []) == mem
  {
  }

  lemma OverlayAppend(mem: seq<byte>, a: nat, x: seq<byte>, b: byte)
    requires a + |x| < |mem|
    ensures Overlay(mem, a, x)[a + |x| := b] == Overlay(mem, a, x + [b])
  {
  }

  lemma OverlayTwice(mem: seq<byte>, a: nat, x: seq<byte>, y: seq<byte>)
    requires a + |x| + |y| <= |mem|
    ensures Overlay(Overlay(mem, a, x), a + |x|, y) == Overlay(mem, a, x + y)
  {
  }

  // ---------- what a write does ----------

  predicate Answered(answers: Answers, from: nat, to: nat) {
    forall c :: from <= c < to ==> answers(c)
  }

  lemma AnsweredParts(answers: Answers, from: nat, mid: nat, to: nat)
    requires Answered(answers, from, to) && from <= mid <= to
    ensures Answered(answers, from, mid) && Answered(answers, mid, to)
  {
  }

  /** On a bus that answers, a write succeeds with all of its data in place, and takes three events more per page than
      it has bytes. */
  lemma {:induction false} AnsweredWrite(answers: Answers, clock: nat, mem: seq<byte>, a: nat, data: seq<byte>)
    requires IsMemory(mem) && a + |data| <= SIZE
    requires Answered(answers, clock, clock + 3 * PagesTouched(a, |data|) + |data|)
    ensures WriteFrom(answers, clock, mem, a, data)
         == Outcome(true, Overlay(mem, a, data), clock + 3 * PagesTouched(a, |data|) + |data|, |data|)
    decreases |data|
  {
    hide Room, PagesTouched, Overlay, WritePage, Answered;
    OverlayNothing(mem, a);
    OnePage(a, 0);
    if data != [] {
      OnePage(a, |data|);
      var n := Smaller(Room(a), |data|);
      PagesLeft(a, |data|);
      AnsweredParts(answers, clock, clock + 3 + n, clock + 3 * PagesTouched(a, |data|) + |data|);
      AnsweredPage(answers, clock, mem, a, data[..n]);
      AnsweredWrite(answers, clock + 3 + n, Overlay(mem, a, data[..n]), a + n, data[n..]);
      OverlayTwice(mem, a, data[..n], data[n..]);
      assert data[..n] + data[n..] == data;
    } else {
      assert data == [];
    }
  }

  lemma PagesLeft(a: nat, m: nat)
    requires m > 0
    ensures var n := Smaller(Room(a), m); PagesTouched(a, m) == 1 + PagesTouched(a + n, m - n)
  {
    OnePage(a, m);
    if m > Room(a) {
      NextPage(a, m);
    }
  }

  lemma AnsweredPage(answers: Answers, clock: nat, mem: seq<byte>, p: nat, data: seq<byte>)
    requires IsMemory(mem) && p < SIZE && data != [] && p % PAGE_SIZE + |data| <= PAGE_SIZE && p + |data| <= SIZE
    requires Answered(answers, clock, clock + 3 + |data|)
    ensures WritePage(answers, clock, mem, p, data)
         == Outcome(true, Overlay(mem, p, data), clock + 3 + |data|, |data|)
  {
    StoreInPage(mem, p, data);
  }

  /** When the device answers byte `j` of a write that gets that far: each page before it, and its own,
      took a start and two address bytes. */
  function Moment(clock: nat, a: nat, j: nat): nat {
    clock + 3 * ((a + j) / PAGE_SIZE - a / PAGE_SIZE + 1) + j
  }

  /** The last byte of a transaction. */
  predicate EndsPage(a: nat, n: nat, j: nat) {
    j + 1 == n || (a + j + 1) % PAGE_SIZE == 0
  }

  /** Byte `j` of the range after a write that got through `done` bytes, and left the memory as `m`: the data if
      the driver got so far and the device answered; and only last bytes of transactions go unanswered. */
  predicate Arrived(answers: Answers, clock: nat, mem: seq<byte>, a: nat, data: seq<byte>, m: seq<byte>, done: nat,
    j: nat)
    requires IsMemory(mem) && IsMemory(m) && a + |data| <= SIZE && j < |data|
  {
    && m[a + j] == (if j < done && answers(Moment(clock, a, j)) then data[j] else mem[a + j])
    && (j < done ==> answers(Moment(clock, a, j)) || EndsPage(a, |data|, j))
  }

  lemma MomentInPage(clock: nat, a: nat, n: nat, j: nat)
    requires j < n <= Room(a)
    ensures Moment(clock, a, j) == clock + 3 + j
    ensures EndsPage(a, n, n - 1)
  {
  }

  lemma MomentNextPage(clock: nat, a: nat, n: nat, j: nat)
    requires Room(a) <= j < n
    ensures Moment(clock + 3 + Room(a), a + Room(a), j - Room(a)) == Moment(clock, a, j)
    ensures EndsPage(a + Room(a), n - Room(a), j - Room(a)) == EndsPage(a, n, j)
  {
    NextPage(a, n);
  }

  lemma EndsWhole(a: nat, n: nat, m: nat, j: nat)
    requires n == Smaller(Room(a), m) && j < n
    ensures EndsPage(a, n, j) ==> EndsPage(a, m, j)
  {
  }

  lemma ArrivedInPage(answers: Answers, clock: nat, mem: seq<byte>, a: nat, data: seq<byte>, j: nat)
    requires IsMemory(mem) && a + |data| <= SIZE && 0 < |data| <= Room(a) && j < |data|
    ensures var r := WritePage(answers, clock, mem, a, data);
      Arrived(answers, clock, mem, a, data, r.mem, r.done, j) && (r.ok ==> r.clock == clock + 3 + |data|)
  {
    hide Moment, EndsPage, Room, Store;
    OnePage(a, |data|);
    WritePagePrefix(answers, clock, mem, a, data);
    MomentInPage(clock, a, |data|, j);
  }

  lemma WriteStep(answers: Answers, clock: nat, mem: seq<byte>, a: nat, data: seq<byte>)
    requires IsMemory(mem) && a + |data| <= SIZE && data != []
    ensures var n := Smaller(Room(a), |data|);
      var r := WritePage(answers, clock, mem, a, data[..n]);
      WriteFrom(answers, clock, mem, a, data)
      == if !r.ok then r
         else var s := WriteFrom(answers, r.clock, r.mem, a + n, data[n..]); Outcome(s.ok, s.mem, s.clock, n + s.done)
  {
    hide WritePage, Room;
  }

  /** The effect of any write, whether it succeeds or fails part way, byte by byte: the data where the driver got
      through and the device answered, and the old byte elsewhere. */
  lemma {:induction false} WriteEffect(answers: Answers, clock: nat, mem: seq<byte>, a: nat, data: seq<byte>, j: nat)
    requires IsMemory(mem) && a + |data| <= SIZE && j < |data|
    ensures var r := WriteFrom(answers, clock, mem, a, data);
      Arrived(answers, clock, mem, a, data, r.mem, r.done, j)
    decreases |data|
  {
    hide WritePage, Moment, EndsPage, Room, Arrived, Overlay, WriteFrom, PagesTouched;
    var n := Smaller(Room(a), |data|);
    OnePage(a, |data|);
    WriteStep(answers, clock, mem, a, data);
    var r := WritePage(answers, clock, mem, a, data[..n]);
    PageStays(answers, clock, mem, a, data[..n]);
    ArrivedInPage(answers, clock, mem, a, data[..n], if j < n then j else 0);
    if !r.ok {
      if j < n {
        ArrivedFirst(answers, clock, mem, a, data, r.mem, r.done, r.mem, r.done, j);
      } else {
        NotReached(answers, clock, mem, a, data, r.mem, r.done, j);
      }
    } else {
      var s := WriteFrom(answers, r.clock, r.mem, a + n, data[n..]);
      WriteStays(answers, r.clock, r.mem, a + n, data[n..]);
      if j < n {
        ArrivedFirst(answers, clock, mem, a, data, r.mem, r.done, s.mem, n + s.done, j);
      } else {
        WriteEffect(answers, r.clock, r.mem, a + n, data[n..], j - n);
        ArrivedLater(answers, clock, mem, a, data, r.mem, s.mem, s.done, j);
      }
    }
  }

  lemma ArrivedFirst(answers: Answers, clock: nat, mem: seq<byte>, a: nat, data: seq<byte>,
                     m: seq<byte>, done: nat, m': seq<byte>, done': nat, j: nat)
    requires IsMemory(mem) && IsMemory(m) && IsMemory(m') && a + |data| <= SIZE
    requires j < Smaller(Room(a), |data|) && m'[..a + Smaller(Room(a), |data|)] == m[..a + Smaller(Room(a), |data|)]
    requires Arrived(answers, clock, mem, a, data[..Smaller(Room(a), |data|)], m, done, j)
    requires j < done <==> j < done'
    ensures Arrived(answers, clock, mem, a, data, m', done', j)
  {
    hide Moment, EndsPage, Room;
    var n := Smaller(Room(a), |data|);
    EndsWhole(a, n, |data|, j);
    assert m'[a + j] == m'[..a + n][a + j] == m[a + j];
  }

  lemma NotReached(answers: Answers, clock: nat, mem: seq<byte>, a: nat, data: seq<byte>, m: seq<byte>, done: nat,
    j: nat)
    requires IsMemory(mem) && IsMemory(m) && a + |data| <= SIZE && done <= j < |data|
    requires m[a + Smaller(Room(a), |data|)..] == mem[a + Smaller(Room(a), |data|)..] && j >= Smaller(Room(a), |data|)
    ensures Arrived(answers, clock, mem, a, data, m, done, j)
  {
    hide Moment, EndsPage, Room;
    var n := Smaller(Room(a), |data|);
    assert m[a + j] == m[a + n..][j - n] == mem[a + n..][j - n] == mem[a + j];
  }

  lemma ArrivedLater(answers: Answers, clock: nat, mem: seq<byte>, a: nat, data: seq<byte>, m: seq<byte>,
    m': seq<byte>, done: nat, j: nat)
    requires IsMemory(mem) && IsMemory(m) && IsMemory(m') && a + |data| <= SIZE && Room(a) <= j < |data|
    requires m[a + Room(a)..] == mem[a + Room(a)..]
    requires Arrived(answers, clock + 3 + Room(a), m, a + Room(a), data[Room(a)..], m', done, j - Room(a))
    ensures Arrived(answers, clock, mem, a, data, m', Room(a) + done, j)
  {
    hide Moment, EndsPage, Room;
    MomentNextPage(clock, a, |data|, j);
    assert m[a + j] == m[a + Room(a)..][j - Room(a)] == mem[a + j];
  }

  lemma PageStays(answers: Answers, clock: nat, mem: seq<byte>, a: nat, data: seq<byte>)
    requires IsMemory(mem) && a + |data| <= SIZE && 0 < |data| <= Room(a)
    ensures var r := WritePage(answers, clock, mem, a, data);
      r.mem[..a] == mem[..a] && r.mem[a + |data|..] == mem[a + |data|..]
  {
    hide WritePage, Room;
    OnePage(a, |data|);
    WritePagePrefix(answers, clock, mem, a, data);
  }

  /** A write keeps everything outside its range, whatever happens on the bus. */
  lemma {:induction false} WriteStays(answers: Answers, clock: nat, mem: seq<byte>, a: nat, data: seq<byte>)
    requires IsMemory(mem) && a + |data| <= SIZE
    ensures var r := WriteFrom(answers, clock, mem, a, data);
      r.mem[..a] == mem[..a] && r.mem[a + |data|..] == mem[a + |data|..]
    decreases |data|
  {
    hide WritePage, Room;
    if data != [] {
      var n := Smaller(Room(a), |data|);
      OnePage(a, |data|);
      PageStays(answers, clock, mem, a, data[..n]);
      var r := WritePage(answers, clock, mem, a, data[..n]);
      assert r.mem[a + |data|..] == r.mem[a + n..][|data| - n..] == mem[a + n..][|data| - n..] == mem[a + |data|..];
      if r.ok {
        WriteStays(answers, r.clock, r.mem, a + n, data[n..]);
        var s := WriteFrom(answers, r.clock, r.mem, a + n, data[n..]);
        assert s.mem[..a] == s.mem[..a + n][..a] == r.mem[..a];
      }
    }
  }

  /** Every last byte of a transaction that the driver got through was taken, or stood there already. */
  ghost predicate LastBytesThere(answers: Answers, clock: nat, mem: seq<byte>, a: nat, data: seq<byte>, done: nat)
    requires IsMemory(mem) && a + |data| <= SIZE
  {
    forall j: nat :: j < done && j < |data| && EndsPage(a, |data|, j) ==>
      answers(Moment(clock, a, j)) || mem[a + j] == data[j]
  }

  /** The split write, successful or not, is one write of a prefix to a flat array exactly when the bytes that
      nobody waited for were taken, or stood there already.  The prefix is all of the data exactly on success. */
  lemma WriteIsFlat(answers: Answers, clock: nat, mem: seq<byte>, a: nat, data: seq<byte>)
    requires IsMemory(mem) && a + |data| <= SIZE
    ensures var r := WriteFrom(answers, clock, mem, a, data);
      && (r.ok <==> r.done == |data|)
      && (r.mem == Overlay(mem, a, data[..r.done]) <==> LastBytesThere(answers, clock, mem, a, data, r.done))
  {
    hide WriteFrom, Moment, EndsPage;
    var r := WriteFrom(answers, clock, mem, a, data);
    var m, flat := r.mem, Overlay(mem, a, data[..r.done]);
    WriteStays(answers, clock, mem, a, data);
    forall j: nat | j < |data|
      ensures Arrived(answers, clock, mem, a, data, m, r.done, j)
      ensures flat[a + j] == if j < r.done then data[j] else mem[a + j]
    {
      WriteEffect(answers, clock, mem, a, data, j);
    }
    if m == flat {
      forall j: nat | j < r.done && EndsPage(a, |data|, j)
        ensures answers(Moment(clock, a, j)) || mem[a + j] == data[j]
      {
        assert m[a + j] == data[j] && Arrived(answers, clock, mem, a, data, m, r.done, j);
      }
    }
    if LastBytesThere(answers, clock, mem, a, data, r.done) {
      forall k | 0 <= k < SIZE ensures m[k] == flat[k] {
        if a <= k < a + |data| {
          assert Arrived(answers, clock, mem, a, data, m, r.done, k - a);
        } else if k < a {
          assert m[k] == m[..a][k] == mem[..a][k];
        } else {
          assert m[k] == m[a + |data|..][k - a - |data|] == mem[a + |data|..][k - a - |data|];
        }
      }
    }
  }

  /** Success promises the data exactly on that condition. */
  lemma SuccessMeans(answers: Answers, clock: nat, mem: seq<byte>, a: nat, data: seq<byte>)
    requires IsMemory(mem) && a + |data| <= SIZE && WriteFrom(answers, clock, mem, a, data).ok
    ensures WriteFrom(answers, clock, mem, a, data).mem == Overlay(mem, a, data) <==>
      LastBytesThere(answers, clock, mem, a, data, |data|)
  {
    hide WriteFrom, LastBytesThere;
    WriteIsFlat(answers, clock, mem, a, data);
    assert data[..|data|] == data;
  }

  function AllBut(k: nat): Answers {
    c => c != k
  }

  /** The driver does not wait for the answer to the last byte: it reports success for a byte
      that the device refused. */
  lemma RefusedLastByte(mem: seq<byte>, a: nat, b: byte)
    requires IsMemory(mem) && a + 1 < SIZE
    ensures Write(AllBut(3), 0, mem, a, [b]) == Outcome(true, mem, 4, 1)
  {
    hide Room;
    OnePage(a, 1);
    assert Heard(AllBut(3), 0, 3) == 3;
    assert [b][..0] == [] && [b][..1] == [b] && [b][1..] == [];
    assert WritePage(AllBut(3), 0, mem, a, [b]) == Outcome(true, mem, 4, 1);
    assert Smaller(Room(a), 1) == 1;
    assert WriteFrom(AllBut(3), 4, mem, a + 1, []) == Outcome(true, mem, 4, 0);
  }

  /** The first byte of a transaction. */
  predicate StartsPage(a: nat, j: nat) {
    j == 0 || (a + j) % 8 == 0
  }

  /** The bus answers what the driver waits for around byte `j`: the start and the two address bytes in front of the
      first byte of a transaction, and the byte itself unless it is the last of one. */
  predicate Heeded(answers: Answers, clock: nat, a: nat, n: nat, j: nat) {
    && (answers(Moment(clock, a, j)) || EndsPage(a, n, j))
    && (StartsPage(a, j) ==>
          var m := Moment(clock, a, j) as int;
          m >= 3 && answers(m - 3) && answers(m - 2) && answers(m - 1))
  }

  /** One transaction succeeds exactly if all of that is answered. */
  lemma PageSucceeds(answers: Answers, clock: nat, mem: seq<byte>, a: nat, data: seq<byte>, m: nat)
    requires IsMemory(mem) && a < SIZE && 0 < |data| == Smaller(Room(a), m)
    ensures WritePage(answers, clock, mem, a, data).ok <==> forall j: nat :: j < |data| ==>
      Heeded(answers, clock, a, m, j)
    ensures WritePage(answers, clock, mem, a, data).ok ==>
      WritePage(answers, clock, mem, a, data).clock == clock + 3 + |data|
  {
    hide Store, Moment, EndsPage, StartsPage, Room;
    var n := |data|;
    FirstThree(answers, clock);
    if forall j: nat :: j < n ==> Heeded(answers, clock, a, m, j) {
      InFirstPage(clock, a, m, 0);
      assert Heeded(answers, clock, a, m, 0);
      forall c | clock + 3 <= c < clock + 3 + n - 1 ensures answers(c) {
        InFirstPage(clock, a, m, c - clock - 3);
        assert Heeded(answers, clock, a, m, c - clock - 3);
      }
    }
    if WritePage(answers, clock, mem, a, data).ok {
      forall j: nat | j < n ensures Heeded(answers, clock, a, m, j) {
        InFirstPage(clock, a, m, j);
      }
    }
  }

  lemma FirstThree(answers: Answers, clock: nat)
    ensures Heard(answers, clock, 3) == 3 <==> answers(clock) && answers(clock + 1) && answers(clock + 2)
  {
  }

  lemma InFirstPage(clock: nat, a: nat, m: nat, j: nat)
    requires m > 0 && j < Smaller(Room(a), m)
    ensures Moment(clock, a, j) == clock + 3 + j
    ensures EndsPage(a, m, j) <==> j + 1 == Smaller(Room(a), m)
    ensures StartsPage(a, j) <==> j == 0
  {
    MomentInPage(clock, a, Smaller(Room(a), m), j);
  }

  /** A split write succeeds exactly if everything that the driver waits for is answered. */
  lemma {:induction false} WriteSucceeds(answers: Answers, clock: nat, mem: seq<byte>, a: nat, data: seq<byte>)
    requires IsMemory(mem) && a + |data| <= SIZE
    ensures WriteFrom(answers, clock, mem, a, data).ok <==>
      forall j: nat :: j < |data| ==> Heeded(answers, clock, a, |data|, j)
    decreases |data|
  {
    hide WritePage, Heeded, Room, Moment;
    if data != [] {
      var m, n := |data|, Smaller(Room(a), |data|);
      PageSucceeds(answers, clock, mem, a, data[..n], m);
      var r := WritePage(answers, clock, mem, a, data[..n]);
      if r.ok {
        WriteSucceeds(answers, r.clock, r.mem, a + n, data[n..]);
        HeededParts(answers, clock, a, m, n, r.clock, a + n, m - n);
      }
    }
  }

  lemma HeededParts(answers: Answers, clock: nat, a: nat, m: nat, n: nat, later: nat, b: nat, rest: nat)
    requires m > 0 && n == Smaller(Room(a), m) && later == clock + 3 + n && b == a + n && rest == m - n
    ensures (forall j: nat :: j < m ==> Heeded(answers, clock, a, m, j)) <==>
      && (forall j: nat :: j < n ==> Heeded(answers, clock, a, m, j))
      && (forall j: nat :: j < rest ==> Heeded(answers, later, b, rest, j))
  {
    hide Heeded, Room;
    if forall j: nat :: j < m ==> Heeded(answers, clock, a, m, j) {
      forall j: nat | j < rest ensures Heeded(answers, later, b, rest, j) {
        HeededLater(answers, clock, a, m, j + n);
        assert j + n - n == j;
      }
    }
    if forall j: nat :: j < rest ==> Heeded(answers, later, b, rest, j) {
      forall j: nat | n <= j < m ensures Heeded(answers, clock, a, m, j) {
        HeededLater(answers, clock, a, m, j);
        assert Heeded(answers, later, b, rest, j - n);
      }
    }
  }

  lemma HeededLater(answers: Answers, clock: nat, a: nat, m: nat, j: nat)
    requires Smaller(Room(a), m) <= j < m
    ensures var n := Smaller(Room(a), m);
      Heeded(answers, clock, a, m, j) <==> Heeded(answers, clock + 3 + n, a + n, m - n, j - n)
  {
    hide Moment, EndsPage;
    var n := Room(a);
    MomentNextPage(clock, a, m, j);
    LaterMoment(clock + 3 + n, a + n, j - n);
    StartsLater(a, j);
  }

  lemma LaterMoment(clock: nat, a: nat, j: nat)
    ensures Moment(clock, a, j) >= clock + 3
  {
  }

  lemma StartsLater(a: nat, j: nat)
    requires Room(a) <= j
    ensures StartsPage(a, j) <==> StartsPage(a + Room(a), j - Room(a))
  {
  }

  /** EEPROM_Write succeeds exactly if the transfer ends below the last byte of the device and everything that the
      driver
      waits for is answered; a transfer that does not end there is refused without an event on the bus. */
  lemma WriteAccepted(answers: Answers, clock: nat, mem: seq<byte>, a: nat, data: seq<byte>)
    requires IsMemory(mem)
    ensures Write(answers, clock, mem, a, data).ok <==>
      a + |data| < 256 && forall j: nat :: j < |data| ==> Heeded(answers, clock, a, |data|, j)
    ensures a + |data| >= 256 ==> Write(answers, clock, mem, a, data) == Outcome(false, mem, clock, 0)
    ensures a + |data| < 256 && Answered(answers, clock, clock + 3 * PagesTouched(a, |data|) + |data|) ==>
      Write(answers, clock, mem, a, data)
      == Outcome(true, Overlay(mem, a, data), clock + 3 * PagesTouched(a, |data|) + |data|, |data|)
  {
    hide WriteFrom, Heeded, Answered, PagesTouched, Overlay;
    if a + |data| < SIZE {
      WriteSucceeds(answers, clock, mem, a, data);
      if Answered(answers, clock, clock + 3 * PagesTouched(a, |data|) + |data|) {
        AnsweredWrite(answers, clock, mem, a, data);
      }
    }
  }

  // ---------- a whole read ----------

  /** A sequential read of `n` bytes: the address counter runs on and rolls over at the end of the memory. */
  function Sequential(mem: seq<byte>, p: nat, n: nat): (s: seq<byte>)
    requires IsMemory(mem)
    ensures |s| == n
  {
    if n == 0 then [] else Sequential(mem, p, n - 1) + [mem[(p + n - 1) % SIZE]]
  }

  lemma {:induction false} SequentialIsSlice(mem: seq<byte>, p: nat, n: nat)
    requires IsMemory(mem) && p + n <= SIZE
    ensures Sequential(mem, p, n) == mem[p..p + n]
  {
    if n > 0 {
      SequentialIsSlice(mem, p, n - 1);
      assert (p + n - 1) % SIZE == p + n - 1;
      assert mem[p..p + n] == mem[p..p + n - 1] + [mem[p + n - 1]];
    }
  }

  /** `got` counts the bytes that reached the caller. */
  datatype Fetch = Fetch(ok: bool, clock: nat, got: nat)

  /** A read page by page, up to the first transaction that fails. */
  function ReadFrom(answers: Answers, clock: nat, a: nat, n: nat): (r: Fetch)
    ensures r.got <= n && (r.ok <==> r.got == n)
    decreases n
  {
    if n == 0 then Fetch(true, clock, 0)
    else
      var k := Smaller(Room(a), n);
      var (ok, later) := ReadPage(answers, clock);
      if !ok then Fetch(false, later, 0)
      else
        var s := ReadFrom(answers, later, a + k, n - k);
        Fetch(s.ok, s.clock, k + s.got)
  }

  /** EEPROM_Read, with the same refusal. */
  function Read(answers: Answers, clock: nat, a: nat, n: nat): (r: Fetch)
    ensures r.got <= n && (r.ok ==> a + n < SIZE) && (r.got > 0 ==> a + n < SIZE)
  {
    if a + n >= SIZE then Fetch(false, clock, 0) else ReadFrom(answers, clock, a, n)
  }

  lemma AnsweredBoth(answers: Answers, from: nat, mid: nat, to: nat)
    requires from <= mid <= to
    ensures Answered(answers, from, to) <==> Answered(answers, from, mid) && Answered(answers, mid, to)
  {
  }

  lemma AnsweredNone(answers: Answers, clock: nat)
    ensures Answered(answers, clock, clock)
  {
  }

  lemma AllHeard(answers: Answers, clock: nat, n: nat)
    ensures Heard(answers, clock, n) == n <==> Answered(answers, clock, clock + n)
  {
  }

  /** A split read succeeds exactly if its five events per page are all answered. */
  lemma {:induction false} ReadSucceeds(answers: Answers, clock: nat, a: nat, n: nat)
    ensures var r := ReadFrom(answers, clock, a, n);
      && (r.ok <==> Answered(answers, clock, clock + 5 * PagesTouched(a, n)))
      && (r.ok ==> r.clock == clock + 5 * PagesTouched(a, n))
    decreases n
  {
    hide Room, PagesTouched, Answered, Heard;
    OnePage(a, 0);
    if n > 0 {
      var k := Smaller(Room(a), n);
      PagesLeft(a, n);
      var p := PagesTouched(a + k, n - k);
      ReadSucceeds(answers, clock + 5, a + k, n - k);
      AnsweredBoth(answers, clock, clock + 5, clock + 5 + 5 * p);
      AllHeard(answers, clock, 5);
    } else {
      AnsweredNone(answers, clock);
    }
  }

  /** EEPROM_Read succeeds exactly if the range ends below the last byte of the device and all its events are
      answered; a range that does not end there is refused without an event on the bus. */
  lemma ReadAccepted(answers: Answers, clock: nat, a: nat, n: nat)
    ensures var r := Read(answers, clock, a, n);
      && (r.ok <==> a + n < 256 && Answered(answers, clock, clock + 5 * PagesTouched(a, n)))
      && (r.ok ==> r.got == n && r.clock == clock + 5 * PagesTouched(a, n))
      && (a + n >= 256 ==> r == Fetch(false, clock, 0))
  {
    hide ReadFrom, Answered, PagesTouched;
    ReadSucceeds(answers, clock, a, n);
  }

  // ---------- runs ----------

  /** What a caller asks for. */
  datatype Op = WriteOp(address: nat, data: seq<byte>) | ReadOp(address: nat, len: nat)

  /** When an operation began, and how far it came. */
  datatype Entry = Entry(clock: nat, done: nat)

  /** The memory and the bus after a run of operations, and the record of each. */
  datatype Run = Run(mem: seq<byte>, clock: nat, log: seq<Entry>)

  ghost predicate Recorded(ops: seq<Op>, log: seq<Entry>) {
    |log| == |ops|
    && forall i :: 0 <= i < |ops| && ops[i].WriteOp? ==>
      log[i].done <= |ops[i].data| && (log[i].done == 0 || ops[i].address + |ops[i].data| < SIZE)
  }

  function RunOps(answers: Answers, clock: nat, mem: seq<byte>, ops: seq<Op>): (r: Run)
    requires IsMemory(mem)
    ensures IsMemory(r.mem) && Recorded(ops, r.log)
  {
    if ops == [] then Run(mem, clock, [])
    else
      var before := RunOps(answers, clock, mem, ops[..|ops| - 1]);
      match ops[|ops| - 1]
      case WriteOp(a, data) =>
        var w := Write(answers, before.clock, before.mem, a, data);
        Run(w.mem, w.clock, before.log + [Entry(before.clock, w.done)])
      case ReadOp(a, n) =>
        var f := Read(answers, before.clock, a, n);
        Run(before.mem, f.clock, before.log + [Entry(before.clock, f.got)])
  }

  /** The operation puts a byte at address `p`: a write that got through it, to a device that answered it. */
  predicate Reaches(answers: Answers, op: Op, e: Entry, p: nat) {
    op.WriteOp? && op.address <= p < op.address + e.done && answers(Moment(e.clock, op.address, p - op.address))
  }

  /** The byte that the last operation to reach address `p` put there. */
  ghost function LastWritten(answers: Answers, ops: seq<Op>, log: seq<Entry>, p: nat): Option<byte>
    requires Recorded(ops, log)
  {
    if ops == [] then None
    else
      var i := |ops| - 1;
      if Reaches(answers, ops[i], log[i], p) then Some(ops[i].data[p - ops[i].address])
      else LastWritten(answers, ops[..i], log[..i], p)
  }

  /** What stands at address `p` after a run, by the record of the run alone. */
  ghost function Expected(answers: Answers, mem: seq<byte>, ops: seq<Op>, log: seq<Entry>, p: nat): byte
    requires IsMemory(mem) && p < SIZE && Recorded(ops, log)
  {
    match LastWritten(answers, ops, log, p)
    case None => mem[p]
    case Some(b) => b
  }

  /** After any run of writes and reads, accepted, refused or failed part way, each byte is what the last write
      to reach it put there, or what was there at the start. */
  lemma {:induction false} RunIsFlat(answers: Answers, clock: nat, mem: seq<byte>, ops: seq<Op>, p: nat)
    requires IsMemory(mem) && p < SIZE
    ensures var r := RunOps(answers, clock, mem, ops);
      r.mem[p] == Expected(answers, mem, ops, r.log, p)
  {
    hide Write, Read, Moment;
    if ops != [] {
      var i := |ops| - 1;
      var before := RunOps(answers, clock, mem, ops[..i]);
      var r := RunOps(answers, clock, mem, ops);
      RunIsFlat(answers, clock, mem, ops[..i], p);
      assert r.log[..i] == before.log;
      if ops[i].WriteOp? {
        OneWrite(answers, before.clock, before.mem, ops[i].address, ops[i].data, p);
      }
    }
  }

  lemma OneWrite(answers: Answers, clock: nat, mem: seq<byte>, a: nat, data: seq<byte>, p: nat)
    requires IsMemory(mem) && p < SIZE
    ensures var w := Write(answers, clock, mem, a, data);
      w.mem[p] == if Reaches(answers, WriteOp(a, data), Entry(clock, w.done), p) then data[p - a] else mem[p]
  {
    hide WriteFrom, Moment;
    if a + |data| < SIZE {
      var w := WriteFrom(answers, clock, mem, a, data);
      WriteStays(answers, clock, mem, a, data);
      if a <= p < a + |data| {
        WriteEffect(answers, clock, mem, a, data, p - a);
      } else if p < a {
        assert w.mem[p] == w.mem[..a][p] == mem[..a][p];
      } else {
        assert w.mem[p] == w.mem[a + |data|..][p - a - |data|] == mem[a + |data|..][p - a - |data|];
      }
    }
  }

  /** A read at the end of any run delivers those bytes: the whole range if it succeeds, and otherwise as much of
      it as came before the failure. */
  lemma RunThenRead(answers: Answers, clock: nat, mem: seq<byte>, ops: seq<Op>, a: nat, n: nat, j: nat)
    requires IsMemory(mem)
    requires j < Read(answers, RunOps(answers, clock, mem, ops).clock, a, n).got
    ensures var r := RunOps(answers, clock, mem, ops);
      var f := Read(answers, r.clock, a, n);
      && a + f.got <= SIZE && (f.ok ==> f.got == n)
      && r.mem[a..a + f.got][j] == Expected(answers, mem, ops, r.log, a + j)
  {
    hide RunOps, Expected;
    RunIsFlat(answers, clock, mem, ops, a + j);
  }
}
