/** The flags that the transfer functions of the SD driver share with its two interrupt handlers,
    as a system of atomic steps: the task's statements, the handlers, and the peripheral. */
module SdTransfer {
  /** The interrupts that the driver enables. */
  datatype Source = DataEnd | DcrcFail | Dtimeout | RxOverr | TxUnderr | StbitErr

  datatype Error = Ok | DataCrcFail | DataTimeout | RxOverrun | TxUnderrun | StartBitErr | StopFailed

  /** The four transfer functions. */
  datatype Kind = ReadOne | ReadMany | WriteOne | WriteMany

  /** Where the task is.  Start: the four statements that open a transfer function, then its commands.
      The others: the statements of a wait, with its countdown, the wait for the reply to the stop command,
      and its outcome. */
  datatype Pc =
    | Ready
    | Start(step: nat)
    | Commands
    | Poll(timeout: nat)
    | ClearDma
    | Drain(timeout: nat)
    | Stop(timeout: nat)
    | Reply(timeout: nat)
    | ClearStop(timeout: nat, status: Error)
    | ClearFlags(timeout: nat, status: Error)
    | Return(timeout: nat, status: Error)

  const SD_DATATIMEOUT := 0xFFFF_FFFF

  /** The variables and registers, and what has happened since the last start. */
  datatype State = State(
    pc: Pc,
    error: Error,          // TransferError
    end: bool,             // TransferEnd
    stop: bool,            // StopCondition
    dma: bool,             // DMAEndOfTransfer
    mask: set<Source>,     // SDIO->MASK
    flags: set<Source>,    // SDIO->STA
    kind: Kind,            // the last start
    handled: seq<Source>,  // the SDIO interrupts handled since then
    stops: nat,            // the stop commands sent since then
    waits: nat,            // the waits finished since then
    result: Error)         // what the last wait returned

  const READING: set<Source> := {DcrcFail, Dtimeout, DataEnd, RxOverr, StbitErr}
  const WRITING: set<Source> := {DcrcFail, Dtimeout, DataEnd, TxUnderr, StbitErr}

  /** The interrupts that a start enables.  A write of one block enables those of a read. */
  function Sources(kind: Kind): set<Source> {
    if kind == WriteMany then WRITING else READING
  }

  predicate Multi(kind: Kind) {
    kind == ReadMany || kind == WriteMany
  }

  function ErrorOf(x: Source): Error {
    match x
    case DataEnd => Ok
    case DcrcFail => DataCrcFail
    case Dtimeout => DataTimeout
    case RxOverr => RxOverrun
    case TxUnderr => TxUnderrun
    case StbitErr => StartBitErr
  }

  /** The order in which SD_ProcessIRQSrc looks at the flags. */
  function FirstOf(flags: set<Source>): (x: Source)
    requires flags != {}
    ensures x in flags
    ensures DataEnd in flags <==> x == DataEnd
  {
    if DataEnd in flags then DataEnd
    else if DcrcFail in flags then DcrcFail
    else if Dtimeout in flags then Dtimeout
    else if RxOverr in flags then RxOverr
    else if TxUnderr in flags then TxUnderr
    else
      assert forall x | x in flags :: x == StbitErr;
      StbitErr
  }

  /** The places of the sources in that order. */
  function Rank(x: Source): nat {
    match x
    case DataEnd => 0
    case DcrcFail => 1
    case Dtimeout => 2
    case RxOverr => 3
    case TxUnderr => 4
    case StbitErr => 5
  }

  lemma FirstRank(flags: set<Source>)
    requires flags != {}
    ensures forall y | y in flags :: Rank(FirstOf(flags)) <= Rank(y)
  {
  }

  // ---------- the environment ----------

  /** SD_ProcessIRQSrc: one source is handled, then all are disabled. */
  function Handle(s: State): State
    requires s.flags != {}
  {
    var x := FirstOf(s.flags);
    s.(error := ErrorOf(x), end := s.end || x == DataEnd,
       flags := s.flags - {x}, mask := {}, handled := s.handled + [x])
  }

  ghost predicate Environment(s: State, t: State) {
    || (exists x :: t == s.(flags := s.flags + {x}))              // the peripheral raises a flag
    || t == s.(dma := true)                                       // SD_ProcessDMAIRQ
    || (s.flags * s.mask != {} && t == Handle(s))                 // SD_ProcessIRQSrc
  }

  // ---------- the task ----------

  /** The first statement of a transfer function. */
  function Begin(s: State, kind: Kind): State {
    s.(pc := Start(1), error := Ok, kind := kind, handled := [], stops := 0, waits := 0)
  }

  /** What a wait returns. */
  function Outcome(error: Error, timeout: nat, status: Error): Error {
    if error != Ok then error else if timeout == 0 && status == Ok then DataTimeout else status
  }

  /** What clearing the static flags leaves: the constant has no bit for the start-bit error. */
  function Cleared(flags: set<Source>): set<Source> {
    flags * {StbitErr}
  }

  /** The reply to the stop command has come.  Accepted or not, it may clear the flags. */
  ghost predicate Replied(s: State, t: State, timeout: nat) {
    || t == s.(pc := ClearStop(timeout, Ok), flags := Cleared(s.flags))
    || t == s.(pc := ClearStop(timeout, StopFailed), flags := Cleared(s.flags))
    || t == s.(pc := ClearStop(timeout, StopFailed))
  }

  /** One statement of the task. */
  ghost predicate Task(s: State, t: State) {
    match s.pc
    case Ready =>
      || (exists kind :: t == Begin(s, kind))
      || t == s.(pc := Poll(SD_DATATIMEOUT))
    case Start(n) =>
      || (n == 1 && t == s.(pc := Start(2), end := false))
      || (n == 2 && t == s.(pc := Start(3), stop := Multi(s.kind)))
      || (n == 3 && t == s.(pc := Commands, mask := s.mask + Sources(s.kind)))
    case Commands =>
      || t == s                                                   // no reply yet: this loop has no timeout
      || t == s.(flags := Cleared(s.flags))                       // a reply has come
      || t == s.(pc := Ready)
    case Poll(timeout) =>
      // the loop reads three variables that only other parties set: reading them one by one
      // finds all of them clear only if they were clear together when the first was read
      t == if !s.dma && !s.end && s.error == Ok && timeout > 0 then s.(pc := Poll(timeout - 1)) else s.(pc := ClearDma)
    case ClearDma => t == s.(pc := Drain(SD_DATATIMEOUT), dma := false)
    case Drain(timeout) =>
      || (timeout > 0 && t == s.(pc := Drain(timeout - 1)))       // the peripheral is still active
      || t == s.(pc := Stop(timeout))
    case Stop(timeout) =>
      t == if s.stop then s.(pc := Reply(timeout), stops := s.stops + 1) else s.(pc := ClearFlags(timeout, Ok))
    case Reply(timeout) => t == s || Replied(s, t, timeout)       // nor has this one
    case ClearStop(timeout, status) => t == s.(pc := ClearFlags(timeout, status), stop := false)
    case ClearFlags(timeout, status) => t == s.(pc := Return(timeout, status), flags := Cleared(s.flags))
    case Return(timeout, status) =>
      t == s.(pc := Ready, result := Outcome(s.error, timeout, status), waits := s.waits + 1)
  }

  predicate Begins(s: State, t: State) {
    s.pc == Ready && t.pc == Start(1)
  }

  /** A statement of a task that issues every start with the SDIO interrupts masked. */
  ghost predicate Masked(s: State, t: State) {
    Task(s, t) && (Begins(s, t) ==> s.mask == {})
  }

  ghost predicate Step(s: State, t: State) {
    Environment(s, t) || Masked(s, t)
  }

  ghost predicate IsRun(run: seq<State>) {
    && run != [] && Initial(run[0])
    && forall i :: 0 <= i < |run| - 1 ==> Step(run[i], run[i + 1])
  }

  /** The values of the declarations. */
  predicate Initial(s: State) {
    && s.pc == Ready && s.error == Ok && !s.end && !s.stop && !s.dma && s.mask == {}
    && s.kind == ReadOne && s.handled == [] && s.stops == 0 && s.waits == 0
  }

  // ---------- what every step keeps ----------

  /** What has been handled since the last start decides the two variables, and nothing is handled twice. */
  predicate Settled(s: State) {
    && |s.handled| <= 1
    && (s.handled == [] ==> s.error == Ok && !s.end)
    && (s.handled != [] ==> s.mask == {} && s.error == ErrorOf(s.handled[0]) && (s.end <==> s.handled[0] == DataEnd))
  }

  /** Whether the stop command of this transfer has been sent. */
  predicate StopSent(s: State) {
    Multi(s.kind) && (s.waits > 0 || s.pc.Reply? || s.pc.ClearStop? || s.pc.ClearFlags? || s.pc.Return?)
  }

  predicate Inv(s: State) {
    && (match s.pc
        case Start(n) =>
          && 1 <= n <= 3 && s.error == Ok && s.handled == [] && s.mask == {} && s.stops == 0 && s.waits == 0
          && (n >= 2 ==> !s.end) && (n == 3 ==> s.stop == Multi(s.kind))
        case _ => Settled(s) && s.stops == (if StopSent(s) then 1 else 0)
                  && s.stop == (Multi(s.kind) && (!StopSent(s) || InStop(s))))
    && (InStop(s) ==> s.waits == 0 && Multi(s.kind))
    && s.mask <= Sources(s.kind)
  }

  /** The stop command has gone out, and the condition for it is not cleared yet. */
  predicate InStop(s: State) {
    s.pc.Reply? || s.pc.ClearStop?
  }

  /** What the statements of the task leave alone, but for the first of a start. */
  lemma TaskKeeps(s: State, t: State)
    requires Task(s, t) && !Begins(s, t)
    ensures t.kind == s.kind && t.handled == s.handled && t.error == s.error
    ensures t.flags == s.flags || (t.flags == Cleared(s.flags) && !s.pc.Start?)
    ensures t.mask == if s.pc == Start(3) then s.mask + Sources(s.kind) else s.mask
    ensures t.pc.Start? ==> s.pc.Start? && s.pc != Start(3)
    ensures s.pc.Start? ==> t.pc.Start? || s.pc == Start(3)
    ensures t.dma == (s.dma && s.pc != ClearDma)
  {
  }

  lemma EnvironmentKeepsInv(s: State, t: State)
    requires Inv(s) && Environment(s, t)
    ensures Inv(t) && t.pc == s.pc && t.stop == s.stop && t.kind == s.kind && t.stops == s.stops && t.waits == s.waits
  {
    hide FirstOf;
    if x :| t == s.(flags := s.flags + {x}) {
    } else if s.flags * s.mask != {} && t == Handle(s) {
      assert s.handled == [];
    }
  }

  lemma StartKeepsInv(s: State, t: State)
    requires Inv(s) && Masked(s, t)
    requires s.pc == Ready || s.pc.Start? || s.pc == Commands
    ensures Inv(t)
  {
  }

  lemma LoopKeepsInv(s: State, t: State)
    requires Inv(s) && Task(s, t) && (s.pc.Poll? || s.pc.ClearDma? || s.pc.Drain?)
    ensures Inv(t) && t.error == s.error
  {
  }

  lemma StopKeepsInv(s: State, t: State)
    requires Inv(s) && Task(s, t) && (s.pc.Stop? || s.pc.Reply?)
    ensures Inv(t) && t.error == s.error
  {
  }

  lemma OutcomeKeepsInv(s: State, t: State)
    requires Inv(s) && Task(s, t) && (s.pc.ClearStop? || s.pc.ClearFlags? || s.pc.Return?)
    ensures Inv(t) && t.error == s.error
  {
  }

  lemma WaitKeepsInv(s: State, t: State)
    requires Inv(s) && Task(s, t)
    requires s.pc != Ready && !s.pc.Start? && s.pc != Commands
    ensures Inv(t) && t.error == s.error
  {
    hide Inv, Task;
    if s.pc.Poll? || s.pc.ClearDma? || s.pc.Drain? {
      LoopKeepsInv(s, t);
    } else if s.pc.Stop? || s.pc.Reply? {
      StopKeepsInv(s, t);
    } else {
      OutcomeKeepsInv(s, t);
    }
  }

  lemma StepKeepsInv(s: State, t: State)
    requires Inv(s) && Step(s, t)
    ensures Inv(t)
  {
    hide Inv, Environment, Task;
    if Environment(s, t) {
      EnvironmentKeepsInv(s, t);
    } else if s.pc == Ready || s.pc.Start? || s.pc == Commands {
      StartKeepsInv(s, t);
    } else {
      WaitKeepsInv(s, t);
    }
  }

  // ---------- what holds of every run ----------

  lemma {:induction false} RunsKeepInv(run: seq<State>, i: nat)
    requires IsRun(run) && i < |run|
    ensures Inv(run[i])
  {
    hide Inv, Step, Initial;
    if i == 0 {
      InitialInv(run[0]);
    } else {
      RunsKeepInv(run, i - 1);
      assert Step(run[i - 1], run[i - 1 + 1]);
      StepKeepsInv(run[i - 1], run[i]);
    }
  }

  lemma InitialInv(s: State)
    requires Initial(s)
    ensures Inv(s)
  {
  }

  /** At any moment of any run: one SDIO interrupt at most has been handled since the last start;
      a transfer is never both over and failed; and the stop command has been sent exactly once
      if a wait has ended since a start for several blocks, and otherwise not. */
  lemma RunsAreSafe(run: seq<State>, i: nat)
    requires IsRun(run) && i < |run|
    ensures |run[i].handled| <= 1
    ensures !(run[i].end && run[i].error != Ok)
    ensures run[i].stops <= 1 && (run[i].stops == 1 ==> Multi(run[i].kind))
    ensures run[i].pc == Ready ==> run[i].stops == if Multi(run[i].kind) && run[i].waits > 0 then 1 else 0
  {
    RunsKeepInv(run, i);
  }

  /** An error stays until the next start. */
  lemma {:induction false} ErrorStays(run: seq<State>, i: nat, j: nat)
    requires IsRun(run) && i <= j < |run| && run[i].error != Ok
    requires forall k :: i <= k < j ==> !Begins(run[k], run[k + 1])
    ensures run[j].error == run[i].error
    decreases j
  {
    hide Inv, Step, Initial;
    if i < j {
      ErrorStays(run, i, j - 1);
      RunsKeepInv(run, j - 1);
      assert Step(run[j - 1], run[j - 1 + 1]) && !Begins(run[j - 1], run[j - 1 + 1]);
      ErrorStaysOneStep(run[j - 1], run[j]);
    }
  }

  lemma ErrorStaysOneStep(s: State, t: State)
    requires Inv(s) && Step(s, t) && !Begins(s, t) && s.error != Ok
    ensures t.error == s.error
  {
    hide FirstOf;
    if Environment(s, t) {
      assert s.flags * s.mask == {};
    }
  }

  /** The result that stands for the error of a source. */
  predicate Names(x: Source, r: Error) {
    && (x == DcrcFail ==> r == DataCrcFail)
    && (x == Dtimeout ==> r == DataTimeout)
    && (x == RxOverr ==> r == RxOverrun)
    && (x == TxUnderr ==> r == TxUnderrun)
    && (x == StbitErr ==> r == StartBitErr)
  }

  /** A wait that ends reports the error of the interrupt that was handled since the start, whenever that was;
      and it reports success exactly if there was none, the stop command did not fail, and the second loop did not
      run out. */
  lemma WaitReports(run: seq<State>, i: nat)
    requires IsRun(run) && i + 1 < |run| && run[i].pc.Return? && run[i + 1].pc == Ready
    ensures var s, r := run[i], run[i + 1].result;
      && (s.handled != [] && s.handled[0] != DataEnd ==> Names(s.handled[0], r))
      && (r == Ok <==> s.handled in {[], [DataEnd]} && s.pc.status == Ok && s.pc.timeout > 0)
  {
    RunsKeepInv(run, i);
    assert Step(run[i], run[i + 1]);
    if Environment(run[i], run[i + 1]) {
      EnvironmentKeepsInv(run[i], run[i + 1]);
      assert false;
    }
    WaitReturns(run[i], run[i + 1]);
  }

  lemma WaitReturns(s: State, t: State)
    requires Inv(s) && s.pc.Return? && Task(s, t)
    ensures s.handled != [] && s.handled[0] != DataEnd ==> Names(s.handled[0], t.result)
    ensures t.result == Ok <==> s.handled in {[], [DataEnd]} && s.pc.status == Ok && s.pc.timeout > 0
  {
    if s.handled != [] {
      assert s.handled == [s.handled[0]];
    }
  }

  lemma {:induction false} KindStays(run: seq<State>, i: nat, j: nat)
    requires IsRun(run) && i <= j < |run| && forall k :: i <= k < j ==> !Begins(run[k], run[k + 1])
    ensures run[j].kind == run[i].kind
    decreases j
  {
    hide Step, Initial;
    if i < j {
      KindStays(run, i, j - 1);
      assert Step(run[j - 1], run[j - 1 + 1]) && !Begins(run[j - 1], run[j - 1 + 1]);
      KindStaysOneStep(run[j - 1], run[j]);
    }
  }

  lemma KindStaysOneStep(s: State, t: State)
    requires Step(s, t) && !Begins(s, t)
    ensures t.kind == s.kind
  {
    hide FirstOf, Task;
    if Task(s, t) {
      TaskKeeps(s, t);
    }
  }

  // ---------- the loops of a wait end ----------

  /** A run told with who takes each step: the task, or others. */
  ghost predicate Told(run: seq<State>, task: seq<bool>) {
    && |run| == |task| + 1
    && forall i :: 0 <= i < |task| ==> if task[i] then Task(run[i], run[i + 1]) else Environment(run[i], run[i + 1])
  }

  /** The two loops of a wait that count a timeout down, and the statement between them. */
  predicate InLoops(pc: Pc) {
    pc.Poll? || pc == ClearDma || pc.Drain?
  }

  /** A bound on the statements that the task still has to run before it is through with them. */
  function Left(pc: Pc): nat {
    match pc
    case Poll(t) => t + SD_DATATIMEOUT + 3
    case ClearDma => SD_DATATIMEOUT + 2
    case Drain(t) => t + 1
    case _ => 0
  }

  /** How many statements the task runs between two moments. */
  function Statements(task: seq<bool>, i: nat, j: nat): nat
    requires i <= j <= |task|
    decreases j
  {
    if i == j then 0 else Statements(task, i, j - 1) + (if task[j - 1] then 1 else 0)
  }

  lemma LeftShrinks(s: State, t: State)
    requires Task(s, t) && InLoops(s.pc)
    ensures Left(t.pc) < Left(s.pc)
  {
  }

  lemma OthersKeepPc(s: State, t: State)
    requires Environment(s, t)
    ensures t.pc == s.pc
  {
    hide FirstOf;
  }

  /** Whatever the interrupts and the peripheral do, the two loops are over after a number of the task's own
      statements that the timeouts bound: each poll uses up one count. */
  lemma {:induction false} LoopsEnd(run: seq<State>, task: seq<bool>, i: nat, j: nat)
    requires Told(run, task) && i <= j < |run| && forall k :: i <= k < j ==> InLoops(run[k].pc)
    ensures Statements(task, i, j) + Left(run[j].pc) <= Left(run[i].pc)
    decreases j
  {
    hide Task, Environment, Left;
    if i < j {
      LoopsEnd(run, task, i, j - 1);
      if task[j - 1] {
        assert Task(run[j - 1], run[j - 1 + 1]);
        LeftShrinks(run[j - 1], run[j]);
      } else {
        assert Environment(run[j - 1], run[j - 1 + 1]);
        OthersKeepPc(run[j - 1], run[j]);
      }
    }
  }

  /** The loops that wait for the reply to a command count nothing: in the commands of a start, and in the stop
      command of a wait, the task can run any number of statements and be where it was. */
  lemma {:induction false} RepliesMayNotCome(run: seq<State>, task: seq<bool>, n: nat)
      returns (longer: seq<State>, task': seq<bool>)
    requires Told(run, task) && (run[|task|].pc == Commands || run[|task|].pc.Reply?)
    ensures Told(longer, task') && run <= longer && task <= task' && longer[|task'|] == run[|task|]
    ensures Statements(task', |task|, |task'|) == n
    decreases n
  {
    hide Environment;
    if n == 0 {
      longer, task' := run, task;
    } else {
      longer, task' := RepliesMayNotCome(run, task, n - 1);
      longer, task' := longer + [longer[|task'|]], task' + [true];
      StatementsAppend(task'[..|task'| - 1], |task|);
      assert task'[..|task'| - 1] + [true] == task';
    }
  }

  lemma StatementsAppend(task: seq<bool>, i: nat)
    requires i <= |task|
    ensures Statements(task + [true], i, |task| + 1) == Statements(task, i, |task|) + 1
  {
    SameStatements(task, task + [true], i, |task|);
  }

  lemma {:induction false} SameStatements(a: seq<bool>, b: seq<bool>, i: nat, j: nat)
    requires i <= j <= |a| && a <= b
    ensures Statements(a, i, j) == Statements(b, i, j)
    decreases j
  {
    if i < j {
      SameStatements(a, b, i, j - 1);
    }
  }

  // ---------- where the guarantees end ----------

  /** Steps in which a start may also be issued while interrupts are enabled. */
  ghost predicate Loosely(run: seq<State>) {
    run != [] && forall i :: 0 <= i < |run| - 1 ==> LooseStep(run[i], run[i + 1])
  }

  ghost predicate LooseStep(s: State, t: State) {
    Environment(s, t) || Task(s, t)
  }

  lemma TaskGoesOn(run: seq<State>, t: State) returns (longer: seq<State>)
    requires Loosely(run) && Task(run[|run| - 1], t)
    ensures Loosely(longer) && run <= longer && |longer| == |run| + 1 && longer[|run|] == t
  {
    hide Task, Environment;
    longer := run + [t];
  }

  lemma OthersGoOn(run: seq<State>, t: State) returns (longer: seq<State>)
    requires Loosely(run) && Environment(run[|run| - 1], t)
    ensures Loosely(longer) && run <= longer && |longer| == |run| + 1 && longer[|run|] == t
  {
    hide Task, Environment;
    longer := run + [t];
  }

  /** Every start that is issued while some interrupt is enabled can end in a transfer
      that is over and failed at once, with two interrupts handled. */
  lemma UnmaskedStartBreaks(s: State, kind: Kind) returns (run: seq<State>)
    requires s.pc == Ready && s.mask != {}
    ensures Loosely(run) && run[0] == s && |run| > 1 && Begins(run[0], run[1]) && run[1].kind == kind
    ensures var t := run[|run| - 1]; t.end && t.error != Ok && |t.handled| == 2
  {
    hide FirstOf, Loosely;
    var x :| x in s.mask;
    Alone(s);
    run := TaskGoesOn([s], Begin(s, kind));
    run := BreaksLater(run, x);
  }

  /** The start clears its variables with interrupt `x` enabled. */
  lemma BreaksLater(run: seq<State>, x: Source) returns (longer: seq<State>)
    requires run != [] && Loosely(run)
    requires var s := run[|run| - 1]; s.pc == Start(1) && x in s.mask && s.handled == []
    ensures Loosely(longer) && run <= longer
    ensures var t := longer[|longer| - 1]; t.end && t.error != Ok && |t.handled| == 2
  {
    hide FirstOf, Loosely, Environment;
    var s1 := run[|run| - 1];
    var s2 := s1.(pc := Start(2), end := false);
    longer := TaskGoesOn(run, s2);
    longer := TaskGoesOn(longer, s2.(pc := Start(3), stop := Multi(s2.kind)));
    longer := EndsEarly(longer, x);
    longer := BreaksNow(longer);
  }

  /** A data end comes, and the handler looks at it first. */
  lemma EndsEarly(run: seq<State>, x: Source) returns (longer: seq<State>)
    requires run != [] && Loosely(run)
    requires var s := run[|run| - 1]; s.pc == Start(3) && x in s.mask && s.handled == []
    ensures longer != [] && Loosely(longer) && run <= longer
    ensures var t := longer[|longer| - 1]; t.pc == Start(3) && t.end && DataEnd !in t.flags && |t.handled| == 1
  {
    hide FirstOf, Loosely, Task;
    var s3 := run[|run| - 1];
    var s4 := s3.(flags := s3.flags + {DataEnd});
    longer := OthersGoOn(run, s4);
    var s5 := s4.(flags := s4.flags + {x});
    longer := OthersGoOn(longer, s5);
    assert x in s5.flags * s5.mask;
    longer := OthersGoOn(longer, Handle(s5));
  }

  /** The data end has been handled, and now the start enables the interrupts. */
  lemma BreaksNow(run: seq<State>) returns (longer: seq<State>)
    requires run != [] && Loosely(run)
    requires var s := run[|run| - 1]; s.pc == Start(3) && s.end && DataEnd !in s.flags && |s.handled| == 1
    ensures Loosely(longer) && run <= longer
    ensures var t := longer[|longer| - 1]; t.end && t.error != Ok && |t.handled| == 2
  {
    hide FirstOf, Loosely;
    var s := run[|run| - 1];
    var s7 := s.(pc := Commands, mask := s.mask + Sources(s.kind));
    longer := TaskGoesOn(run, s7);
    var s8 := s7.(flags := s7.flags + {StbitErr});
    longer := OthersGoOn(longer, s8);
    assert StbitErr in s8.flags * s8.mask;
    longer := OthersGoOn(longer, Handle(s8));
  }

  lemma Alone(s: State)
    ensures Loosely([s])
  {
  }
}
