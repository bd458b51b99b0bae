/** When the SDIO interrupts are enabled, when they are served, and what a wait that succeeds says of its transfer. */
module SdInterrupts {
  import opened SdTransfer

  // ---------- when they are enabled ----------

  /** Some start has been issued before moment `i`. */
  ghost predicate Started(run: seq<State>, i: nat)
    requires i < |run|
  {
    exists k :: 0 <= k < i && Begins(run[k], run[k + 1])
  }

  predicate MaskIsExact(s: State) {
    s.mask == if s.handled == [] && !s.pc.Start? then Sources(s.kind) else {}
  }

  /** From the statements of a start to the next start, the interrupts of its kind are enabled until one of them is
      handled, and none afterwards: whether the commands fail, and whether anybody waits, makes no difference. */
  lemma {:induction false} MaskBetweenStarts(run: seq<State>, i: nat)
    requires IsRun(run) && i < |run| && Started(run, i)
    ensures MaskIsExact(run[i])
  {
    hide Inv, Step, Initial, MaskIsExact;
    var k :| 0 <= k < i && Begins(run[k], run[k + 1]);
    RunsKeepInv(run, i - 1);
    assert Step(run[i - 1], run[i - 1 + 1]);
    if k < i - 1 {
      assert Started(run, i - 1);
      MaskBetweenStarts(run, i - 1);
    }
    MaskStaysExact(run[i - 1], run[i]);
  }

  lemma MaskStaysExact(s: State, t: State)
    requires Inv(s) && Step(s, t) && (MaskIsExact(s) || Begins(s, t))
    ensures MaskIsExact(t)
  {
    hide Environment, Task;
    if Environment(s, t) {
      MaskStaysWithOthers(s, t);
    } else {
      MaskStaysWithTask(s, t);
    }
  }

  lemma MaskStaysWithOthers(s: State, t: State)
    requires Inv(s) && Environment(s, t) && (MaskIsExact(s) || Begins(s, t))
    ensures MaskIsExact(t)
  {
    hide FirstOf;
  }

  lemma MaskStaysWithTask(s: State, t: State)
    requires Inv(s) && Masked(s, t) && (MaskIsExact(s) || Begins(s, t))
    ensures MaskIsExact(t)
  {
    hide Task;
    if !Begins(s, t) {
      TaskKeeps(s, t);
    } else {
      BeginsFrom(s, t);
    }
  }

  lemma BeginsFrom(s: State, t: State)
    requires Task(s, t) && Begins(s, t)
    ensures t == Begin(s, t.kind)
  {
  }

  lemma {:induction false} BeforeAnyStart(run: seq<State>, i: nat)
    requires IsRun(run) && i < |run| && !Started(run, i)
    ensures run[i].mask == {} && run[i].kind == ReadOne && run[i].handled == [] && !run[i].pc.Start?
  {
    hide Step;
    if i > 0 {
      assert !Started(run, i - 1);
      BeforeAnyStart(run, i - 1);
      assert Step(run[i - 1], run[i - 1 + 1]) && !Begins(run[i - 1], run[i - 1 + 1]);
      NoStartYet(run[i - 1], run[i]);
    }
  }

  lemma NoStartYet(s: State, t: State)
    requires Step(s, t) && !Begins(s, t)
    requires s.mask == {} && s.kind == ReadOne && s.handled == [] && !s.pc.Start?
    ensures t.mask == {} && t.kind == ReadOne && t.handled == [] && !t.pc.Start?
  {
    hide FirstOf, Task;
    if Task(s, t) {
      TaskKeeps(s, t);
    }
  }

  /** After the statements of a start and as long as nothing was handled, four interrupts are enabled, and overrun or
      underrun; otherwise none is.  Underrun is for a write of several blocks only. */
  lemma EnabledInterrupts(run: seq<State>, i: nat)
    requires IsRun(run) && i < |run|
    ensures var s := run[i];
      var open := Started(run, i) && !s.pc.Start? && s.handled == [];
      && (DataEnd in s.mask <==> open) && (DcrcFail in s.mask <==> open)
      && (Dtimeout in s.mask <==> open) && (StbitErr in s.mask <==> open)
      && (RxOverr in s.mask <==> open && s.kind != WriteMany)
      && (TxUnderr in s.mask <==> open && s.kind == WriteMany)
  {
    hide IsRun, Started;
    if Started(run, i) {
      MaskBetweenStarts(run, i);
    } else {
      BeforeAnyStart(run, i);
    }
  }

  /** The next start finds the interrupts masked exactly if one was handled since the last start. */
  lemma NextStartIsMasked(run: seq<State>, i: nat)
    requires IsRun(run) && i < |run| && Started(run, i) && run[i].pc == Ready
    ensures run[i].mask == {} <==> |run[i].handled| == 1
  {
    hide IsRun, Started;
    MaskBetweenStarts(run, i);
    RunsKeepInv(run, i);
    assert DataEnd in Sources(run[i].kind);
  }

  /** In every start but the first, one interrupt has been handled since the start before it. */
  ghost predicate EachStartIsHandled(run: seq<State>) {
    forall k :: 0 <= k < |run| - 1 && Begins(run[k], run[k + 1]) && Started(run, k) ==> |run[k].handled| == 1
  }

  /** That is what the guarantees need: of the runs from the beginning in which starts are issued at any time, those
      in which every start finds the interrupts masked are those in which an interrupt is handled between starts. */
  lemma StartsAreMasked(run: seq<State>)
    requires Loosely(run) && Initial(run[0])
    ensures IsRun(run) <==> EachStartIsHandled(run)
  {
    hide Initial, Started, Loosely;
    if IsRun(run) {
      forall k | 0 <= k < |run| - 1 && Begins(run[k], run[k + 1]) && Started(run, k) ensures |run[k].handled| == 1 {
        assert Step(run[k], run[k + 1]);
        BeginsMasked(run[k], run[k + 1]);
        NextStartIsMasked(run, k);
      }
    }
    if EachStartIsHandled(run) {
      HandledThenMasked(run);
    }
  }

  lemma BeginsMasked(s: State, t: State)
    requires Step(s, t) && Begins(s, t)
    ensures s.mask == {}
  {
    hide FirstOf;
  }

  lemma {:induction false} HandledThenMasked(run: seq<State>)
    requires Loosely(run) && Initial(run[0]) && EachStartIsHandled(run)
    ensures IsRun(run)
    decreases |run|
  {
    hide Initial, Started, Environment, Task;
    if |run| > 1 {
      var n := |run| - 2;
      var before := run[..n + 1];
      forall k | 0 <= k < |before| - 1 && Begins(before[k], before[k + 1]) && Started(before, k)
        ensures |before[k].handled| == 1
      {
        SameStarts(run, before, k);
        assert Begins(run[k], run[k + 1]);
      }
      HandledThenMasked(before);
      SameStarts(run, before, n);
      assert LooseStep(run[n], run[n + 1]);
      if Begins(run[n], run[n + 1]) {
        if Started(run, n) {
          NextStartIsMasked(before, n);
        } else {
          BeforeAnyStart(before, n);
        }
      }
      forall i | 0 <= i < |run| - 1 ensures Step(run[i], run[i + 1]) {
        if i < n {
          assert Step(before[i], before[i + 1]);
        }
      }
    }
  }

  lemma SameStarts(run: seq<State>, before: seq<State>, k: nat)
    requires before <= run && k < |before|
    ensures Started(run, k) == Started(before, k)
  {
    hide Begins;
    if Started(run, k) {
      var i :| 0 <= i < k && Begins(run[i], run[i + 1]);
      assert Begins(before[i], before[i + 1]);
    }
    if Started(before, k) {
      var i :| 0 <= i < k && Begins(before[i], before[i + 1]);
      assert Begins(run[i], run[i + 1]);
    }
  }

  // ---------- when they are served ----------

  /** Interrupts preempt the task: it runs a statement only while no enabled interrupt is pending. */
  ghost predicate Statement(s: State, t: State) {
    Masked(s, t) && s.flags * s.mask == {}
  }

  ghost predicate PromptStep(s: State, t: State) {
    Environment(s, t) || Statement(s, t)
  }

  ghost predicate IsPrompt(run: seq<State>) {
    && run != [] && Initial(run[0])
    && forall i :: 0 <= i < |run| - 1 ==> PromptStep(run[i], run[i + 1])
  }

  lemma PromptIsRun(run: seq<State>)
    requires IsPrompt(run)
    ensures IsRun(run)
  {
    hide Initial, Environment, Masked;
    forall i | 0 <= i < |run| - 1 ensures Step(run[i], run[i + 1]) {
      assert PromptStep(run[i], run[i + 1]);
    }
  }

  predicate Pending(s: State) {
    s.flags * s.mask != {}
  }

  /** What is pending stays so until the handler is called. */
  lemma PendingStays(s: State, t: State)
    requires Inv(s) && PromptStep(s, t) && Pending(s)
    ensures t.handled != [] || Pending(t)
    ensures !Begins(s, t)
  {
    hide FirstOf, Masked;
    if x :| t == s.(flags := s.flags + {x}) {
      var y :| y in s.flags * s.mask;
      assert y in t.flags * t.mask;
    }
  }

  lemma HandledStays(s: State, t: State)
    requires Step(s, t) && !Begins(s, t)
    ensures s.handled <= t.handled
    ensures s.handled == [] && t.handled != [] ==> Serves(s, t)
  {
    hide FirstOf, Task;
    if Task(s, t) {
      TaskKeeps(s, t);
    }
  }

  /** The handler is called, for the first time since the start. */
  ghost predicate Serves(s: State, t: State) {
    s.handled == [] && Pending(s) && t == Handle(s)
  }

  /** What may happen up to the task's next statement, and that statement. */
  ghost predicate UpToStatement(c: seq<State>) {
    && |c| >= 2 && Statement(c[|c| - 2], c[|c| - 1])
    && forall i :: 0 <= i < |c| - 2 ==> Environment(c[i], c[i + 1])
  }

  lemma {:induction false} PendingUpTo(c: seq<State>, i: nat)
    requires UpToStatement(c) && i < |c| - 1 && Inv(c[0]) && Pending(c[0])
    ensures Inv(c[i]) && (c[i].handled != [] || Pending(c[i]))
  {
    hide Inv, Environment, Pending, Statement;
    if i > 0 {
      PendingUpTo(c, i - 1);
      assert Environment(c[i - 1], c[i - 1 + 1]);
      EnvironmentKeepsInv(c[i - 1], c[i]);
      if Pending(c[i - 1]) {
        PendingStays(c[i - 1], c[i]);
      } else {
        HandledStaysWithOthers(c[i - 1], c[i]);
      }
    }
  }

  lemma HandledStaysWithOthers(s: State, t: State)
    requires Environment(s, t)
    ensures s.handled <= t.handled
  {
    hide FirstOf;
  }

  /** A flag that comes up after a start, when nothing is pending and nothing was handled, forces a call of the handler
      before the task's next statement if and only if it is one of those that the start enables. */
  lemma FlagForcesHandler(run: seq<State>, i: nat, x: Source)
    requires IsPrompt(run) && i < |run| && Started(run, i)
    requires !run[i].pc.Start? && run[i].handled == [] && !Pending(run[i])
    ensures var t := run[i].(flags := run[i].flags + {x});
      (forall c: seq<State> :: UpToStatement(c) && c[0] == t ==> c[|c| - 2].handled != [])
      <==> x in Sources(run[i].kind)
  {
    hide IsPrompt, IsRun, Started, Inv, Environment, Masked;
    var s := run[i];
    var t := s.(flags := s.flags + {x});
    PromptIsRun(run);
    RunsKeepInv(run, i);
    MaskBetweenStarts(run, i);
    RaiseKeepsInv(s, x);
    if x in Sources(s.kind) {
      assert x in t.flags * t.mask;
      forall c: seq<State> | UpToStatement(c) && c[0] == t ensures c[|c| - 2].handled != [] {
        PendingUpTo(c, |c| - 2);
      }
    } else {
      assert t.flags * t.mask == s.flags * s.mask;
      var u := SomeStatement(t);
      assert UpToStatement([t, u]);
    }
  }

  lemma RaiseKeepsInv(s: State, x: Source)
    requires Inv(s)
    ensures Inv(s.(flags := s.flags + {x}))
  {
    EnvironmentKeepsInv(s, s.(flags := s.flags + {x}));
  }

  /** The task can always go on. */
  lemma SomeStatement(s: State) returns (t: State)
    requires Inv(s) && !s.pc.Start?
    ensures Masked(s, t)
  {
    match s.pc
    case Ready => t := s.(pc := Poll(SD_DATATIMEOUT));
    case Commands => t := s;
    case Poll(timeout) =>
      t := if !s.dma && !s.end && s.error == Ok && timeout > 0 then s.(pc := Poll(timeout - 1)) else s.(pc := ClearDma);
    case ClearDma => t := s.(pc := Drain(SD_DATATIMEOUT), dma := false);
    case Drain(timeout) => t := s.(pc := Stop(timeout));
    case Stop(timeout) =>
      t := if s.stop then s.(pc := Reply(timeout), stops := s.stops + 1) else s.(pc := ClearFlags(timeout, Ok));
    case Reply(timeout) => t := s;
    case ClearStop(timeout, status) => t := s.(pc := ClearFlags(timeout, status), stop := false);
    case ClearFlags(timeout, status) => t := s.(pc := Return(timeout, status), flags := Cleared(s.flags));
    case Return(timeout, status) =>
      t := s.(pc := Ready, result := Outcome(s.error, timeout, status), waits := s.waits + 1);
  }

  // ---------- what a wait reports of the flags that came up ----------

  /** A start at `b`, and no other up to moment `j`. */
  ghost predicate InTransfer(run: seq<State>, b: nat, j: nat) {
    b < j < |run| && Begins(run[b], run[b + 1]) && forall k :: b < k < j ==> !Begins(run[k], run[k + 1])
  }

  lemma Within(run: seq<State>, b: nat, m: nat, j: nat)
    requires IsRun(run) && InTransfer(run, b, j) && b < m <= j
    ensures InTransfer(run, b, m) && Started(run, m) && Inv(run[m]) && MaskIsExact(run[m])
    ensures run[m].kind == run[b + 1].kind && (m < j ==> Step(run[m], run[m + 1]) && !Begins(run[m], run[m + 1]))
  {
    hide Inv, Step, Initial, MaskIsExact;
    RunsKeepInv(run, m);
    MaskBetweenStarts(run, m);
    KindStays(run, b + 1, m);
  }

  lemma {:induction false} HandledSince(run: seq<State>, b: nat, m: nat, j: nat)
    requires IsRun(run) && InTransfer(run, b, j) && b < m <= j
    ensures run[m].handled <= run[j].handled
    decreases j
  {
    hide IsRun, Begins, Inv, Step, MaskIsExact, Started;
    if m < j {
      Within(run, b, j - 1, j);
      HandledSince(run, b, m, j - 1);
      HandledStays(run[j - 1], run[j - 1 + 1]);
    }
  }

  /** What was handled since the start was handled at some moment. */
  lemma {:induction false} WhenHandled(run: seq<State>, b: nat, j: nat) returns (h: nat)
    requires IsRun(run) && InTransfer(run, b, j) && run[j].handled != []
    ensures b < h < j && Serves(run[h], run[h + 1]) && run[j].handled == [FirstOf(run[h].flags)]
    decreases j
  {
    hide IsRun, Inv, Step, MaskIsExact, Started, FirstOf, Settled;
    if j == b + 1 {
      BeginsAfresh(run, b);
      assert false;
    }
    Within(run, b, j - 1, j);
    Within(run, b, j, j);
    HandledStays(run[j - 1], run[j - 1 + 1]);
    AtMostOne(run[j]);
    if run[j - 1].handled == [] {
      h := j - 1;
    } else {
      h := WhenHandled(run, b, j - 1);
    }
  }

  lemma BeginsAfresh(run: seq<State>, b: nat)
    requires IsRun(run) && b < |run| - 1 && Begins(run[b], run[b + 1])
    ensures run[b + 1] == Begin(run[b], run[b + 1].kind) && run[b].mask == {}
  {
    hide Initial, FirstOf;
    assert Step(run[b], run[b + 1]);
  }

  lemma AtMostOne(s: State)
    requires Inv(s)
    ensures |s.handled| <= 1 && (s.handled == [] ==> s.error == Ok && (!s.pc.Start? ==> !s.end))
    ensures s.handled != [] ==> s.error == ErrorOf(s.handled[0]) || s.pc.Start?
    ensures s.pc.Start? ==> s.handled == [] && s.mask == {}
  {
  }

  /** An error is there exactly if the first call of the handler since the start found no data end among the flags. */
  lemma ErrorIsFirst(run: seq<State>, b: nat, j: nat)
    requires IsRun(run) && InTransfer(run, b, j)
    ensures run[j].error != Ok <==> exists h :: b < h < j && Serves(run[h], run[h + 1]) && DataEnd !in run[h].flags
  {
    hide IsRun, Begins, Inv, Step, MaskIsExact, Started, FirstOf;
    Within(run, b, j, j);
    AtMostOne(run[j]);
    if run[j].handled != [] {
      var h := WhenHandled(run, b, j);
      if h' :| b < h' < j && Serves(run[h'], run[h' + 1]) && DataEnd !in run[h'].flags {
        OnlyOnce(run, b, h, h', j);
      }
    } else if h :| b < h < j && Serves(run[h], run[h + 1]) {
      assert InTransfer(run, b, j);
      HandledSince(run, b, h + 1, j);
    }
  }

  lemma OnlyOnce(run: seq<State>, b: nat, h: nat, h': nat, j: nat)
    requires IsRun(run) && InTransfer(run, b, j) && b < h < j && b < h' < j
    requires Serves(run[h], run[h + 1]) && Serves(run[h'], run[h' + 1])
    ensures h == h'
  {
    hide IsRun, InTransfer, FirstOf;
    if h < h' {
      assert InTransfer(run, b, h') by { Within(run, b, h', j); }
      HandledSince(run, b, h + 1, h');
    } else if h' < h {
      assert InTransfer(run, b, h) by { Within(run, b, h, j); }
      HandledSince(run, b, h' + 1, h);
    }
  }

  /** At a statement of the task, nothing has been handled since the start exactly if none of the flags that the start
      enables ever came up after its statements. */
  lemma HandledIffRaised(run: seq<State>, b: nat, j: nat)
    requires IsPrompt(run) && InTransfer(run, b, j) && !Pending(run[j])
    ensures run[j].handled == [] <==>
      forall m :: b < m <= j && !run[m].pc.Start? && run[m].handled == [] ==> run[m].flags * Sources(run[m].kind) == {}
  {
    hide IsPrompt, IsRun, Begins, Inv, Started, FirstOf, Step;
    PromptIsRun(run);
    if run[j].handled == [] {
      forall m | b < m <= j && !run[m].pc.Start? && run[m].handled == []
        ensures run[m].flags * Sources(run[m].kind) == {}
      {
        Within(run, b, m, j);
        if Pending(run[m]) {
          PendingUntil(run, b, m, j);
        }
      }
    } else {
      var h := WhenHandled(run, b, j);
      Within(run, b, h, j);
      AtMostOne(run[h]);
    }
  }

  lemma {:induction false} PendingUntil(run: seq<State>, b: nat, m: nat, j: nat)
    requires IsPrompt(run) && InTransfer(run, b, j) && b < m <= j && Pending(run[m])
    ensures run[j].handled != [] || Pending(run[j])
    decreases j
  {
    hide Initial, Begins, Inv, Step, PromptStep, MaskIsExact, Started, Pending;
    PromptIsRun(run);
    if m < j {
      Within(run, b, j - 1, j);
      PendingUntil(run, b, m, j - 1);
      assert PromptStep(run[j - 1], run[j - 1 + 1]);
      if Pending(run[j - 1]) {
        PendingStays(run[j - 1], run[j]);
      } else {
        HandledStays(run[j - 1], run[j - 1 + 1]);
      }
    }
  }

  /** If one source alone comes up, whenever that is after the statements of the start, the transfer notices it
      exactly if the start enables it.  An underrun is noticed exactly by a write of several blocks. */
  lemma LoneFlagIsNoticed(run: seq<State>, b: nat, m: nat, j: nat, x: Source)
    requires IsPrompt(run) && InTransfer(run, b, j) && !Pending(run[j])
    requires b < m <= j && x in run[m].flags && !run[m].pc.Start?
    requires forall k :: b < k <= j ==> run[k].flags <= {x}
    ensures run[j].handled == if x in Sources(run[b + 1].kind) then [x] else []
  {
    hide IsPrompt, IsRun, Inv, Started, FirstOf, Step, Begins;
    PromptIsRun(run);
    if run[j].handled != [] {
      var h := WhenHandled(run, b, j);
      Within(run, b, h, j);
      assert run[h].flags <= {x};
      assert FirstOf(run[h].flags) == x by { assert FirstOf(run[h].flags) in run[h].flags; }
      assert x in run[h].mask;
    } else {
      HandledIffRaised(run, b, j);
      HandledSince(run, b, m, j);
      Within(run, b, m, j);
      assert x !in run[m].flags * Sources(run[m].kind);
    }
  }

  /** What the wait returns then. */
  lemma LoneErrorIsReported(run: seq<State>, b: nat, m: nat, j: nat, x: Source)
    requires IsPrompt(run) && InTransfer(run, b, j) && b < m <= j && x in run[m].flags && !run[m].pc.Start?
    requires forall k :: b < k <= j ==> run[k].flags <= {x}
    requires x != DataEnd && j + 1 < |run| && run[j].pc.Return? && run[j + 1].pc == Ready
    ensures if x in Sources(run[b + 1].kind) then Names(x, run[j + 1].result)
            else run[j + 1].result == Ok <==> run[j].pc.status == Ok && run[j].pc.timeout > 0
  {
    hide IsPrompt, IsRun, InTransfer, ErrorOf, Task, Environment;
    PromptIsRun(run);
    ReturnIsStatement(run, j);
    LoneFlagIsNoticed(run, b, m, j, x);
    WaitReports(run, j);
  }

  lemma ReturnIsStatement(run: seq<State>, j: nat)
    requires IsPrompt(run) && j + 1 < |run| && run[j].pc.Return? && run[j + 1].pc == Ready
    ensures Statement(run[j], run[j + 1])
  {
    hide Initial, Masked, FirstOf;
    assert PromptStep(run[j], run[j + 1]);
  }

  // ---------- flags that are left over ----------

  /** Nothing but the handler clears a start-bit error. */
  lemma {:induction false} StartBitErrorStays(run: seq<State>, i: nat, j: nat)
    requires IsRun(run) && i <= j < |run| && StbitErr in run[i].flags
    ensures StbitErr in run[j].flags || exists h :: i <= h < j && Takes(run[h], run[h + 1], StbitErr)
    decreases j
  {
    hide Initial, Step, Takes;
    if i < j {
      StartBitErrorStays(run, i, j - 1);
      assert Step(run[j - 1], run[j - 1 + 1]);
      if StbitErr in run[j - 1].flags && StbitErr !in run[j].flags {
        OnlyHandlerTakes(run[j - 1], run[j - 1 + 1]);
      }
    }
  }

  ghost predicate Takes(s: State, t: State, x: Source) {
    Pending(s) && t == Handle(s) && FirstOf(s.flags) == x
  }

  lemma TaskKeepsFlags(s: State, t: State)
    requires Task(s, t)
    ensures t.flags == s.flags || t.flags == Cleared(s.flags)
    ensures t.dma == (s.dma && s.pc != ClearDma)
  {
    hide Task;
    if Begins(s, t) {
      BeginsFrom(s, t);
    } else {
      TaskKeeps(s, t);
    }
  }

  lemma OnlyHandlerTakes(s: State, t: State)
    requires Step(s, t) && StbitErr in s.flags && StbitErr !in t.flags
    ensures Takes(s, t, StbitErr)
  {
    hide FirstOf, Task;
    if Task(s, t) {
      TaskKeepsFlags(s, t);
    }
  }

  /** The statements of a start leave the flags alone. */
  lemma {:induction false} LeavesStart(run: seq<State>, b: nat, j: nat) returns (m: nat)
    requires IsRun(run) && InTransfer(run, b, j)
    ensures b < m <= j && run[m].handled == [] && run[b].flags <= run[m].flags
    ensures run[m].pc.Start? ==> m == j
    decreases j
  {
    hide IsRun, Inv, Step, MaskIsExact, Started;
    if j == b + 1 {
      BeginsAfresh(run, b);
      m := j;
    } else {
      Within(run, b, j - 1, j);
      m := LeavesStart(run, b, j - 1);
      if run[m].pc.Start? {
        AtMostOne(run[m]);
        StartKeepsFlags(run[m], run[m + 1]);
        m := j;
      }
    }
  }

  lemma StartKeepsFlags(s: State, t: State)
    requires Step(s, t) && s.pc.Start? && s.mask == {} && s.handled == []
    ensures s.flags <= t.flags && t.handled == []
  {
    hide FirstOf, Task;
    if Task(s, t) {
      TaskKeeps(s, t);
    }
  }

  /** A flag that is up when a start that enables it is issued is handled before anything of the transfer is waited
      for: the wait succeeds only if the handler finds a data end as well. */
  lemma LeftoverIsServed(run: seq<State>, b: nat, j: nat)
    requires IsPrompt(run) && InTransfer(run, b, j) && j + 1 < |run| && run[j].pc.Return? && run[j + 1].pc == Ready
    requires run[b].flags * Sources(run[b + 1].kind) != {}
    ensures run[j].handled != [] && (run[j + 1].result == Ok ==> run[j].handled == [DataEnd])
  {
    hide IsPrompt, IsRun, InTransfer, Inv, Started, Task, Environment;
    PromptIsRun(run);
    ReturnIsStatement(run, j);
    var m := LeavesStart(run, b, j);
    Within(run, b, m, j);
    HandledIffRaised(run, b, j);
    var x :| x in run[b].flags * Sources(run[b + 1].kind);
    assert x in run[m].flags * Sources(run[m].kind);
    WaitReports(run, j);
  }

  // ---------- what success says of the transfer ----------

  /** The DMA interrupt sets its flag. */
  ghost predicate Rises(s: State, t: State) {
    !s.dma && t == s.(dma := true)
  }

  lemma {:induction false} DmaRises(run: seq<State>, i: nat, j: nat) returns (m: nat)
    requires IsRun(run) && i <= j < |run| && !run[i].dma && run[j].dma
    ensures i <= m < j && Rises(run[m], run[m + 1])
    decreases j
  {
    hide Step, Initial;
    if run[j - 1].dma {
      m := DmaRises(run, i, j - 1);
    } else {
      assert Step(run[j - 1], run[j - 1 + 1]);
      OnlyDmaRaises(run[j - 1], run[j - 1 + 1]);
      m := j - 1;
    }
  }

  lemma OnlyDmaRaises(s: State, t: State)
    requires Step(s, t) && !s.dma && t.dma
    ensures Rises(s, t)
  {
    hide FirstOf, Task;
    if Task(s, t) {
      TaskKeepsFlags(s, t);
    }
  }

  predicate LeavesPoll(s: State, t: State) {
    s.pc.Poll? && t.pc == ClearDma
  }

  /** A wait that returns success at the end of the transfer, and left its first loop at moment `p`. */
  ghost predicate Succeeds(run: seq<State>, b: nat, p: nat, j: nat) {
    && b < p < j && j + 1 < |run| && InTransfer(run, b, j)
    && LeavesPoll(run[p], run[p + 1]) && run[j].pc.Return? && run[j + 1].pc == Ready && run[j + 1].result == Ok
  }

  /** A wait that succeeds when nothing was handled left its first loop because of the DMA flag or because it ran out;
      and if the flag was clear at the start and the loop did not run out, the DMA interrupt came after the start. */
  lemma SuccessIsEarned(run: seq<State>, b: nat, p: nat, j: nat)
    requires IsRun(run) && Succeeds(run, b, p, j)
    ensures run[j].handled == [DataEnd]
         || (run[j].handled == [] && (run[p].dma || run[p].pc == Poll(0)))
    ensures run[j].handled == [] && !run[b].dma && run[p].pc != Poll(0) ==>
      exists m :: b <= m < p && Rises(run[m], run[m + 1])
  {
    hide IsRun, InTransfer, Inv, Step, MaskIsExact, Started;
    WaitReports(run, j);
    if run[j].handled == [] {
      HandledSince(run, b, p, j);
      Within(run, b, p, j);
      AtMostOne(run[p]);
      LoopEndsOn(run[p], run[p + 1]);
      if !run[b].dma && run[p].dma {
        var m := DmaRises(run, b, p);
      }
    }
  }

  lemma LoopEndsOn(s: State, t: State)
    requires Step(s, t) && LeavesPoll(s, t)
    ensures s.dma || s.end || s.error != Ok || s.pc == Poll(0)
  {
    hide FirstOf;
  }

  /** Only a wait clears the DMA flag; no start does. */
  lemma {:induction false} OnlyWaitsClear(run: seq<State>, i: nat, j: nat)
    requires IsRun(run) && i <= j < |run| && run[i].dma
    requires forall k :: i <= k < j ==> run[k].pc != ClearDma
    ensures run[j].dma
    decreases j
  {
    hide Step, Initial;
    if i < j {
      OnlyWaitsClear(run, i, j - 1);
      assert Step(run[j - 1], run[j - 1 + 1]);
      DmaStays(run[j - 1], run[j]);
    }
  }

  lemma DmaStays(s: State, t: State)
    requires Step(s, t) && s.dma && s.pc != ClearDma
    ensures t.dma
  {
    hide FirstOf, Task;
    if Task(s, t) {
      TaskKeepsFlags(s, t);
    }
  }

  /** Success of a single-block or multi-block transfer that was issued as it should be at the end of `run`, although
      no data end was handled, the DMA interrupt did not come, and the first loop of the wait did not run out. */
  ghost predicate Unearned(run: seq<State>, kind: Kind, longer: seq<State>, p: nat, j: nat) {
    && run != [] && IsPrompt(longer) && run <= longer && Succeeds(longer, |run| - 1, p, j)
    && longer[|run|].kind == kind && longer[j].handled == [] && longer[p].pc != Poll(0)
    && forall m :: |run| - 1 <= m < p ==> !Rises(longer[m], longer[m + 1])
  }

  /** A transfer that finds no flag up can succeed in that way exactly if the DMA flag is still set when it starts. */
  lemma SuccessWithoutTransfer(run: seq<State>, kind: Kind)
    requires run != [] && IsPrompt(run)
    requires var s := run[|run| - 1]; s.pc == Ready && s.mask == {} && s.flags * Sources(kind) == {}
    ensures (exists longer, p, j :: Unearned(run, kind, longer, p, j)) <==> run[|run| - 1].dma
  {
    hide IsPrompt, IsRun, Rises, InTransfer;
    if longer, p, j :| Unearned(run, kind, longer, p, j) {
      PromptIsRun(longer);
      SuccessIsEarned(longer, |run| - 1, p, j);
    }
    if run[|run| - 1].dma {
      var longer, p, j := StaleFlagSucceeds(run, kind);
    }
  }

  // ---------- runs in which little happens ----------

  /** From the end of `run` on the task has gone on alone, and issued no start. */
  ghost predicate GoesOn(run: seq<State>, longer: seq<State>) {
    && run != [] && run <= longer && IsPrompt(longer)
    && forall k :: |run| - 1 <= k < |longer| - 1 ==>
         Statement(longer[k], longer[k + 1]) && !Begins(longer[k], longer[k + 1])
  }

  lemma GoesOnNot(run: seq<State>)
    requires IsPrompt(run)
    ensures GoesOn(run, run)
  {
  }

  lemma GoesOnBy(run: seq<State>, longer: seq<State>, t: State) returns (longest: seq<State>)
    requires GoesOn(run, longer)
    requires Statement(longer[|longer| - 1], t) && !Begins(longer[|longer| - 1], t)
    ensures longest == longer + [t] && GoesOn(run, longest)
  {
    hide Initial, Statement, Environment, Begins;
    longest := longer + [t];
  }

  lemma GoesOnFurther(run: seq<State>, longer: seq<State>, longest: seq<State>)
    requires GoesOn(run, longer) && GoesOn(longer, longest)
    ensures GoesOn(run, longest)
  {
    hide IsPrompt, Statement, Begins;
    forall k | |run| - 1 <= k < |longest| - 1
      ensures Statement(longest[k], longest[k + 1]) && !Begins(longest[k], longest[k + 1])
    {
      if k < |longer| - 1 {
        assert Statement(longer[k], longer[k + 1]) && !Begins(longer[k], longer[k + 1]);
      }
    }
  }

  lemma Happens(run: seq<State>, t: State) returns (longer: seq<State>)
    requires IsPrompt(run) && PromptStep(run[|run| - 1], t)
    ensures longer == run + [t] && IsPrompt(longer)
  {
    hide Initial, PromptStep;
    longer := run + [t];
  }

  /** A start in which nothing happens, up to the statement that enables the interrupts. */
  lemma QuietStart(run: seq<State>, kind: Kind) returns (longer: seq<State>)
    requires run != [] && IsPrompt(run) && run[|run| - 1].pc == Ready && run[|run| - 1].mask == {}
    ensures run < longer && longer[|run|] == Begin(run[|run| - 1], kind) && Begins(longer[|run| - 1], longer[|run|])
    ensures IsPrompt(longer[..|run| + 1]) && GoesOn(longer[..|run| + 1], longer)
    ensures longer[|longer| - 1] == Begin(run[|run| - 1], kind).(
      pc := Commands, end := false, stop := Multi(kind), mask := Sources(kind))
  {
    hide IsPrompt, Environment, Sources;
    var s1 := Begin(run[|run| - 1], kind);
    var begun := Happens(run, s1);
    GoesOnNot(begun);
    var s2 := s1.(pc := Start(2), end := false);
    longer := GoesOnBy(begun, begun, s2);
    var s3 := s2.(pc := Start(3), stop := Multi(kind));
    longer := GoesOnBy(begun, longer, s3);
    longer := GoesOnBy(begun, longer, s3.(pc := Commands, mask := Sources(kind)));
    assert longer[..|run| + 1] == begun;
  }

  /** The rest of a wait, with the stop command if it is due, in which nothing happens. */
  lemma QuietEnd(run: seq<State>) returns (longer: seq<State>)
    requires run != [] && IsPrompt(run) && run[|run| - 1].pc == ClearDma && !Pending(run[|run| - 1])
    ensures GoesOn(run, longer) && |longer| >= |run| + 2 && longer[|longer| - 2].pc.Return?
    ensures var s, t := run[|run| - 1], longer[|longer| - 1];
      && t.pc == Ready && t.mask == s.mask && t.flags == Cleared(s.flags) && !t.dma && t.handled == s.handled
      && t.error == t.result == s.error && t.end == s.end && t.kind == s.kind && t.waits == s.waits + 1
      && longer[|longer| - 2].handled == s.handled
  {
    hide IsPrompt, Environment;
    var s := run[|run| - 1];
    GoesOnNot(run);
    var s1 := s.(pc := Drain(SD_DATATIMEOUT), dma := false);
    longer := GoesOnBy(run, run, s1);
    var s2 := s1.(pc := Stop(SD_DATATIMEOUT));
    longer := GoesOnBy(run, longer, s2);
    var s3 := s2;
    if s2.stop {
      longer, s3 := QuietStop(run, longer);
    } else {
      s3 := s2.(pc := ClearFlags(SD_DATATIMEOUT, Ok));
      longer := GoesOnBy(run, longer, s3);
    }
    var s4 := s3.(pc := Return(SD_DATATIMEOUT, Ok), flags := Cleared(s3.flags));
    longer := GoesOnBy(run, longer, s4);
    longer := GoesOnBy(run, longer, s4.(pc := Ready, result := s4.error, waits := s4.waits + 1));
  }

  lemma QuietStop(run: seq<State>, before: seq<State>) returns (longer: seq<State>, t: State)
    requires before != [] && GoesOn(run, before)
    requires var s := before[|before| - 1]; s.pc == Stop(SD_DATATIMEOUT) && s.stop && !Pending(s)
    ensures longer != [] && GoesOn(run, longer) && before <= longer && t == longer[|longer| - 1]
    ensures var s := before[|before| - 1];
      t == s.(pc := ClearFlags(SD_DATATIMEOUT, Ok), stop := false, stops := s.stops + 1, flags := Cleared(s.flags))
  {
    hide IsPrompt, Environment, GoesOn;
    var s := before[|before| - 1];
    var s1 := s.(pc := Reply(SD_DATATIMEOUT), stops := s.stops + 1);
    longer := GoesOnBy(run, before, s1);
    var s2 := s1.(pc := ClearStop(SD_DATATIMEOUT, Ok), flags := Cleared(s1.flags));
    longer := GoesOnBy(run, longer, s2);
    t := s2.(pc := ClearFlags(SD_DATATIMEOUT, Ok), stop := false);
    longer := GoesOnBy(run, longer, t);
  }

  /** The whole of a wait whose first loop ends at once. */
  lemma QuietWait(run: seq<State>, before: seq<State>) returns (longer: seq<State>, p: nat)
    requires run != [] && run <= before && GoesOn(run, before)
    requires var s := before[|before| - 1];
      s.pc.Poll? && !Pending(s) && (s.dma || s.end || s.error != Ok || s.pc == Poll(0))
    ensures GoesOn(run, longer) && before < longer && p == |before| - 1 < |longer| - 3
    ensures LeavesPoll(longer[p], longer[p + 1]) && longer[|longer| - 2].pc.Return?
    ensures var s, t := before[|before| - 1], longer[|longer| - 1];
      && t.pc == Ready && t.mask == s.mask && t.flags == Cleared(s.flags) && t.handled == s.handled && !t.dma
      && t.error == t.result == s.error && t.end == s.end && t.kind == s.kind && t.waits == s.waits + 1
      && longer[|longer| - 2].handled == s.handled
  {
    hide IsPrompt, Environment;
    p := |before| - 1;
    var left := GoesOnBy(run, before, before[p].(pc := ClearDma));
    longer := QuietEnd(left);
    GoesOnFurther(run, left, longer);
  }

  lemma TaskNeverRaises(s: State, t: State)
    requires Statement(s, t)
    ensures !Rises(s, t)
  {
  }

  /** The first loop of a wait in which nothing happens counts all the way down. */
  lemma {:induction false} CountDown(run: seq<State>, before: seq<State>) returns (longer: seq<State>)
    requires before != [] && GoesOn(run, before)
    requires var s := before[|before| - 1]; s.pc.Poll? && !Pending(s) && !s.dma && !s.end && s.error == Ok
    ensures GoesOn(run, longer) && before <= longer && longer != []
    ensures longer[|longer| - 1] == before[|before| - 1].(pc := Poll(0))
    ensures |longer| == |before| + before[|before| - 1].pc.timeout
    decreases before[|before| - 1].pc.timeout
  {
    hide IsPrompt, Environment, GoesOn;
    var s := before[|before| - 1];
    if s.pc.timeout == 0 {
      longer := before;
    } else {
      longer := GoesOnBy(run, before, s.(pc := Poll(s.pc.timeout - 1)));
      longer := CountDown(run, longer);
    }
  }

  // ---------- what can be reached from the beginning ----------

  lemma Beginning(s: State)
    requires Initial(s)
    ensures IsPrompt([s])
  {
  }

  /** A start that is issued as it should be, but whose commands end before anything is transferred,
      leaves the interrupts enabled behind it. */
  lemma StartLeavesUnmasked(s: State, kind: Kind) returns (run: seq<State>)
    requires Initial(s)
    ensures run != [] && run[0] == s && run[|run| - 1].pc == Ready && run[|run| - 1].mask == Sources(kind) != {}
    ensures s.flags * Sources(kind) == {} ==> IsPrompt(run)
    ensures IsRun(run)
  {
    hide IsPrompt, IsRun, GoesOn, Environment, Begins;
    Beginning(s);
    var started := QuietStart([s], kind);
    GoesOnIsPrompt(started[..2], started);
    PromptIsRun(started);
    assert DataEnd in Sources(kind);
    var t := started[|started| - 1].(pc := Ready);
    run := started + [t];
    CommandsEnd(started[|started| - 1]);
    RunsOn(started, t);
    if s.flags * Sources(kind) == {} {
      var same := Happens(started, t);
    }
  }

  lemma CommandsEnd(s: State)
    requires s.pc == Commands
    ensures Masked(s, s.(pc := Ready))
  {
  }

  lemma GoesOnIsPrompt(run: seq<State>, longer: seq<State>)
    requires GoesOn(run, longer)
    ensures longer != [] && IsPrompt(longer)
  {
  }

  lemma RunsOn(run: seq<State>, t: State)
    requires run != [] && IsRun(run) && Step(run[|run| - 1], t)
    ensures IsRun(run + [t])
  {
    hide Initial, Step;
  }

  /** After a wait that succeeds the next start finds the interrupts masked exactly if a data end was handled. */
  lemma MaskAfterSuccess(run: seq<State>, b: nat, p: nat, j: nat)
    requires IsRun(run) && Succeeds(run, b, p, j)
    ensures run[j + 1].mask == {} <==> run[j].handled == [DataEnd]
    ensures run[j + 1].handled == run[j].handled
  {
    hide IsRun, Inv, Started, Sources;
    WaitReports(run, j);
    Within(run, b, j, j);
    ReturnKeeps(run, j);
    assert DataEnd in Sources(run[j].kind) by { SourcesOf(run[j].kind); }
  }

  lemma SourcesOf(kind: Kind)
    ensures DataEnd in Sources(kind) && StbitErr in Sources(kind)
    ensures TxUnderr in Sources(kind) <==> kind == WriteMany
    ensures RxOverr in Sources(kind) <==> kind != WriteMany
  {
  }

  lemma ReturnKeeps(run: seq<State>, j: nat)
    requires IsRun(run) && j + 1 < |run| && run[j].pc.Return? && run[j + 1].pc == Ready
    ensures run[j + 1].mask == run[j].mask && run[j + 1].handled == run[j].handled && run[j + 1].kind == run[j].kind
    ensures !run[j].pc.Start?
  {
    hide Initial, FirstOf;
    assert Step(run[j], run[j + 1]);
  }

  lemma Raised(run: seq<State>, x: Source) returns (longer: seq<State>)
    requires run != [] && IsPrompt(run)
    ensures longer == run + [run[|run| - 1].(flags := run[|run| - 1].flags + {x})] && IsPrompt(longer)
  {
    hide Initial, Statement;
    longer := run + [run[|run| - 1].(flags := run[|run| - 1].flags + {x})];
  }

  lemma DmaComes(run: seq<State>) returns (longer: seq<State>)
    requires run != [] && IsPrompt(run)
    ensures longer == run + [run[|run| - 1].(dma := true)] && IsPrompt(longer)
  {
    hide Initial, Statement;
    longer := run + [run[|run| - 1].(dma := true)];
  }

  lemma HandlerComes(run: seq<State>) returns (longer: seq<State>)
    requires run != [] && IsPrompt(run) && Pending(run[|run| - 1])
    ensures longer == run + [Handle(run[|run| - 1])] && IsPrompt(longer)
  {
    hide Initial, Statement;
    longer := run + [Handle(run[|run| - 1])];
  }

  /** From moment `b` on nothing comes up and no DMA interrupt comes: there are only the task's statements and the
      handler. */
  ghost predicate NothingComesUp(run: seq<State>, b: nat) {
    forall k :: b <= k < |run| - 1 ==> Statement(run[k], run[k + 1]) || Serves(run[k], run[k + 1])
  }

  /** A transfer that begins at the end of `run` has come to the end of `longer`. */
  ghost predicate Underway(b: nat, longer: seq<State>) {
    |longer| > b + 1 && IsPrompt(longer) && InTransfer(longer, b, |longer| - 1)
  }

  lemma UnderwayOn(b: nat, run: seq<State>, longer: seq<State>)
    requires Underway(b, run) && GoesOn(run, longer)
    ensures Underway(b, longer)
    ensures NothingComesUp(run, b) ==> NothingComesUp(longer, b)
  {
    hide IsPrompt, Statement, Serves;
    forall k | b < k < |longer| - 1 ensures !Begins(longer[k], longer[k + 1]) {
      if k < |run| - 1 {
        assert !Begins(run[k], run[k + 1]);
      }
    }
    if NothingComesUp(run, b) {
      forall k | b <= k < |longer| - 1 ensures Statement(longer[k], longer[k + 1]) || Serves(longer[k], longer[k + 1]) {
        if k < |run| - 1 {
          assert Statement(run[k], run[k + 1]) || Serves(run[k], run[k + 1]);
        }
      }
    }
  }

  lemma UnderwayBy(b: nat, run: seq<State>, longer: seq<State>)
    requires Underway(b, run) && IsPrompt(longer) && run < longer && |longer| == |run| + 1
    requires !Begins(run[|run| - 1], longer[|run|])
    ensures Underway(b, longer)
    ensures NothingComesUp(run, b) && Serves(run[|run| - 1], longer[|run|]) ==> NothingComesUp(longer, b)
  {
    hide IsPrompt, Statement, Serves;
    forall k | b < k < |longer| - 1 ensures !Begins(longer[k], longer[k + 1]) {
      if k < |run| - 1 {
        assert !Begins(run[k], run[k + 1]);
      }
    }
    if NothingComesUp(run, b) && Serves(run[|run| - 1], longer[|run|]) {
      forall k | b <= k < |longer| - 1 ensures Statement(longer[k], longer[k + 1]) || Serves(longer[k], longer[k + 1]) {
        if k < |run| - 1 {
          assert Statement(run[k], run[k + 1]) || Serves(run[k], run[k + 1]);
        }
      }
    }
  }

  /** A quiet start, at the end of `run`, has come to its commands. */
  lemma StartsUnderway(run: seq<State>, kind: Kind) returns (longer: seq<State>)
    requires run != [] && IsPrompt(run) && run[|run| - 1].pc == Ready && run[|run| - 1].mask == {}
    ensures run < longer && Underway(|run| - 1, longer) && longer[|run|].kind == kind
    ensures NothingComesUp(longer, |run| - 1)
    ensures longer[|longer| - 1] == Begin(run[|run| - 1], kind).(
      pc := Commands, end := false, stop := Multi(kind), mask := Sources(kind))
  {
    hide IsPrompt, Sources, GoesOn;
    longer := QuietStart(run, kind);
    var begun := longer[..|run| + 1];
    GoesOnIsPrompt(begun, longer);
    FirstStatement(run, begun);
    UnderwayOn(|run| - 1, begun, longer);
  }

  lemma FirstStatement(run: seq<State>, begun: seq<State>)
    requires run != [] && run < begun && |begun| == |run| + 1 && IsPrompt(begun)
    requires Begins(run[|run| - 1], begun[|run|])
    ensures Underway(|run| - 1, begun) && NothingComesUp(begun, |run| - 1)
  {
    hide Initial, FirstOf, Masked;
    assert PromptStep(begun[|run| - 1], begun[|run|]);
  }

  /** The commands are over, and the wait begins. */
  lemma WaitsUnderway(b: nat, run: seq<State>) returns (longer: seq<State>)
    requires Underway(b, run) && run[|run| - 1].pc == Commands && !Pending(run[|run| - 1])
    ensures run < longer && Underway(b, longer)
    ensures longer[|longer| - 1] == run[|run| - 1].(pc := Poll(SD_DATATIMEOUT))
    ensures NothingComesUp(run, b) ==> NothingComesUp(longer, b)
  {
    hide IsPrompt, Environment, InTransfer;
    GoesOnNot(run);
    var s := run[|run| - 1];
    longer := GoesOnBy(run, run, s.(pc := Ready));
    longer := GoesOnBy(run, longer, s.(pc := Poll(SD_DATATIMEOUT)));
    UnderwayOn(b, run, longer);
  }

  /** The wait is over. */
  lemma EndsUnderway(b: nat, before: seq<State>) returns (longer: seq<State>)
    requires Underway(b, before)
    requires var s := before[|before| - 1];
      s.pc.Poll? && !Pending(s) && (s.dma || s.end || s.error != Ok || s.pc == Poll(0))
    ensures before < longer && |before| + 2 < |longer| && Underway(b, longer)
    ensures NothingComesUp(before, b) ==> NothingComesUp(longer, b)
    ensures before[|before| - 1].error == Ok ==> Succeeds(longer, b, |before| - 1, |longer| - 2)
    ensures var s, t := before[|before| - 1], longer[|longer| - 1];
      && t.pc == Ready && t.mask == s.mask && t.flags == Cleared(s.flags) && t.handled == s.handled && !t.dma
      && t.error == t.result == s.error && t.end == s.end && t.kind == s.kind && t.waits == s.waits + 1
      && longer[|longer| - 2].handled == s.handled
  {
    hide IsPrompt, Statement, Begins, GoesOn, NothingComesUp;
    GoesOnNot(before);
    var p;
    longer, p := QuietWait(before, before);
    UnderwayOn(b, before, longer);
  }

  lemma NothingRises(run: seq<State>, b: nat, m: nat)
    requires NothingComesUp(run, b) && b <= m < |run| - 1
    ensures !Rises(run[m], run[m + 1])
  {
    hide FirstOf, Masked;
    if Statement(run[m], run[m + 1]) {
      TaskNeverRaises(run[m], run[m + 1]);
    }
  }

  /** The DMA flag of an earlier transfer ends the wait at once. */
  lemma StaleFlagSucceeds(run: seq<State>, kind: Kind) returns (longer: seq<State>, p: nat, j: nat)
    requires run != [] && IsPrompt(run)
    requires var s := run[|run| - 1]; s.pc == Ready && s.mask == {} && s.dma && s.flags * Sources(kind) == {}
    ensures Unearned(run, kind, longer, p, j) && NothingComesUp(longer, |run| - 1)
  {
    hide IsPrompt, GoesOn, Rises, Succeeds, InTransfer, NothingComesUp, Sources;
    var b := |run| - 1;
    longer := StartsUnderway(run, kind);
    longer := WaitsUnderway(b, longer);
    p := |longer| - 1;
    longer := EndsUnderway(b, longer);
    j := |longer| - 2;
    forall m | b <= m < p ensures !Rises(longer[m], longer[m + 1]) {
      NothingRises(longer, b, m);
    }
  }

  /** So does the end of the countdown, which the second loop starts again. */
  lemma ExpiredPollReturnsOk(run: seq<State>, kind: Kind) returns (longer: seq<State>, p: nat, j: nat)
    requires run != [] && IsPrompt(run)
    requires var s := run[|run| - 1];
      s.pc == Ready && s.mask == {} && !s.dma && s.flags * Sources(kind) == {}
    ensures run < longer && IsPrompt(longer) && Succeeds(longer, |run| - 1, p, j) && longer[|run|].kind == kind
    ensures longer[j].handled == [] && longer[p].pc == Poll(0) && NothingComesUp(longer, |run| - 1)
    ensures p >= |run| + 0xFFFF_FFFF
  {
    hide IsPrompt, GoesOn, Rises, Succeeds, InTransfer, NothingComesUp, Sources;
    var b := |run| - 1;
    longer := StartsUnderway(run, kind);
    var polling := WaitsUnderway(b, longer);
    GoesOnNot(polling);
    longer := CountDown(polling, polling);
    UnderwayOn(b, polling, longer);
    p := |longer| - 1;
    longer := EndsUnderway(b, longer);
    j := |longer| - 2;
  }

  /** An underrun goes unreported: it comes up in a transfer that does not enable its interrupt, the first loop of the
      wait runs out, and the wait succeeds and leaves the interrupts enabled. */
  lemma UnderrunGoesUnreported(run: seq<State>, kind: Kind) returns (longer: seq<State>, m: nat, p: nat, j: nat)
    requires run != [] && IsPrompt(run) && kind != WriteMany
    requires var s := run[|run| - 1]; s.pc == Ready && s.mask == {} && s.flags == {} && !s.dma
    ensures IsPrompt(longer) && run < longer && Succeeds(longer, |run| - 1, p, j) && longer[|run|].kind == kind
    ensures |run| < m < p && longer[m].flags == {TxUnderr} && !longer[m].pc.Start?
    ensures longer[|longer| - 1].mask == READING && j + 2 == |longer|
  {
    hide IsPrompt, Statement, GoesOn, Begins, Environment, InTransfer, Succeeds, NothingComesUp;
    var b := |run| - 1;
    var before := StartsUnderway(run, kind);
    var raised := Raised(before, TxUnderr);
    m := |raised| - 1;
    SamePlace(b, before, raised);
    before := WaitsUnderway(b, raised);
    GoesOnNot(before);
    var expired := CountDown(before, before);
    UnderwayOn(b, before, expired);
    p := |expired| - 1;
    longer := EndsUnderway(b, expired);
    j := |longer| - 2;
  }

  lemma SamePlace(b: nat, run: seq<State>, longer: seq<State>)
    requires Underway(b, run) && IsPrompt(longer) && run < longer && |longer| == |run| + 1
    requires longer[|run|].pc == run[|run| - 1].pc
    ensures Underway(b, longer)
    ensures NothingComesUp(run, b) && Serves(run[|run| - 1], longer[|run|]) ==> NothingComesUp(longer, b)
  {
    hide IsPrompt, Underway, NothingComesUp, Serves;
    UnderwayBy(b, run, longer);
  }

  /** A transfer that ends as it should, with a data end. */
  lemma GoodTransfer(run: seq<State>, kind: Kind, x: Source) returns (longer: seq<State>)
    requires run != [] && IsPrompt(run) && run[|run| - 1].pc == Ready && run[|run| - 1].mask == {}
    requires run[|run| - 1].flags == {}
    ensures run < longer && IsPrompt(longer) && InTransfer(longer, |run| - 1, |longer| - 1)
    ensures var t := longer[|longer| - 1];
      && t.pc == Ready && t.mask == {} && t.flags == Cleared({x}) && t.handled == [DataEnd] && !t.dma && t.result == Ok
      && t.waits == 1 && t.kind == kind
  {
    hide IsPrompt, Statement, GoesOn, Begins, Environment, InTransfer, Succeeds, NothingComesUp;
    var b := |run| - 1;
    longer := StartsUnderway(run, kind);
    SourcesOf(kind);
    var next := Raised(longer, DataEnd);
    SamePlace(b, longer, next);
    assert DataEnd in next[|next| - 1].flags * next[|next| - 1].mask;
    longer := HandlerComes(next);
    SamePlace(b, next, longer);
    next := Raised(longer, x);
    SamePlace(b, longer, next);
    longer := WaitsUnderway(b, next);
    longer := EndsUnderway(b, longer);
  }

  /** A transfer ends as it should, its wait returns success, and then comes its DMA interrupt: the flag is set when
      the next start is issued. */
  lemma StaleFlagIsReachable(s: State, kind: Kind) returns (run: seq<State>)
    requires Initial(s) && s.flags == {}
    ensures run != [] && IsPrompt(run) && run[0] == s
    ensures var t := run[|run| - 1];
      && t.pc == Ready && t.mask == {} && t.flags == {} && t.handled == [DataEnd] && t.result == Ok
      && t.waits == 1 && t.dma
  {
    hide IsPrompt, InTransfer;
    Beginning(s);
    run := GoodTransfer([s], kind, DataEnd);
    run := DmaComes(run);
  }

  /** A start-bit error after the data end is not handled, and survives the wait, which succeeds; the next start
      enables its interrupt, and the next transfer fails although nothing comes up in it. */
  lemma StartBitErrorSpoilsNext(s: State, kind: Kind, next: Kind) returns (run: seq<State>, b: nat)
    requires Initial(s) && s.flags == {}
    ensures b + 1 < |run| && IsPrompt(run) && run[0] == s && InTransfer(run, b, |run| - 1)
    ensures run[b].kind == kind && run[b].handled == [DataEnd] && run[b].result == Ok && run[b].waits == 1
    ensures NothingComesUp(run, b)
    ensures var t := run[|run| - 1]; t.pc == Ready && t.kind == next && t.waits == 1 && t.result == StartBitErr
  {
    hide IsPrompt, Statement, GoesOn, Begins, Environment, InTransfer, NothingComesUp, Serves;
    Beginning(s);
    run := GoodTransfer([s], kind, StbitErr);
    b := |run| - 1;
    var longer := StartsUnderway(run, next);
    SourcesOf(next);
    var t := longer[|longer| - 1];
    assert StbitErr in t.flags * t.mask && t.flags == {StbitErr};
    run := HandlerComes(longer);
    assert Serves(t, Handle(t)) by { Served(t); }
    SamePlace(b, longer, run);
    run := WaitsUnderway(b, run);
    run := EndsUnderway(b, run);
  }

  lemma Served(s: State)
    requires s.handled == [] && Pending(s)
    ensures Serves(s, Handle(s))
  {
  }
}
