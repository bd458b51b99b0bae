/** The transfer functions, the waits and the interrupt handlers of the SD driver, as they run:
    between any two statements the peripheral and the handlers may do what they like. */
module SdDriver {
  import opened SdTransfer

  class Driver {
    var transferError: Error
    var transferEnd: bool
    var stopCondition: bool
    var dmaEndOfTransfer: bool
    var mask: set<Source>
    var flags: set<Source>
    ghost var run: seq<State>

    constructor ()
      ensures Valid() && Now().pc == Ready && mask == {}
    {
      transferError, transferEnd, stopCondition, dmaEndOfTransfer, mask, flags := Ok, false, false, false, {}, {};
      run := [State(Ready, Ok, false, false, false, {}, {}, ReadOne, [], 0, 0, Ok)];
    }

    ghost function Now(): State
      requires run != []
      reads this
    {
      run[|run| - 1]
    }

    /** What has happened is a run of the step system, and the variables are those of its last state. */
    ghost predicate Valid()
      reads this
    {
      run != [] && IsRun(run) && Shows(Now())
    }

    ghost predicate Shows(s: State)
      reads this
    {
      && s.error == transferError && s.end == transferEnd && s.stop == stopCondition
      && s.dma == dmaEndOfTransfer && s.mask == mask && s.flags == flags
    }

    ghost method Record(t: State)
      requires run != [] && IsRun(run) && Step(Now(), t) && Shows(t)
      modifies this`run
      ensures Valid() && run == old(run) + [t]
    {
      hide Step, Initial;
      run := run + [t];
    }

    // ---------- the handlers ----------

    method ProcessIRQSrc()
      requires Valid() && flags * mask != {}
      modifies this
      ensures Valid() && run == old(run) + [Handle(old(Now()))]
      ensures mask == {} && |Now().handled| == |old(Now().handled)| + 1
      ensures var x := Now().handled[|old(Now().handled)|];
        && x in old(flags) && flags == old(flags) - {x} && (forall y | y in old(flags) :: Rank(x) <= Rank(y))
        && transferEnd == (old(transferEnd) || x == DataEnd)
        && (if x == DataEnd then transferError == Ok else Names(x, transferError))
    {
      FirstRank(flags);
      if DataEnd in flags {
        transferError := Ok;
        flags := flags - {DataEnd};
        transferEnd := true;
      } else if DcrcFail in flags {
        flags := flags - {DcrcFail};
        transferError := DataCrcFail;
      } else if Dtimeout in flags {
        flags := flags - {Dtimeout};
        transferError := DataTimeout;
      } else if RxOverr in flags {
        flags := flags - {RxOverr};
        transferError := RxOverrun;
      } else if TxUnderr in flags {
        flags := flags - {TxUnderr};
        transferError := TxUnderrun;
      } else if StbitErr in flags {
        flags := flags - {StbitErr};
        transferError := StartBitErr;
      }
      mask := {};
      Record(Handle(old(Now())));
    }

    method ProcessDMAIRQ()
      requires Valid()
      modifies this
      ensures Valid() && run == old(run) + [old(Now()).(dma := true)]
    {
      dmaEndOfTransfer := true;
      Record(old(Now()).(dma := true));
    }

    /** The peripheral raises a flag. */
    method Raise(x: Source)
      requires Valid()
      modifies this
      ensures Valid() && run == old(run) + [old(Now()).(flags := old(Now()).flags + {x})]
    {
      flags := flags + {x};
      Record(old(Now()).(flags := old(Now()).flags + {x}));
    }

    /** Anything that may happen between two statements of the task. */
    method Others()
      requires Valid()
      modifies this
      ensures Valid() && old(run) <= run && SameTask(old(Now()), Now())
    {
      var n: nat := *;
      while n > 0
        invariant Valid() && old(run) <= run && SameTask(old(Now()), Now())
      {
        n := n - 1;
        RunsKeepInv(run, |run| - 1);
        if {
          case true =>
            var x: Source := *;
            Raise(x);
          case true => ProcessDMAIRQ();
          case flags * mask != {} => ProcessIRQSrc();
        }
      }
    }

    // ---------- the task ----------

    method ReadBlock() returns (ok: bool)
      requires Valid() && Now().pc == Ready && mask == {}
      modifies this
      ensures Valid() && old(run) <= run && Now().pc == Ready
      ensures !stopCondition && Now().kind == ReadOne
      ensures mask == if Now().handled == [] then {DcrcFail, Dtimeout, DataEnd, RxOverr, StbitErr} else {}
    {
      ok := StartTransfer(ReadOne);
    }

    method ReadMultiBlocks() returns (ok: bool)
      requires Valid() && Now().pc == Ready && mask == {}
      modifies this
      ensures Valid() && old(run) <= run && Now().pc == Ready
      ensures stopCondition && Now().kind == ReadMany
      ensures mask == if Now().handled == [] then {DcrcFail, Dtimeout, DataEnd, RxOverr, StbitErr} else {}
    {
      ok := StartTransfer(ReadMany);
    }

    /** A write of one block enables the interrupts of a read: overrun, but not underrun. */
    method WriteBlock() returns (ok: bool)
      requires Valid() && Now().pc == Ready && mask == {}
      modifies this
      ensures Valid() && old(run) <= run && Now().pc == Ready
      ensures !stopCondition && Now().kind == WriteOne
      ensures mask == if Now().handled == [] then {DcrcFail, Dtimeout, DataEnd, RxOverr, StbitErr} else {}
      ensures TxUnderr !in mask
    {
      ok := StartTransfer(WriteOne);
    }

    method WriteMultiBlocks() returns (ok: bool)
      requires Valid() && Now().pc == Ready && mask == {}
      modifies this
      ensures Valid() && old(run) <= run && Now().pc == Ready
      ensures stopCondition && Now().kind == WriteMany
      ensures mask == if Now().handled == [] then {DcrcFail, Dtimeout, DataEnd, TxUnderr, StbitErr} else {}
    {
      ok := StartTransfer(WriteMany);
    }

    /** What the four transfer functions do to the shared variables.
        The commands that follow may fail; the interrupts stay enabled all the same. */
    method StartTransfer(kind: Kind) returns (ok: bool)
      requires Valid() && Now().pc == Ready && mask == {}
      modifies this
      ensures Valid() && old(run) <= run && Now().pc == Ready
      ensures Now().kind == kind && stopCondition == Multi(kind) && Now().stops == Now().waits == 0
      ensures mask == if Now().handled == [] then Sources(kind) else {}
    {
      hide Inv, Step, Environment, IsRun;
      transferError := Ok;
      Proceed(Begin(Now(), kind));
      ClearAndChoose(kind);
      ok := EnableAndCommand(kind);
      RunsKeepInv(run, |run| - 1);
      if Now().handled != [] {
        NoneAfterHandled(Now());
      }
    }

    method ClearAndChoose(kind: Kind)
      requires Valid() && Now().pc == Start(1) && Now().kind == kind
      modifies this
      ensures Valid() && old(run) <= run && Now().pc == Start(3) && Now().kind == kind && Now().stop == Multi(kind)
      ensures Now().stops == old(Now().stops) && Now().waits == old(Now().waits)
      ensures old(Now().handled) <= Now().handled && (old(mask) == {} ==> mask == {})
    {
      hide Inv, Step, Environment, IsRun;
      transferEnd := false;
      Proceed(Now().(pc := Start(2), end := false));
      stopCondition := Multi(kind);
      Proceed(Now().(pc := Start(3), stop := Multi(kind)));
    }

    method EnableAndCommand(kind: Kind) returns (ok: bool)
      requires Valid() && Now().pc == Start(3) && Now().kind == kind
      modifies this
      ensures Valid() && old(run) <= run && Now().pc == Ready && SameCounts(old(Now()), Now())
      ensures old(mask) == {} && Now().handled == [] ==> mask == Sources(kind)
    {
      hide Inv, Step, Environment, IsRun;
      mask := mask + Sources(kind);
      Proceed(Now().(pc := Commands, mask := Now().mask + Sources(kind)));
      ok := SendCommands();
    }

    /** The commands of a start.  Each waits for its reply without a timeout: this is a call to which
        the replies come, after any number of polls. */
    method SendCommands() returns (ok: bool)
      requires Valid() && Now().pc == Commands
      modifies this
      ensures Valid() && old(run) <= run && Now().pc == Ready && SameCounts(old(Now()), Now())
      ensures old(Now().handled) <= Now().handled && (Now().handled == old(Now().handled) ==> mask == old(mask))
    {
      hide Inv, Step, Environment, IsRun, Sources;
      var polls: nat := *;
      while polls > 0
        invariant Valid() && old(run) <= run && Now().pc == Commands && SameCounts(old(Now()), Now())
        invariant old(Now().handled) <= Now().handled && (Now().handled == old(Now().handled) ==> mask == old(mask))
      {
        polls := polls - 1;
        var replied: bool := *;
        if replied {
          flags := Cleared(flags);
        }
        Proceed(Now().(flags := flags));
      }
      ok := *;
      Proceed(Now().(pc := Ready));
    }

    /** The task has run one statement, and then others may run. */
    method Proceed(ghost t: State)
      requires run != [] && IsRun(run) && Task(Now(), t) && (Begins(Now(), t) ==> Now().mask == {}) && Shows(t)
      modifies this
      ensures Valid() && old(run) <= run && SameTask(t, Now())
    {
      hide Initial, Task, Environment, Begins, SameTask;
      Record(t);
      Others();
    }

    /** SD_WaitReadOperation and SD_WaitWriteOperation. */
    method WaitOperation() returns (r: Error)
      requires Valid() && Now().pc == Ready
      modifies this
      ensures Valid() && old(run) <= run && Now().pc == Ready
      ensures r == Now().result && Now().waits == old(Now().waits) + 1 && !stopCondition
      ensures Now().kind == old(Now().kind)
      ensures Now().stops == old(Now().stops) + if old(stopCondition) then 1 else 0
    {
      hide Inv, Step, Environment, IsRun;
      PollTransfer();
      var timeout := DrainFifo();
      r := StopAndReport(timeout);
    }

    /** The first loop, and the variable it clears. */
    method PollTransfer()
      requires Valid() && Now().pc == Ready
      modifies this
      ensures Valid() && old(run) <= run && Now().pc == Drain(SD_DATATIMEOUT) && SameCounts(old(Now()), Now())
    {
      hide Inv, Step, Environment, IsRun;
      Proceed(Now().(pc := Poll(SD_DATATIMEOUT)));
      PollLoop();
      dmaEndOfTransfer := false;
      Proceed(Now().(pc := Drain(SD_DATATIMEOUT), dma := false));
    }

    method PollLoop()
      requires Valid() && Now().pc == Poll(SD_DATATIMEOUT)
      modifies this
      ensures Valid() && old(run) <= run && Now().pc == ClearDma && SameCounts(old(Now()), Now())
    {
      hide Inv, Step, Environment, IsRun;
      var timeout: nat := SD_DATATIMEOUT;
      while !dmaEndOfTransfer && !transferEnd && transferError == Ok && timeout > 0
        invariant Valid() && old(run) <= run && Now().pc == Poll(timeout) && SameCounts(old(Now()), Now())
        decreases timeout
      {
        timeout := timeout - 1;
        Proceed(Now().(pc := Poll(timeout)));
      }
      Proceed(Now().(pc := ClearDma));
    }

    /** The second loop. */
    method DrainFifo() returns (timeout: nat)
      requires Valid() && Now().pc == Drain(SD_DATATIMEOUT)
      modifies this
      ensures Valid() && old(run) <= run && Now().pc == Stop(timeout) && SameCounts(old(Now()), Now())
    {
      hide Inv, Step, Environment, IsRun;
      timeout := SD_DATATIMEOUT;
      var active: bool := *;
      while active && timeout > 0
        invariant Valid() && old(run) <= run && Now().pc == Drain(timeout) && SameCounts(old(Now()), Now())
        decreases timeout
      {
        timeout := timeout - 1;
        Proceed(Now().(pc := Drain(timeout)));
        active := *;
      }
      Proceed(Now().(pc := Stop(timeout)));
    }

    /** The stop command, if it is due, and the result. */
    method StopAndReport(timeout: nat) returns (r: Error)
      requires Valid() && Now().pc == Stop(timeout)
      modifies this
      ensures Valid() && old(run) <= run && Now().pc == Ready
      ensures r == Now().result && Now().waits == old(Now().waits) + 1 && !stopCondition
      ensures Now().kind == old(Now().kind)
      ensures Now().stops == old(Now().stops) + if old(stopCondition) then 1 else 0
    {
      hide Inv, Step, Environment, IsRun;
      var status := Ok;
      if stopCondition {
        status := SendStop(timeout);
      } else {
        Proceed(Now().(pc := ClearFlags(timeout, Ok)));
      }
      r := Report(timeout, status);
    }

    method Report(timeout: nat, status: Error) returns (r: Error)
      requires Valid() && Now().pc == ClearFlags(timeout, status)
      modifies this
      ensures Valid() && old(run) <= run && Now().pc == Ready && r == Now().result
      ensures Now().waits == old(Now().waits) + 1 && Now().stop == old(Now().stop)
      ensures Now().kind == old(Now().kind) && Now().stops == old(Now().stops)
    {
      hide Inv, Step, Environment, IsRun;
      flags := Cleared(flags);
      Proceed(Now().(pc := Return(timeout, status), flags := flags));
      r := Outcome(transferError, timeout, status);
      Proceed(Now().(pc := Ready, result := r, waits := Now().waits + 1));
    }

    /** SD_StopTransfer, which may fail.  It waits for the reply without a timeout: this is a call to which
        the reply comes, after any number of polls. */
    method SendStop(timeout: nat) returns (status: Error)
      requires Valid() && Now().pc == Stop(timeout) && stopCondition
      modifies this
      ensures Valid() && old(run) <= run && Now().pc == ClearFlags(timeout, status) && !stopCondition
      ensures Now().stops == old(Now().stops) + 1 && Now().waits == old(Now().waits) && Now().kind == old(Now().kind)
    {
      hide Inv, Step, Environment, IsRun;
      Proceed(Now().(pc := Reply(timeout), stops := Now().stops + 1));
      status := AwaitReply(timeout);
      stopCondition := false;
      Proceed(Now().(pc := ClearFlags(timeout, status), stop := false));
    }

    method AwaitReply(timeout: nat) returns (status: Error)
      requires Valid() && Now().pc == Reply(timeout)
      modifies this
      ensures Valid() && old(run) <= run && Now().pc == ClearStop(timeout, status) && SameCounts(old(Now()), Now())
    {
      hide Inv, Step, Environment, IsRun;
      var polls: nat := *;
      while polls > 0
        invariant Valid() && old(run) <= run && Now().pc == Reply(timeout) && SameCounts(old(Now()), Now())
      {
        polls := polls - 1;
        Proceed(Now());
      }
      status := *;
      status := if status == Ok then Ok else StopFailed;
      var cleared: bool := *;
      if cleared || status == Ok {
        flags := Cleared(flags);
      }
      Proceed(Now().(pc := ClearStop(timeout, status), flags := flags));
    }
  }

  lemma NoneAfterHandled(s: State)
    requires Inv(s) && s.handled != []
    ensures s.mask == {}
  {
  }

  predicate SameCounts(s: State, t: State) {
    t.stop == s.stop && t.kind == s.kind && t.stops == s.stops && t.waits == s.waits
  }

  /** The part of the state that only the task changes. */
  predicate SameTask(s: State, t: State) {
    && t.pc == s.pc && t.stop == s.stop && t.kind == s.kind && t.stops == s.stops && t.waits == s.waits
    && t.result == s.result && s.handled <= t.handled && (t.handled == s.handled ==> t.mask == s.mask)
    && (s.mask == {} ==> t.mask == {} && t.error == s.error && t.end == s.end)
  }
}
