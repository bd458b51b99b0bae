/** The command side of the SD driver: which commands go out, in which order, whatever the card replies. */
module SdCommands {
  /** What the driver sends.  Application commands share their numbers with ordinary ones:
      a card takes a number as one only if an accepted CMD55 came just before it. */
  datatype Order = Cmd(index: nat, argument: nat) | App(index: nat, argument: nat)

  /** A 16-bit register. */
  type uint16 = n: int | 0 <= n < 0x1_0000

  /** What comes back for a command: whether the driver accepts the reply, whether the card took the command all the
      same, the address that it publishes, and the bits by which a card says that it is ready, of high capacity, and
      busy with programming or receiving.  A reply may be lost or show an error after the card has taken the command. */
  datatype Answer = Answer(ok: bool, taken: bool, rca: uint16, ready: bool, high: bool, busy: bool)

  type Reply = r: Answer | r.ok ==> r.taken
    witness Answer(false, false, 0, false, false, false)

  /** A command that was sent, and its reply. */
  datatype Sent = Sent(order: Order, ok: bool, taken: bool, rca: uint16, ready: bool, high: bool, busy: bool)

  function Exchange(order: Order, r: Reply): Sent {
    Sent(order, r.ok, r.taken, r.rca, r.ready, r.high, r.busy)
  }

  datatype Status =
    | Ok | ReplyError | DataError | InvalidVoltRange | RequestNotApplicable | LockUnlockFailed | UnsupportedFeature

  datatype CardType = StdCapacityV1 | StdCapacityV2 | HighCapacity

  const GO_IDLE_STATE := 0
  const ALL_SEND_CID := 2
  const SET_REL_ADDR := 3
  const SEND_IF_COND := 8
  const SEND_CSD := 9
  const HS_SWITCH := 6
  const SEL_DESEL_CARD := 7
  const STOP_TRANSMISSION := 12
  const SEND_STATUS := 13
  const SET_BLOCKLEN := 16
  const READ_SINGLE_BLOCK := 17
  const READ_MULT_BLOCK := 18
  const SET_BLOCK_COUNT := 23
  const WRITE_SINGLE_BLOCK := 24
  const WRITE_MULT_BLOCK := 25
  const ERASE_GRP_START := 32
  const ERASE_GRP_END := 33
  const ERASE := 38
  const APP_CMD := 55
  const APP_SET_BUSWIDTH := 6
  const APP_STATUS := 13
  const APP_OP_COND := 41
  const APP_SEND_SCR := 51

  /** The numbers that have a meaning as application commands. */
  const APPLICATION: set<nat> := {6, 13, 18, 22, 23, 25, 38, 41, 42, 43, 44, 45, 46, 47, 48, 49, 51}

  const CHECK_PATTERN := 0x1AA
  const VOLTAGE_WINDOW := 0x8010_0000
  const HIGH_CAPACITY_BIT := 0x4000_0000
  const MAX_VOLT_TRIAL := 0xFFFF
  const HS_SWITCH_ARGUMENT := 0x80FF_FF01
  const DATATIMEOUT := 0xFFFF_FFFF

  // ---------- what a card must see ----------

  /** The address that the last accepted reply to CMD3 published. */
  function Address(trace: seq<Sent>): nat {
    if trace == [] then 0
    else
      var last := trace[|trace| - 1];
      if last.order.Cmd? && last.order.index == 3 && last.ok then last.rca else Address(trace[..|trace| - 1])
  }

  predicate IsAppCmd(o: Order) {
    o.Cmd? && o.index == 55
  }

  /** A CMD55 whose reply the driver accepted. */
  predicate Announces(s: Sent) {
    IsAppCmd(s.order) && s.ok
  }

  /** What the driver sees to: an application command follows a CMD55 whose reply was accepted and that named the right
      card (no card in particular while cards are identified, and the identified one afterwards), and such a CMD55 is
      followed by an application command or another CMD55. */
  ghost predicate Announced(trace: seq<Sent>, i: nat)
    requires i < |trace|
  {
    && (trace[i].order.App? ==>
          && trace[i].order.index in APPLICATION && i > 0 && Announces(trace[i - 1])
          && trace[i - 1].order.argument
             == if trace[i].order.index == 41 then 0 else Address(trace[..i]) * 0x1_0000)
    && (i > 0 && Announces(trace[i - 1]) ==> trace[i].order.App? || IsAppCmd(trace[i].order))
  }

  /** What a card that follows the standard makes of it: after a CMD55 that it took, it reads a number as an application
      command if there is one of that number. */
  predicate ReadAsApp(trace: seq<Sent>, i: nat)
    requires i < |trace|
  {
    i > 0 && IsAppCmd(trace[i - 1].order) && trace[i - 1].taken && trace[i].order.index in APPLICATION
  }

  /** The card has read every command as the driver meant it. */
  ghost predicate Meant(trace: seq<Sent>) {
    forall i: nat :: i < |trace| ==> (trace[i].order.App? <==> ReadAsApp(trace, i))
  }

  /** The last command was a CMD55 that the card took and the driver took for refused. */
  predicate Dangling(trace: seq<Sent>) {
    trace != [] && var s := trace[|trace| - 1]; IsAppCmd(s.order) && !s.ok && s.taken
  }

  /** A command that follows one, and whose number the card therefore reads as that of an application command. */
  predicate Misread(trace: seq<Sent>, i: nat)
    requires i < |trace|
  {
    Dangling(trace[..i]) && trace[i].order.Cmd? && trace[i].order.index in APPLICATION
  }

  /** A trace that the driver has seen to is read as it was meant except for exactly those commands. */
  lemma MeantUnlessMisread(trace: seq<Sent>, card: nat -> Reply)
    requires Safe(trace) && From(trace, card)
    ensures Meant(trace) <==> forall i: nat :: i < |trace| ==> !Misread(trace, i)
  {
    forall i: nat | i < |trace| ensures (trace[i].order.App? <==> ReadAsApp(trace, i)) <==> !Misread(trace, i) {
      ReadOrMisread(trace, card, i);
    }
  }

  lemma ReadOrMisread(trace: seq<Sent>, card: nat -> Reply, i: nat)
    requires Safe(trace) && From(trace, card) && i < |trace|
    ensures (trace[i].order.App? <==> ReadAsApp(trace, i)) <==> !Misread(trace, i)
  {
    hide Address;
    assert Announced(trace, i);
    if i > 0 {
      assert trace[i - 1] == Exchange(trace[i - 1].order, card(i - 1));
      assert trace[..i][|trace[..i]| - 1] == trace[i - 1];
    }
  }

  /** One more command is misread exactly if it follows a CMD55 of that kind. */
  lemma MeantAppend(trace: seq<Sent>, s: Sent, card: nat -> Reply)
    requires Safe(trace + [s]) && From(trace + [s], card)
    ensures Meant(trace + [s]) <==> Meant(trace) && !(Dangling(trace) && s.order.Cmd? && s.order.index in APPLICATION)
  {
    hide Safe, From;
    var longer := trace + [s];
    ReadOrMisread(longer, card, |trace|);
    assert longer[..|trace|] == trace;
    if Meant(longer) {
      forall i: nat | i < |trace| ensures trace[i].order.App? <==> ReadAsApp(trace, i) {
        SameReading(trace, longer, i);
      }
    }
    if Meant(trace) && !Misread(longer, |trace|) {
      forall i: nat | i < |longer| ensures longer[i].order.App? <==> ReadAsApp(longer, i) {
        if i < |trace| {
          SameReading(trace, longer, i);
        }
      }
    }
  }

  lemma SameReading(trace: seq<Sent>, longer: seq<Sent>, i: nat)
    requires trace <= longer && i < |trace|
    ensures longer[i] == trace[i] && ReadAsApp(longer, i) == ReadAsApp(trace, i)
  {
  }

  /** No announcement is left hanging. */
  predicate Quiet(trace: seq<Sent>) {
    trace == [] || !Announces(trace[|trace| - 1])
  }

  /** The replies are those of the card. */
  ghost predicate From(trace: seq<Sent>, card: nat -> Reply) {
    forall i: nat :: i < |trace| ==> trace[i] == Exchange(trace[i].order, card(i))
  }

  ghost predicate Safe(trace: seq<Sent>) {
    forall i: nat :: i < |trace| ==> Announced(trace, i)
  }

  /** `sent` follows the plan and stops at the first reply that is not accepted. */
  predicate Keeps(sent: seq<Sent>, plan: seq<Order>) {
    && |sent| <= |plan|
    && (forall i :: 0 <= i < |sent| ==> sent[i].order == plan[i])
    && (forall i :: 0 <= i < |sent| - 1 ==> sent[i].ok)
  }

  predicate Refused(sent: seq<Sent>) {
    sent != [] && !sent[|sent| - 1].ok
  }

  /** What a call with this plan may have sent when it returns `r`. */
  predicate Performs(sent: seq<Sent>, plan: seq<Order>, r: Status) {
    && Keeps(sent, plan)
    && (r == ReplyError <==> Refused(sent))
    && (r == Ok ==> |sent| == |plan|)
  }

  /** One call after another: the second goes on where the first was accepted throughout. */
  lemma Sequel(t0: seq<Sent>, t1: seq<Sent>, t2: seq<Sent>, p: seq<Order>, q: seq<Order>, r: Status)
    requires t0 <= t1 <= t2 && Performs(t1[|t0|..], p, Ok) && Performs(t2[|t1|..], q, r)
    ensures Performs(t2[|t0|..], p + q, r)
  {
    hide Keeps, Refused;
    assert t2[|t0|..] == t1[|t0|..] + t2[|t1|..];
    KeepsOn(t1[|t0|..], t2[|t1|..], p, q);
  }

  lemma KeepsOn(a: seq<Sent>, b: seq<Sent>, p: seq<Order>, q: seq<Order>)
    requires Keeps(a, p) && |a| == |p| && !Refused(a) && Keeps(b, q)
    ensures Keeps(a + b, p + q) && (Refused(a + b) <==> Refused(b))
  {
    forall i | 0 <= i < |a + b| ensures (a + b)[i].order == (p + q)[i] && (i < |a + b| - 1 ==> (a + b)[i].ok) {
      if i < |a| {
        assert a[i].order == p[i] && (i == |a| - 1 ==> a[i].ok);
      } else {
        assert b[i - |a|].order == q[i - |a|];
      }
    }
  }

  lemma Complete(sent: seq<Sent>, plan: seq<Order>)
    requires Performs(sent, plan, Ok)
    ensures |sent| == |plan|
  {
  }

  lemma StopsShort(sent: seq<Sent>, p: seq<Order>, q: seq<Order>, r: Status)
    requires Performs(sent, p, r) && r != Ok
    ensures Performs(sent, p + q, r)
  {
  }

  /** The last reply was accepted, but what follows it failed. */
  lemma StopsAfter(sent: seq<Sent>, p: seq<Order>, q: seq<Order>, r: Status)
    requires Performs(sent, p, Ok) && r != Ok && r != ReplyError
    ensures Performs(sent, p + q, r)
  {
  }

  lemma SafeAppend(trace: seq<Sent>, s: Sent)
    requires Safe(trace) && Announced(trace + [s], |trace|)
    ensures Safe(trace + [s])
  {
    forall i: nat | i < |trace + [s]| ensures Announced(trace + [s], i) {
      if i < |trace| {
        assert Announced(trace, i);
        assert (trace + [s])[..i] == trace[..i];
      }
    }
  }

  lemma AddressAppend(trace: seq<Sent>, s: Sent)
    ensures Address(trace + [s])
         == if s.order.Cmd? && s.order.index == SET_REL_ADDR && s.ok then s.rca else Address(trace)
  {
    assert (trace + [s])[..|trace|] == trace;
  }

  /** One more command and the card's reply to it. */
  lemma Grows(trace: seq<Sent>, card: nat -> Reply, order: Order)
    requires Safe(trace) && From(trace, card)
    requires order.App? ==> Announced(trace + [Exchange(order, card(|trace|))], |trace|)
    requires order.Cmd? ==> Quiet(trace) || IsAppCmd(order)
    ensures var s := Exchange(order, card(|trace|));
      && Safe(trace + [s]) && From(trace + [s], card)
      && (Meant(trace + [s]) <==> Meant(trace) && !(Dangling(trace) && order.Cmd? && order.index in APPLICATION))
      && Address(trace + [s]) == (if order.Cmd? && order.index == SET_REL_ADDR && s.ok then s.rca else Address(trace))
  {
    hide Safe, Address, Meant;
    var s := Exchange(order, card(|trace|));
    SafeAppend(trace, s);
    MeantAppend(trace, s, card);
    AddressAppend(trace, s);
  }

  class Driver {
    /** The replies of the card, one for each command, whatever the command is. */
    const card: nat -> Reply
    var cardType: CardType
    var rca: nat
    var count: nat
    ghost var trace: seq<Sent>

    constructor (card: nat -> Reply)
      ensures Valid() && Quiet(trace) && trace == [] && this.card == card
    {
      this.card, cardType, rca, count, trace := card, StdCapacityV1, 0, 0, [];
    }

    /** Every command so far was safe, and the driver knows the address that was last published. */
    ghost predicate Valid()
      reads this
    {
      Safe(trace) && rca == Address(trace) && rca < 0x1_0000 && count == |trace| && From(trace, card)
    }

    /** SDIO_GetResponse: the last reply. */
    function Response(): Reply
      requires count > 0
      reads this
    {
      card(count - 1)
    }

    /** What a call adds to the trace. */
    ghost function Since(before: seq<Sent>): seq<Sent>
      requires before <= trace
      reads this
    {
      trace[|before|..]
    }

    /** SDIO_SendCommand and the check of the reply. */
    method Send(index: nat, argument: nat) returns (r: Status)
      requires Valid() && index != SET_REL_ADDR && (Quiet(trace) || index == APP_CMD)
      modifies this`trace, this`count
      ensures Valid() && old(trace) <= trace && r in {Ok, ReplyError}
      ensures Meant(trace) <==> old(Meant(trace) && !(Dangling(trace) && index in APPLICATION))
      ensures index != APP_CMD || r == Ok ==> !Dangling(trace)
      ensures count > 0 && trace != [] && trace[|trace| - 1] == Exchange(Cmd(index, argument), Response())
      ensures Performs(Since(old(trace)), [Cmd(index, argument)], r) && (index != APP_CMD || r != Ok ==> Quiet(trace))
    {
      hide Safe, From, Address, Meant;
      ghost var s;
      r, s := SendOne(index, argument);
    }

    method SendOne(index: nat, argument: nat) returns (r: Status, ghost s: Sent)
      requires Valid() && index != SET_REL_ADDR && (Quiet(trace) || index == APP_CMD)
      modifies this`trace, this`count
      ensures Valid() && trace == old(trace) + [s] && s.order == Cmd(index, argument)
      ensures Meant(trace) <==> old(Meant(trace) && !(Dangling(trace) && index in APPLICATION))
      ensures index != APP_CMD || r == Ok ==> !Dangling(trace)
      ensures count > 0 && s == Exchange(Cmd(index, argument), Response())
      ensures r in {Ok, ReplyError} && (s.ok <==> r == Ok) && (index != APP_CMD || r != Ok ==> Quiet(trace))
    {
      hide Safe, From, Address, Meant;
      var reply := card(count);
      s := Exchange(Cmd(index, argument), reply);
      Grows(trace, card, Cmd(index, argument));
      trace, count := trace + [s], count + 1;
      r := if reply.ok then Ok else ReplyError;
    }

    /** The same for a number that is meant as an application command. */
    method SendApp(index: nat, argument: nat) returns (r: Status)
      requires Valid() && Announced(trace + [Exchange(App(index, argument), card(|trace|))], |trace|)
      modifies this`trace, this`count
      ensures Valid() && old(trace) <= trace && r in {Ok, ReplyError}
      ensures (Meant(trace) <==> old(Meant(trace))) && !Dangling(trace)
      ensures Performs(Since(old(trace)), [App(index, argument)], r) && Quiet(trace)
      ensures count > 0 && trace[|trace| - 1] == Exchange(App(index, argument), Response())
    {
      hide Safe, From, Address, Meant;
      var reply := card(count);
      ghost var s := Exchange(App(index, argument), reply);
      Grows(trace, card, App(index, argument));
      trace, count := trace + [s], count + 1;
      r := if reply.ok then Ok else ReplyError;
    }

    /** CMD55 and the application command that it announces. */
    method SendAnnounced(address: nat, index: nat, argument: nat) returns (r: Status)
      requires Valid() && index in APPLICATION && address == if index == APP_OP_COND then 0 else rca
      modifies this`trace, this`count
      ensures Valid() && old(trace) <= trace && r in {Ok, ReplyError}
      ensures (Meant(trace) <==> old(Meant(trace))) && (r == Ok ==> !Dangling(trace))
      ensures Performs(Since(old(trace)), [Cmd(55, address * 0x1_0000), App(index, argument)], r) && Quiet(trace)
      ensures r == Ok ==> count > 0 && trace[|trace| - 1] == Exchange(App(index, argument), Response())
    {
      hide Dangling, Address, Safe, From, Meant;
      AppByNumber(address, index, argument);
      ghost var s;
      r, s := SendOne(APP_CMD, address * 0x1_0000);
      if r != Ok {
        StopsShort(Since(old(trace)), [Cmd(APP_CMD, address * 0x1_0000)], [App(index, argument)], r);
        return;
      }
      ghost var t1 := trace;
      ghost var t := trace + [Exchange(App(index, argument), card(|trace|))];
      assert t[..|trace|] == trace;
      r := SendApp(index, argument);
      Sequel(old(trace), t1, trace, [Cmd(APP_CMD, address * 0x1_0000)], [App(index, argument)], r);
    }

    // ---------- the calls ----------

    /** CMD16, then an announced command. */
    method SizeThenApp(size: nat, index: nat, argument: nat) returns (r: Status)
      requires Valid() && Quiet(trace) && index in APPLICATION && index != APP_OP_COND
      modifies this`trace, this`count
      ensures Valid() && Quiet(trace) && old(trace) <= trace && r in {Ok, ReplyError}
      ensures Meant(trace) <==> old(Meant(trace))
      ensures Performs(Since(old(trace)), [Cmd(16, size), Cmd(55, rca * 0x1_0000), App(index, argument)], r)
      ensures r == Ok ==> !Dangling(trace)
    {
      hide Safe, Meant, Dangling, From, Performs;
      AppByNumber(rca, index, argument);
      SizedByNumber(size, rca, index, argument);
      r := Send(SET_BLOCKLEN, size);
      if r != Ok {
        StopsShort(Since(old(trace)), [Cmd(SET_BLOCKLEN, size)], AppPlan(rca, index, argument), r);
        return;
      }
      ghost var t1 := trace;
      r := SendAnnounced(rca, index, argument);
      Sequel(old(trace), t1, trace, [Cmd(SET_BLOCKLEN, size)], AppPlan(rca, index, argument), r);
    }

    /** FindSCR: its data phase may fail as well.  It uses the driver's own address. */
    method FindScr() returns (r: Status)
      requires Valid() && Quiet(trace)
      modifies this`trace, this`count
      ensures Valid() && Quiet(trace) && old(trace) <= trace && r in {Ok, ReplyError, DataError}
      ensures Meant(trace) <==> old(Meant(trace))
      ensures Performs(Since(old(trace)), [Cmd(16, 8), Cmd(55, rca * 0x1_0000), App(51, 0)], r)
      ensures r == DataError ==> |Since(old(trace))| == 3
      ensures r == Ok ==> !Dangling(trace)
    {
      SizedByNumber(8, rca, APP_SEND_SCR, 0);
      r := SizeThenApp(8, APP_SEND_SCR, 0);
      r := ReceiveData(r, SizedPlan(8, rca, APP_SEND_SCR, 0), old(trace));
    }

    /** The data phase of a command that was accepted. */
    method ReceiveData(sent: Status, ghost plan: seq<Order>, ghost before: seq<Sent>) returns (r: Status)
      requires before <= trace && Performs(Since(before), plan, sent)
      ensures Performs(Since(before), plan, r) && r in {sent, DataError} && (sent != Ok ==> r == sent)
      ensures sent == Ok ==> |Since(before)| == |plan|
    {
      r := sent;
      if r == Ok {
        var received: bool := *;
        r := if received then Ok else DataError;
      }
    }

    /** SDEnWideBus. */
    method EnWideBus(enable: bool) returns (r: Status)
      requires Valid() && Quiet(trace)
      modifies this`trace, this`count
      ensures Valid() && Quiet(trace) && old(trace) <= trace
      ensures Meant(trace) <==> old(Meant(trace))
      ensures Performs(Since(old(trace)),
                       [Cmd(16, 8), Cmd(55, rca * 0x1_0000), App(51, 0),
                        Cmd(55, rca * 0x1_0000), App(6, if enable then 2 else 0)], r)
      ensures r == LockUnlockFailed ==> trace == old(trace)
      ensures r in {DataError, RequestNotApplicable} ==> |Since(old(trace))| == 3
      ensures r == Ok ==> !Dangling(trace)
    {
      hide Safe, Meant, Dangling, From, Performs;
      AppByNumber(rca, APP_SET_BUSWIDTH, if enable then 2 else 0);
      WideBusByNumber(rca, enable);
      SizedByNumber(8, rca, APP_SEND_SCR, 0);
      var locked: bool := *;
      if locked {
        NothingSent(WideBusPlan(rca, enable), LockUnlockFailed);
        assert Since(old(trace)) == [];
        return LockUnlockFailed;
      }
      ghost var p, q := SizedPlan(8, rca, APP_SEND_SCR, 0), AppPlan(rca, APP_SET_BUSWIDTH, if enable then 2 else 0);
      r := FindScr();
      if r != Ok {
        StopsShort(Since(old(trace)), p, q, r);
        return;
      }
      var supported: bool := *;
      if !supported {
        StopsAfter(Since(old(trace)), p, q, RequestNotApplicable);
        Complete(Since(old(trace)), p);
        return RequestNotApplicable;
      }
      ghost var t1 := trace;
      r := SendAnnounced(rca, APP_SET_BUSWIDTH, if enable then 2 else 0);
      Sequel(old(trace), t1, trace, p, q, r);
    }

    /** SD_SendSDStatus. */
    method SendSdStatus() returns (r: Status)
      requires Valid() && Quiet(trace)
      modifies this`trace, this`count
      ensures Valid() && Quiet(trace) && old(trace) <= trace
      ensures Meant(trace) <==> old(Meant(trace))
      ensures Performs(Since(old(trace)), [Cmd(16, 64), Cmd(55, rca * 0x1_0000), App(13, 0)], r)
      ensures r in {Ok, ReplyError, DataError, LockUnlockFailed}
      ensures r == LockUnlockFailed ==> trace == old(trace)
      ensures r == DataError ==> |Since(old(trace))| == 3
    {
      SizedByNumber(64, rca, APP_STATUS, 0);
      var locked: bool := *;
      if locked {
        return LockUnlockFailed;
      }
      r := SizeThenApp(64, APP_STATUS, 0);
      r := ReceiveData(r, SizedPlan(64, rca, APP_STATUS, 0), old(trace));
    }

    /** The commands of SD_WriteMultiBlocks: a high-capacity card is addressed by blocks of 512 bytes. */
    method WriteMultiBlocks(address: nat, blockSize: nat, count: nat)
      returns (r: Status, ghost place: nat)
      requires Valid() && Quiet(trace)
      modifies this`trace, this`count
      ensures Valid() && Quiet(trace) && old(trace) <= trace && r in {Ok, ReplyError}
      ensures Meant(trace) <==> old(Meant(trace))
      ensures PlaceOf(cardType, address, place)
      ensures Performs(Since(old(trace)),
                       [Cmd(16, if cardType == HighCapacity then 512 else blockSize),
                        Cmd(55, rca * 0x1_0000), App(23, count), Cmd(25, place)], r)
    {
      hide Safe, Meant, Dangling, From, Performs;
      var size, target := blockSize, address;
      if cardType == HighCapacity {
        size, target := 512, address / 512;
      }
      place := target % 0x1_0000_0000;
      PlaceIs(cardType, address);
      ghost var p, q := SizedPlan(size, rca, SET_BLOCK_COUNT, count), [Cmd(WRITE_MULT_BLOCK, place)];
      SizedByNumber(size, rca, SET_BLOCK_COUNT, count);
      assert p + q == [Cmd(16, size), Cmd(55, rca * 0x1_0000), App(23, count), Cmd(25, place)];
      r := SizeThenApp(size, SET_BLOCK_COUNT, count);
      if r != Ok {
        StopsShort(Since(old(trace)), p, q, r);
        return;
      }
      ghost var t1 := trace;
      r := Send(WRITE_MULT_BLOCK, target % 0x1_0000_0000);
      Sequel(old(trace), t1, trace, p, q, r);
    }

    /** The calls that send ordinary commands only: one after another, up to the first refusal. */
    method SendPlan(plan: seq<Order>) returns (r: Status)
      requires Valid() && Quiet(trace) && forall o | o in plan :: Ordinary(o)
      modifies this`trace, this`count
      ensures Valid() && Quiet(trace) && old(trace) <= trace && r in {Ok, ReplyError}
      ensures Meant(trace) <==>
        old(Meant(trace) && !(Dangling(trace) && plan != [] && plan[0].index in APPLICATION))
      ensures r == Ok && plan != [] ==> !Dangling(trace)
      ensures Performs(Since(old(trace)), plan, r)
    {
      hide Safe, Meant, Dangling, From, Performs, Address;
      r := Ok;
      EmptyPlan();
      assert plan[..0] == [] && Since(old(trace)) == [];
      for i := 0 to |plan|
        invariant Valid() && Quiet(trace) && old(trace) <= trace && r == Ok
        invariant if i == 0 then trace == old(trace) else !Dangling(trace)
        invariant Meant(trace) <==>
          old(Meant(trace) && !(i > 0 && Dangling(trace) && plan[0].index in APPLICATION))
        invariant Performs(Since(old(trace)), plan[..i], Ok)
      {
        ghost var t1 := trace;
        assert plan[i] in plan && Ordinary(plan[i]);
        r := Send(plan[i].index, plan[i].argument);
        Sequel(old(trace), t1, trace, plan[..i], [plan[i]], r);
        assert plan[..i] + [plan[i]] == plan[..i + 1];
        if r != Ok {
          StopsShort(Since(old(trace)), plan[..i + 1], plan[i + 1..], r);
          assert plan[..i + 1] + plan[i + 1..] == plan;
          return;
        }
      }
      assert plan[..|plan|] == plan;
    }

    /** The commands of SD_ReadBlock, SD_ReadMultiBlocks and SD_WriteBlock. */
    method TransferBlocks(index: nat, address: nat, blockSize: nat)
      returns (r: Status, ghost place: nat)
      requires Valid() && Quiet(trace) && index in {17, 18, 24}
      modifies this`trace, this`count
      ensures Valid() && Quiet(trace) && old(trace) <= trace && r in {Ok, ReplyError}
      ensures Meant(trace) <==> old(Meant(trace))
      ensures PlaceOf(cardType, address, place)
      ensures Performs(Since(old(trace)),
                       [Cmd(16, if cardType == HighCapacity then 512 else blockSize), Cmd(index, place)], r)
    {
      hide Safe, From, Meant, Address;
      var size, target := blockSize, address;
      if cardType == HighCapacity {
        size, target := 512, address / 512;
      }
      place := target % 0x1_0000_0000;
      PlaceIs(cardType, address);
      r := SendPlan([Cmd(SET_BLOCKLEN, size), Cmd(index, target % 0x1_0000_0000)]);
    }

    /** SD_StopTransfer. */
    method StopTransfer() returns (r: Status)
      requires Valid() && Quiet(trace)
      modifies this`trace, this`count
      ensures Valid() && Quiet(trace) && old(trace) <= trace && r in {Ok, ReplyError}
      ensures Meant(trace) <==> old(Meant(trace))
      ensures Performs(Since(old(trace)), [Cmd(12, 0)], r)
    {
      hide Safe, From, Meant, Address;
      r := SendPlan([Cmd(STOP_TRANSMISSION, 0)]);
    }

    /** SD_SelectDeselect. */
    method SelectDeselect(address: nat) returns (r: Status)
      requires Valid() && Quiet(trace)
      modifies this`trace, this`count
      ensures Valid() && Quiet(trace) && old(trace) <= trace && r in {Ok, ReplyError}
      ensures Meant(trace) <==> old(Meant(trace))
      ensures Performs(Since(old(trace)), [Cmd(7, address % 0x1_0000_0000)], r)
    {
      hide Safe, From, Meant, Address;
      r := SendPlan([Cmd(SEL_DESEL_CARD, address % 0x1_0000_0000)]);
    }

    /** SD_SendStatus and IsCardProgramming. */
    method SendStatus() returns (r: Status)
      requires Valid() && Quiet(trace)
      modifies this`trace, this`count
      ensures Valid() && Quiet(trace) && old(trace) <= trace && r in {Ok, ReplyError}
      ensures Meant(trace) <==> old(Meant(trace) && !Dangling(trace))
      ensures !Dangling(trace)
      ensures r == Ok ==>
        count > 0 && trace[|trace| - 1] == Exchange(Cmd(SEND_STATUS, rca * 0x1_0000), Response())
      ensures Performs(Since(old(trace)), [Cmd(13, rca * 0x1_0000)], r)
    {
      hide Safe, From, Meant, Address;
      r := Send(SEND_STATUS, rca * 0x1_0000);
    }

    /** SD_Erase: three commands, and then the status as long as the card is busy and the countdown lasts.
        A card that is still busy when the countdown ends is not reported. */
    method EraseBlocks(start: nat, end: nat)
      returns (r: Status, ghost first: nat, ghost last: nat, ghost polls: nat)
      requires Valid() && Quiet(trace)
      modifies this`trace, this`count
      ensures Valid() && Quiet(trace) && old(trace) <= trace && polls <= 0x1_0000_0000
      ensures Meant(trace) <==> old(Meant(trace))
      ensures PlaceOf(cardType, start, first) && PlaceOf(cardType, end, last)
      ensures Performs(Since(old(trace)), [Cmd(32, first), Cmd(33, last), Cmd(38, 0)] + Polls(rca, polls), r)
      ensures r in {RequestNotApplicable, LockUnlockFailed} ==> trace == old(trace)
      ensures r in {Ok, ReplyError, RequestNotApplicable, LockUnlockFailed}
      ensures BusyBefore(trace, polls)
      ensures r == Ok ==> polls > 0 && trace != [] && (trace[|trace| - 1].busy ==> polls == 0x1_0000_0000)
    {
      hide Safe, From, Performs, Address, Polls, Meant, Dangling;
      polls := 0;
      NoPolls(rca);
      var unit := if cardType == HighCapacity then 512 else 1;
      first, last := start / unit % 0x1_0000_0000, end / unit % 0x1_0000_0000;
      PlaceIs(cardType, start);
      PlaceIs(cardType, end);
      var plan := [Cmd(ERASE_GRP_START, start / unit % 0x1_0000_0000),
                   Cmd(ERASE_GRP_END, end / unit % 0x1_0000_0000), Cmd(ERASE, 0)];
      assert plan + Polls(rca, 0) == plan;
      var supported: bool, locked: bool := *, *;
      if !supported || locked {
        r := if !supported then RequestNotApplicable else LockUnlockFailed;
        NothingSent(plan, r);
        assert Since(old(trace)) == [];
        return;
      }
      r := SendPlan(plan);
      if r == Ok {
        ghost var t1 := trace;
        r, polls := AwaitProgramming();
        Sequel(old(trace), t1, trace, plan, Polls(rca, polls), r);
      }
    }

    /** IsCardProgramming, again and again. */
    method AwaitProgramming() returns (r: Status, ghost polls: nat)
      requires Valid() && Quiet(trace) && !Dangling(trace)
      modifies this`trace, this`count
      ensures Valid() && Quiet(trace) && old(trace) <= trace && 0 < polls <= 0x1_0000_0000
      ensures Meant(trace) <==> old(Meant(trace))
      ensures Performs(Since(old(trace)), Polls(rca, polls), r) && r in {Ok, ReplyError} && BusyBefore(trace, polls)
      ensures r == Ok ==> trace != [] && (trace[|trace| - 1].busy ==> polls == 0x1_0000_0000)
    {
      hide Safe, From, Performs, Address, Polls, Meant, Dangling;
      polls := 0;
      NoPolls(rca);
      EmptyPlan();
      assert Since(old(trace)) == [];
      r := Ok;
      var busy, delay := true, DATATIMEOUT + 1;
      while busy && delay > 0 && r == Ok
        invariant Valid() && Quiet(trace) && old(trace) <= trace && r in {Ok, ReplyError}
        invariant 0 <= delay && polls + delay == DATATIMEOUT + 1 && (polls == 0 ==> busy && r == Ok)
        invariant (Meant(trace) <==> old(Meant(trace))) && (r == Ok ==> !Dangling(trace))
        invariant Performs(Since(old(trace)), Polls(rca, polls), r)
        invariant BusyBefore(trace, polls) && (r == Ok && polls > 0 ==> trace != [] && trace[|trace| - 1].busy == busy)
        decreases delay
      {
        ghost var t1 := trace;
        r := SendStatus();
        Sequel(old(trace), t1, trace, Polls(rca, polls), [Cmd(SEND_STATUS, rca * 0x1_0000)], r);
        OneMore(t1, trace, Cmd(SEND_STATUS, rca * 0x1_0000), r);
        MorePolls(rca, polls);
        polls := polls + 1;
        if r == Ok {
          busy := Response().busy;
        }
        delay := delay - 1;
      }
    }

    /** A card that accepts everything and stays busy for ever is polled to the end of the countdown, and the erase is
        then reported as a success. */
    method EraseStaysBusy(start: nat, end: nat) returns (r: Status, ghost polls: nat)
      requires Valid() && Quiet(trace)
      requires forall n: nat :: n >= count ==> card(n).ok && card(n).busy
      modifies this`trace, this`count
      ensures Valid() && Quiet(trace) && r in {Ok, RequestNotApplicable, LockUnlockFailed}
      ensures r == Ok ==> polls == 0x1_0000_0000 && trace != [] && trace[|trace| - 1].busy
    {
      hide Safe, Address, Meant, Polls, BusyBefore, PlaceOf, Keeps;
      ghost var before := trace;
      ghost var first, last;
      r, first, last, polls := EraseBlocks(start, end);
      if |trace| > |before| {
        assert trace[|trace| - 1] == Exchange(trace[|trace| - 1].order, card(|trace| - 1));
        assert Since(before)[|Since(before)| - 1] == trace[|trace| - 1];
      }
    }

    /** SD_HighSpeed: the SCR, and for a card whose version allows it an ordinary command that shares its number
        with the application command for the bus width.  The card may answer that it did not switch. */
    method HighSpeed() returns (r: Status, ghost switched: bool)
      requires Valid() && Quiet(trace)
      modifies this`trace, this`count
      ensures Valid() && Quiet(trace) && old(trace) <= trace
      ensures Meant(trace) <==> old(Meant(trace))
      ensures Performs(Since(old(trace)),
                       [Cmd(16, 8), Cmd(55, rca * 0x1_0000), App(51, 0)]
                       + (if switched then [Cmd(16, 64), Cmd(6, 0x80FF_FF01)] else []), r)
      ensures r in {Ok, ReplyError, DataError, UnsupportedFeature}
      ensures r == DataError ==> |Since(old(trace))| in {3, 5}
      ensures r == UnsupportedFeature ==> switched && |Since(old(trace))| == 5
    {
      hide Safe, From, Performs, Address, Meant, Dangling;
      switched := false;
      SizedByNumber(8, rca, APP_SEND_SCR, 0);
      ghost var p := SizedPlan(8, rca, APP_SEND_SCR, 0);
      assert p + SwitchPlan(false) == p;
      r := FindScr();
      var allowed: bool := *;
      if r != Ok || !allowed {
        return;
      }
      switched := true;
      ghost var t1 := trace;
      Complete(Since(old(trace)), p);
      r := SendPlan([Cmd(SET_BLOCKLEN, 64), Cmd(HS_SWITCH, HS_SWITCH_ARGUMENT)]);
      r := ReceiveSwitch(r, t1);
      Sequel(old(trace), t1, trace, p, SwitchPlan(true), r);
    }

    /** The data of the switch command, which say whether the card switched. */
    method ReceiveSwitch(sent: Status, ghost before: seq<Sent>) returns (r: Status)
      requires before <= trace && Performs(Since(before), SwitchPlan(true), sent) && sent in {Ok, ReplyError}
      ensures Performs(Since(before), SwitchPlan(true), r) && r in {Ok, ReplyError, DataError, UnsupportedFeature}
      ensures r in {DataError, UnsupportedFeature} ==> |Since(before)| == 2
    {
      r := ReceiveData(sent, SwitchPlan(true), before);
      if r == Ok {
        var switched: bool := *;
        r := if switched then Ok else UnsupportedFeature;
      }
    }

    /** Where the card and the driver part: the card takes a CMD55 whose reply the driver does not accept, and reads the
        status command that comes next as ACMD13.  That is the case exactly if the card took it. */
    method StatusAfterRefusal() returns (r: Status)
      requires Valid() && Quiet(trace) && Meant(trace) && card(count).ok && !card(count + 1).ok
      modifies this`trace, this`count
      ensures Valid() && Quiet(trace) && (Meant(trace) <==> !card(old(count) + 1).taken)
    {
      hide Keeps, Quiet, Safe, Address, Meant;
      SizedByNumber(8, rca, APP_SEND_SCR, 0);
      ghost var before := trace;
      r := FindScr();
      RefusedAtOnce(before, trace, card, rca);
      r := SendStatus();
    }

    /** CMD3: the card publishes its address, which the driver keeps. */
    method PublishAddress() returns (r: Status)
      requires Valid() && Quiet(trace)
      modifies this`trace, this`count, this`rca
      ensures Valid() && Quiet(trace) && old(trace) <= trace && r in {Ok, ReplyError}
      ensures Meant(trace) <==> old(Meant(trace))
      ensures Performs(Since(old(trace)), [Cmd(3, 0)], r)
      ensures rca == if r == Ok then card(old(count)).rca else old(rca)
    {
      hide Safe, Meant, From, Address;
      var reply := card(count);
      r := if reply.ok then Ok else ReplyError;
      if reply.ok {
        rca := reply.rca;
      }
      Grows(trace, card, Cmd(SET_REL_ADDR, 0));
      trace, count := trace + [Exchange(Cmd(SET_REL_ADDR, 0), reply)], count + 1;
    }

    /** SD_InitializeCards, for the card types that SD_PowerON sets. */
    method InitializeCards(powered: bool) returns (r: Status)
      requires Valid() && Quiet(trace)
      modifies this`trace, this`count, this`rca
      ensures Valid() && Quiet(trace) && old(trace) <= trace
      ensures Meant(trace) <==> old(Meant(trace))
      ensures !powered ==> r == RequestNotApplicable && trace == old(trace)
      ensures powered ==> r in {Ok, ReplyError}
      ensures powered ==>
        Performs(Since(old(trace)),
                 [Cmd(2, 0)] + [Cmd(3, 0)] + [Cmd(9, rca * 0x1_0000)], r)
    {
      hide Safe, Meant, Dangling, From, Address, Performs;
      if !powered {
        return RequestNotApplicable;
      }
      ghost var p, q := [Cmd(ALL_SEND_CID, 0)], [Cmd(SET_REL_ADDR, 0)];
      r := Send(ALL_SEND_CID, 0);
      if r != Ok {
        StopsShort(Since(old(trace)), p, q, r);
        StopsShort(Since(old(trace)), p + q, [Cmd(SEND_CSD, rca * 0x1_0000)], r);
        return;
      }
      ghost var t1 := trace;
      r := PublishAddress();
      Sequel(old(trace), t1, trace, p, q, r);
      if r != Ok {
        StopsShort(Since(old(trace)), p + q, [Cmd(SEND_CSD, rca * 0x1_0000)], r);
        return;
      }
      ghost var t2 := trace;
      r := Send(SEND_CSD, rca * 0x1_0000);
      Sequel(old(trace), t2, trace, p + q, [Cmd(SEND_CSD, rca * 0x1_0000)], r);
    }

    // ---------- power on ----------

    /** SD_PowerON.  The first CMD55 is sent only if CMD8 was not answered, and its own reply is ignored;
        then come up to 65535 trials of ACMD41. */
    method PowerOn() returns (r: Status, ghost opening: seq<Sent>, ghost trials: seq<Sent>)
      requires Valid() && Quiet(trace)
      modifies this`trace, this`count, this`cardType
      ensures Valid() && Quiet(trace) && trace == old(trace) + opening + trials
      ensures Meant(trace) <==> old(Meant(trace))
      ensures Opening(opening) && (trials != [] ==> Opened(opening))
      ensures Keeps(trials, Trials(Window(opening), 65535))
      ensures NotReadyBefore(trials)
      ensures r == Ok <==> Opened(opening) && Ready(trials) && |trials| < 2 * 65535
      ensures r == InvalidVoltRange <==> Opened(opening) && !Refused(trials) && |trials| == 2 * 65535
      ensures r == ReplyError <==> !Opened(opening) || Refused(trials)
      ensures r in {Ok, InvalidVoltRange, ReplyError}
      ensures cardType == if r == Ok && trials[|trials| - 1].high then HighCapacity
                          else if Answered(opening) then StdCapacityV2 else old(cardType)
    {
      hide Safe, Meant, Dangling, From, Performs, Trials, Keeps, NotReadyBefore, Address, Quiet;
      trials := [];
      var answered;
      r, answered, opening := Open();
      NoTrials(Window(opening));
      if r != Ok {
        return;
      }
      var high;
      r, high, trials := TryVoltage(if answered then VOLTAGE_WINDOW + HIGH_CAPACITY_BIT else VOLTAGE_WINDOW);
      if r == Ok && high {
        cardType := HighCapacity;
      }
    }

    /** A card that accepts everything and first says that it is ready in trial number `first` is taken exactly if
        that comes before the last trial: a card that becomes ready in the very last one is turned away. */
    method PowerOnReadyAt(first: nat) returns (r: Status)
      requires Valid() && Quiet(trace) && first > 0
      requires forall n: nat :: n >= count ==> card(n).ok
      requires forall n: nat :: n >= count + 3 && card(n).ready ==> n >= count + 2 + 2 * first
      requires card(count + 2 + 2 * first).ready
      modifies this`trace, this`count, this`cardType
      ensures Valid() && Quiet(trace)
      ensures r == if first < 65535 then Ok else InvalidVoltRange
    {
      hide Meant, Dangling, Quiet, Safe, Performs, Address, Trials;
      ghost var before := trace;
      ghost var opening, trials;
      r, opening, trials := PowerOn();
      AllAccepted(before, opening, trials, card, trace);
      if |trials| >= 2 * first {
        ReplyOfTrial(before, opening, trials, card, trace, 2 * first - 1);
        TrialIsApp(trials, Window(opening), 2 * first - 1);
      }
      if trials != [] {
        ReplyOfTrial(before, opening, trials, card, trace, |trials| - 1);
      }
    }

    /** Everything before the trials. */
    method Open() returns (r: Status, answered: bool, ghost opening: seq<Sent>)
      requires Valid() && Quiet(trace)
      modifies this`trace, this`count, this`cardType
      ensures Valid() && (r != Ok ==> Quiet(trace)) && trace == old(trace) + opening && r in {Ok, ReplyError}
      ensures Meant(trace) <==> old(Meant(trace))
      ensures Opening(opening) && answered == Answered(opening) && (r == Ok <==> Opened(opening))
      ensures cardType == if answered then StdCapacityV2 else old(cardType)
    {
      hide Quiet, Safe, Meant, Dangling, From, Performs, Address;
      answered := false;
      ghost var s0, s1, s2, s3;
      r, s0 := SendOne(GO_IDLE_STATE, 0);
      opening := [s0];
      if r != Ok {
        return;
      }
      r, s1 := SendOne(SEND_IF_COND, CHECK_PATTERN);
      answered := r == Ok;
      if answered {
        cardType := StdCapacityV2;
        r, s3 := SendOne(APP_CMD, 0);
        opening := [s0, s1, s3];
      } else {
        r, s2 := SendOne(APP_CMD, 0);
        r, s3 := SendOne(APP_CMD, 0);
        opening := [s0, s1, s2, s3];
      }
    }

    /** The loop over ACMD41: the card says in its reply whether it is ready and of high capacity. */
    method TryVoltage(window: nat) returns (r: Status, high: bool, ghost trials: seq<Sent>)
      requires Valid()
      modifies this`trace, this`count
      ensures Valid() && Quiet(trace) && trace == old(trace) + trials && r in {Ok, InvalidVoltRange, ReplyError}
      ensures Meant(trace) <==> old(Meant(trace))
      ensures Keeps(trials, Trials(window, MAX_VOLT_TRIAL)) && (r == ReplyError <==> Refused(trials))
      ensures NotReadyBefore(trials)
      ensures r == Ok <==> Ready(trials) && |trials| < 2 * MAX_VOLT_TRIAL
      ensures r == InvalidVoltRange <==> !Refused(trials) && |trials| == 2 * MAX_VOLT_TRIAL
      ensures r == Ok ==> high == trials[|trials| - 1].high
    {
      hide Safe, Meant, Dangling, From, Performs, Trials, Keeps, Refused, Quiet, Address, NotReadyBefore, Ready;
      var n, ready := 0, false;
      r, high, trials := Ok, false, [];
      NoTrials(window);
      while !ready && n < MAX_VOLT_TRIAL
        invariant 0 <= n <= MAX_VOLT_TRIAL && |trials| == 2 * n && (n > 0 ==> Quiet(trace)) && r == Ok
        invariant Valid() && trace == old(trace) + trials
        invariant Keeps(trials, Trials(window, MAX_VOLT_TRIAL)) && !Refused(trials)
        invariant Meant(trace) <==> old(Meant(trace))
        invariant NotReadyBefore(trials) && ready == Ready(trials) && (n > 0 ==> high == trials[|trials| - 1].high)
      {
        ghost var sent;
        r, ready, high, sent := TryOnce(window, trials);
        trials := trials + sent;
        if r != Ok {
          return;
        }
        n := n + 1;
      }
      if n >= MAX_VOLT_TRIAL {
        r := InvalidVoltRange;
      }
    }

    /** One trial: the bits are read from the last reply. */
    method TryOnce(window: nat, ghost trials: seq<Sent>)
      returns (r: Status, ready: bool, high: bool, ghost sent: seq<Sent>)
      requires Valid() && |trials| % 2 == 0 && |trials| < 2 * MAX_VOLT_TRIAL
      requires Keeps(trials, Trials(window, MAX_VOLT_TRIAL)) && !Refused(trials)
      requires NotReadyBefore(trials) && !Ready(trials)
      modifies this`trace, this`count
      ensures Valid() && Quiet(trace) && trace == old(trace) + sent && r in {Ok, ReplyError}
      ensures Meant(trace) <==> old(Meant(trace))
      ensures Keeps(trials + sent, Trials(window, MAX_VOLT_TRIAL)) && NotReadyBefore(trials + sent)
      ensures (Refused(trials + sent) <==> r == ReplyError) && (Ready(trials + sent) <==> r == Ok && ready)
      ensures r == Ok ==> |sent| == 2 && high == sent[1].high
    {
      hide Safe, Meant, Dangling, From, Performs, Trials, Keeps, Refused, Quiet, Address, NotReadyBefore, Ready;
      AppByNumber(0, APP_OP_COND, window);
      ready, high := false, false;
      r := SendAnnounced(0, APP_OP_COND, window);
      sent := Since(old(trace));
      TrialStep(trials, sent, window, r);
      if r == Ok {
        ready, high := Response().ready, Response().high;
      }
    }
  }

  /** The card was busy at every poll but the last. */
  predicate BusyBefore(trace: seq<Sent>, polls: nat) {
    polls <= |trace| && forall i :: |trace| - polls <= i < |trace| - 1 ==> trace[i].busy
  }

  lemma OneMore(before: seq<Sent>, trace: seq<Sent>, order: Order, r: Status)
    requires before <= trace && Performs(trace[|before|..], [order], r) && r in {Ok, ReplyError}
    ensures |trace| == |before| + 1 && trace == before + [trace[|before|]]
  {
  }

  /** SCR commands of which the first is accepted and the CMD55 is not. */
  lemma RefusedAtOnce(before: seq<Sent>, trace: seq<Sent>, card: nat -> Reply, rca: nat)
    requires before < trace && From(trace, card) && Keeps(trace[|before|..], SizedPlan(8, rca, APP_SEND_SCR, 0))
    requires card(|before|).ok && !card(|before| + 1).ok
    requires Refused(trace[|before|..]) || |trace| == |before| + 3
    ensures |trace| == |before| + 2 && (Dangling(trace) <==> card(|before| + 1).taken)
  {
    var sent := trace[|before|..];
    forall i | 0 <= i < |sent| ensures sent[i] == Exchange(SizedPlan(8, rca, APP_SEND_SCR, 0)[i], card(|before| + i)) {
      assert trace[|before| + i] == sent[i];
    }
  }

  /** The card has said that it is ready. */
  predicate Ready(trials: seq<Sent>) {
    trials != [] && !Refused(trials) && trials[|trials| - 1].order.App? && trials[|trials| - 1].ready
  }

  /** No reply to ACMD41 before the last command said so. */
  predicate NotReadyBefore(trials: seq<Sent>) {
    forall i :: 0 <= i < |trials| - 1 && trials[i].order.App? ==> !trials[i].ready
  }

  lemma AllAccepted(before: seq<Sent>, opening: seq<Sent>, trials: seq<Sent>, card: nat -> Reply, trace: seq<Sent>)
    requires trace == before + opening + trials && From(trace, card) && Opening(opening)
    requires forall n: nat :: n >= |before| ==> card(n).ok
    ensures |opening| == 3 && Opened(opening) && !Refused(trials)
  {
    forall i | 0 <= i < |opening| ensures opening[i].ok {
      assert trace[|before| + i] == opening[i];
    }
    if trials != [] {
      assert trace[|before| + |opening| + |trials| - 1] == trials[|trials| - 1];
    }
  }

  lemma ReplyOfTrial(before: seq<Sent>, opening: seq<Sent>, trials: seq<Sent>, card: nat -> Reply, trace: seq<Sent>,
    i: nat)
    requires trace == before + opening + trials && From(trace, card) && i < |trials|
    ensures trials[i] == Exchange(trials[i].order, card(|before| + |opening| + i))
  {
    assert trace[|before| + |opening| + i] == trials[i];
  }

  lemma TrialIsApp(trials: seq<Sent>, window: nat, i: nat)
    requires Keeps(trials, Trials(window, MAX_VOLT_TRIAL)) && i < |trials| && i % 2 == 1
    ensures trials[i].order.App?
  {
  }

  lemma NoTrials(window: nat)
    ensures Keeps([], Trials(window, MAX_VOLT_TRIAL)) && !Refused([]) && NotReadyBefore([]) && !Ready([])
  {
  }

  lemma TrialStep(trials: seq<Sent>, sent: seq<Sent>, window: nat, r: Status)
    requires |trials| % 2 == 0 && |trials| < 2 * MAX_VOLT_TRIAL && r in {Ok, ReplyError}
    requires Keeps(trials, Trials(window, MAX_VOLT_TRIAL)) && !Refused(trials)
    requires Performs(sent, AppPlan(0, APP_OP_COND, window), r)
    requires NotReadyBefore(trials) && !Ready(trials)
    ensures Keeps(trials + sent, Trials(window, MAX_VOLT_TRIAL))
    ensures Refused(trials + sent) <==> r == ReplyError
    ensures r == Ok ==> |sent| == 2 && sent[1].order.App?
    ensures NotReadyBefore(trials + sent) && (Ready(trials + sent) <==> r == Ok && sent[1].ready)
  {
  }

  /** CMD0, CMD8, and one or two CMD55 to no card in particular. */
  predicate Opening(sent: seq<Sent>) {
    && 1 <= |sent| <= 4
    && sent[0].order == Cmd(0, 0) && (sent[0].ok <==> |sent| > 1)
    && (|sent| > 1 ==> sent[1].order == Cmd(8, 0x1AA) && |sent| == if sent[1].ok then 3 else 4)
    && (forall i :: 2 <= i < |sent| ==> sent[i].order == Cmd(55, 0))
  }

  predicate Answered(sent: seq<Sent>) {
    |sent| > 1 && sent[1].ok
  }

  predicate Opened(sent: seq<Sent>) {
    |sent| > 1 && sent[|sent| - 1].ok
  }

  /** A card that answers CMD8 is asked for high capacity. */
  function Window(opening: seq<Sent>): nat {
    if Answered(opening) then 0xC010_0000 else 0x8010_0000
  }

  function Trials(window: nat, n: nat): (t: seq<Order>)
    ensures |t| == 2 * n
    ensures forall i :: 0 <= i < 2 * n ==> t[i] == if i % 2 == 0 then Cmd(55, 0) else App(41, window)
  {
    if n == 0 then [] else Trials(window, n - 1) + [Cmd(APP_CMD, 0), App(APP_OP_COND, window)]
  }

  lemma NothingSent(plan: seq<Order>, r: Status)
    requires r != Ok && r != ReplyError
    ensures Performs([], plan, r)
  {
  }

  function AppPlan(address: nat, index: nat, argument: nat): seq<Order> {
    [Cmd(APP_CMD, address * 0x1_0000)] + [App(index, argument)]
  }

  function SizedPlan(size: nat, address: nat, index: nat, argument: nat): seq<Order> {
    [Cmd(SET_BLOCKLEN, size)] + AppPlan(address, index, argument)
  }

  /** SCR first, then the width. */
  function WideBusPlan(rca: nat, enable: bool): seq<Order> {
    SizedPlan(8, rca, APP_SEND_SCR, 0) + AppPlan(rca, APP_SET_BUSWIDTH, if enable then 2 else 0)
  }

  /** An ordinary command that neither announces another nor changes the address. */
  predicate Ordinary(o: Order) {
    o.Cmd? && o.index != APP_CMD && o.index != SET_REL_ADDR
  }

  function Polls(rca: nat, n: nat): (t: seq<Order>)
    ensures |t| == n && forall i :: 0 <= i < n ==> t[i] == Cmd(13, rca * 0x1_0000)
  {
    if n == 0 then [] else Polls(rca, n - 1) + [Cmd(SEND_STATUS, rca * 0x1_0000)]
  }

  function SwitchPlan(switched: bool): seq<Order> {
    if switched then [Cmd(SET_BLOCKLEN, 64), Cmd(HS_SWITCH, HS_SWITCH_ARGUMENT)] else []
  }

  /** Where on the card a command starts: a high-capacity card counts blocks of 512 bytes, the others bytes. */
  predicate PlaceOf(cardType: CardType, address: nat, argument: nat) {
    if cardType == HighCapacity then 512 * argument <= address % 0x200_0000_0000 < 512 * argument + 512
    else argument == address % 0x1_0000_0000
  }

  lemma PlaceIs(cardType: CardType, address: nat)
    ensures cardType == HighCapacity ==> PlaceOf(cardType, address, address / 512 % 0x1_0000_0000)
    ensures cardType != HighCapacity ==> PlaceOf(cardType, address, address % 0x1_0000_0000)
    ensures address / 1 == address
  {
    var k := address / 512;
    var h, l := k / 0x1_0000_0000, k % 0x1_0000_0000;
    var o := address % 512;
    assert address == h * 0x200_0000_0000 + (512 * l + o);
    Rest(h, 512 * l + o);
  }

  lemma Rest(h: nat, x: nat)
    requires x < 0x200_0000_0000
    ensures (h * 0x200_0000_0000 + x) % 0x200_0000_0000 == x
  {
  }

  lemma AppByNumber(address: nat, index: nat, argument: nat)
    ensures AppPlan(address, index, argument) == [Cmd(55, address * 0x1_0000), App(index, argument)]
  {
  }

  lemma SizedByNumber(size: nat, rca: nat, index: nat, argument: nat)
    ensures SizedPlan(size, rca, index, argument) == [Cmd(16, size), Cmd(55, rca * 0x1_0000), App(index, argument)]
  {
  }

  lemma WideBusByNumber(rca: nat, enable: bool)
    ensures WideBusPlan(rca, enable)
         == [Cmd(16, 8), Cmd(55, rca * 0x1_0000), App(51, 0),
             Cmd(55, rca * 0x1_0000), App(6, if enable then 2 else 0)]
  {
    SizedByNumber(8, rca, APP_SEND_SCR, 0);
  }

  lemma NoPolls(rca: nat)
    ensures Polls(rca, 0) == []
  {
  }

  lemma MorePolls(rca: nat, n: nat)
    ensures Polls(rca, n) + [Cmd(SEND_STATUS, rca * 0x1_0000)] == Polls(rca, n + 1)
  {
  }

  lemma EmptyPlan()
    ensures Performs([], [], Ok)
  {
  }
}
