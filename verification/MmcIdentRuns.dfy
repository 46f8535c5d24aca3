/** What every card identification does, whatever the card answers. */
module MmcIdentRuns {
  import opened MmcCsd
  import opened MmcIdent

  // ----- The protocol as a graph

  /** Where an identification stands. */
  datatype Node = Node(stage: Stage, istage: nat, count: nat)

  function NodeOf(s: State): Node
  {
    Node(s.stage, s.istage, s.count)
  }

  /** The command sent on the way from one node to another. */
  predicate Edge(x: Node, c: Cmd, y: Node)
  {
    var plain := y.istage == x.istage && y.count == x.count;
    match x.stage
    case Start =>
      && c == Cmd(GO_IDLE_STATE, 0)
      && y == if x.count < 3 then x.(count := x.count + 1) else x.(stage := GoIdle, count := 0)
    case GoIdle => c == Cmd(IF_COND, 0x1AA) && y == Node(CardVersion, 0, x.count)
    case CardVersion => c == Cmd(APP_CMD, 0) && y == Node(SdPowerup, 1, x.count)
    case SdPowerup => SdEdge(x, c, y)
    case MmcPowerup => MmcEdge(x, c, y)
    case AllSendCid => c == Cmd(SET_RELATIVE_ADDR, 0) && y.stage == SetAddress && plain
    case SetAddress => c.opcode == SEND_CID && y.stage == SendCid && plain
    case SendCid => c.opcode == SEND_CSD && y.stage == SendCsd && plain
    case SendCsd => c.opcode == SELECT_CARD && y.stage == SelDesCard && plain
    case SelDesCard => c.opcode == SEND_STATUS && y.stage == CheckSts && plain
    case CheckSts => plain && (ToFinal(c, y) || (c.opcode == APP_CMD && (y.stage == SetBwApp || y.stage == SendScr)))
    case SetBwApp => c == Cmd(SET_BUS_WIDTH, WIDTH_4) && y.stage == SetBw && plain
    case SetBw => plain && (ToFinal(c, y) || (c.opcode == APP_CMD && y.stage == SendScr))
    case SendScr => c == Cmd(SEND_SCR, 0) && y.stage == ParseScr && plain
    case ParseScr => plain && (ToFinal(c, y) || (c == Cmd(SET_BUS_WIDTH, SWITCH_QUERY) && y.stage == CheckMode))
    case CheckMode => plain && (ToFinal(c, y) || (c == Cmd(SET_BUS_WIDTH, SWITCH_SELECT) && y.stage == SwitchMode))
    case SwitchMode => plain && ToFinal(c, y)
    case Final => false
    case Idle => false
  }

  /** Rounds of APP_CMD, SD_SEND_OP_COND, APP_CMD, unless the first APP_CMD times out. */
  predicate SdEdge(x: Node, c: Cmd, y: Node)
  {
    var again := y == x.(istage := x.istage + 1);
    && x.istage <= MAX_STAGE
    && if c.opcode == GO_IDLE_STATE then c.arg == 0 && x.istage == 1 && y == Node(MmcPowerup, 0, x.count)
       else if c.opcode == ALL_SEND_CID then c.arg == 0 && x.istage % 3 == 2 && y == Node(AllSendCid, 0, x.count)
       else again && if x.istage % 3 == 1 then c.opcode == SD_SEND_OP_COND else c == Cmd(APP_CMD, 0)
  }

  predicate MmcEdge(x: Node, c: Cmd, y: Node)
  {
    && x.istage <= MAX_STAGE
    && if c.opcode == ALL_SEND_CID then c.arg == 0 && 0 < x.istage && y == Node(AllSendCid, 0, x.count)
       else c == Cmd(SEND_OP_COND, if x.istage == 0 then 0 else OCR) && y == x.(istage := x.istage + 1)
  }

  predicate ToFinal(c: Cmd, y: Node)
  {
    c == Cmd(SET_BLOCKLEN, 512) && y.stage == Final
  }

  /** The only successful interrupt that changes nothing: neither error nor command bit while the card goes idle. */
  predicate Spurious(s: State, io: Io)
  {
    s.stage == GoIdle && !io.error && !io.command
  }

  /** A step either follows an edge, or sends nothing: it is spurious, completes, or fails where it stands. */
  predicate Step(s: State, io: Io, o: Outcome)
  {
    var x, y := NodeOf(s), NodeOf(o.s);
    if |o.s.sent| == |s.sent| then
      && o.s.sent == s.sent
      && if Spurious(s, io) then o == Outcome(s, true)
         else if s.stage == Final then y == x.(stage := Idle)
         else !o.ok && (y == x || (s.stage == MmcPowerup && s.istage <= MAX_STAGE && y == x.(istage := x.istage + 1)))
    else
      && |o.s.sent| == |s.sent| + 1 && s.sent == o.s.sent[..|s.sent|]
      && !Spurious(s, io) && Edge(x, o.s.sent[|s.sent|], y)
  }

  /** Sending a command along an edge is a step. */
  lemma SentStep(s: State, io: Io, s1: State, opcode: nat, arg: bv32)
    requires s1.sent == s.sent && !Spurious(s, io) && Edge(NodeOf(s), Cmd(opcode, arg), NodeOf(s1))
    ensures Step(s, io, Send(s1, io, opcode, arg))
  {
  }

  lemma FailedStep(s: State, io: Io, s1: State)
    requires s1.sent == s.sent && !Spurious(s, io) && s.stage != Final && NodeOf(s1) == NodeOf(s)
    ensures Step(s, io, Fail(s1))
  {
  }

  lemma SdSentStep(s: State, io: Io, s1: State, opcode: nat, arg: bv32)
    requires s.stage == SdPowerup && s1.sent == s.sent && SdEdge(NodeOf(s), Cmd(opcode, arg), NodeOf(s1))
    ensures Step(s, io, Send(s1, io, opcode, arg))
  {
    SentStep(s, io, s1, opcode, arg);
  }

  lemma SdReplyStep(s: State, io: Io)
    requires s.stage == SdPowerup && s.istage <= MAX_STAGE && s.istage % 3 == 2
    ensures Step(s, io, SdReplyNext(s, io))
  {
    hide Step, Edge, Send, PoweredUp, HighCapacity;
    var s1 := s.(hc := s.hc || HighCapacity(io));
    SdSentStep(s, io, s1.(stage := AllSendCid, istage := 0), ALL_SEND_CID, 0);
    SdSentStep(s, io, s1.(istage := s.istage + 1), APP_CMD, 0);
  }

  lemma SdPowerupStep(s: State, io: Io)
    requires s.stage == SdPowerup
    ensures Step(s, io, SdPowerupNext(s, io))
  {
    hide Step, Edge, Send, Fail, SdReplyNext, WithCapacity;
    if s.istage > MAX_STAGE || io.error {
      FailedStep(s, io, s);
    }
    if s.istage <= MAX_STAGE {
      if s.istage % 3 == 0 {
        SdSentStep(s, io, s.(istage := s.istage + 1), APP_CMD, 0);
      } else if s.istage % 3 == 1 {
        SdSentStep(s, io, s.(istage := s.istage + 1), SD_SEND_OP_COND, OcrFor(s.istage == 1, s.version));
        if s.istage == 1 {
          SdSentStep(s, io, s.(stage := MmcPowerup, istage := 0, ppl := false), GO_IDLE_STATE, 0);
        }
      } else {
        SdReplyStep(s, io);
      }
    }
  }

  lemma CardVersionStep(s: State, io: Io)
    requires s.stage == CardVersion
    ensures Step(s, io, CardVersionNext(s, io))
  {
    FailedStep(s, io, s);
    SentStep(s, io, s.(version := Sd1, stage := SdPowerup, istage := 1), APP_CMD, 0);
    SentStep(s, io, s.(version := Sd2, stage := SdPowerup, istage := 1), APP_CMD, 0);
    hide Step, Edge, Send, Fail, SdReplyNext, WithCapacity;
  }

  lemma MmcPowerupStep(s: State, io: Io)
    requires s.stage == MmcPowerup
    ensures Step(s, io, MmcPowerupNext(s, io))
  {
    hide PoweredUp;
    var s1 := s.(istage := s.istage + 1);
    if s.istage > MAX_STAGE {
      FailedStep(s, io, s);
    } else {
      SentStep(s, io, s1, SEND_OP_COND, if s.istage == 0 then 0 else OCR);
      if 0 < s.istage {
        SentStep(s, io, s1.(stage := AllSendCid, istage := 0, version := Mmc), ALL_SEND_CID, 0);
      }
      assert Step(s, io, Fail(s1));
    }
    hide Step, Edge, Send, Fail;
  }

  lemma SdClockStep(h: Host, s: State, io: Io, s1: State)
    requires s.stage.SetBw? || s.stage.ParseScr? || s.stage.CheckMode? || s.stage.SwitchMode?
    requires NodeOf(s1) == NodeOf(s) && s1.sent == s.sent
    ensures Step(s, io, SdClock(h, s1, io))
  {
    hide TranSpeed;
  }

  /** Every interrupt is a step of the graph. */
  lemma NextSteps(h: Host, s: State, io: Io)
    requires s.stage != Idle
    ensures Step(s, io, Next(h, s, io))
  {
    match s.stage
    case Start => StartStep(s, io);
    case CardVersion => CardVersionStep(s, io);
    case SdPowerup => SdPowerupStep(s, io);
    case MmcPowerup => MmcPowerupStep(s, io);
    case SetBw | ParseScr | CheckMode | SwitchMode => ModeSteps(h, s, io);
    case CheckSts => StatusStep(h, s, io);
    case _ => LinearSteps(h, s, io);
  }

  lemma StartStep(s: State, io: Io)
    requires s.stage == Start
    ensures Step(s, io, StartNext(s, io))
  {
    hide Step, Edge, Send, Fail;
    var s1 := if s.count == 0 then s.(wp := false, hs := false, hc := false, ppl := true) else s;
    FailedStep(s, io, s1);
    if s.count < 3 {
      StartEdge(s, io, s1, s1.(count := s.count + 1));
    } else {
      StartEdge(s, io, s1, s1.(stage := GoIdle, count := 0));
    }
  }

  lemma StartEdge(s: State, io: Io, s1: State, s2: State)
    requires s.stage == Start && s1.sent == s.sent && NodeOf(s1) == NodeOf(s)
    requires s2 == if s.count < 3 then s1.(count := s.count + 1) else s1.(stage := GoIdle, count := 0)
    ensures Step(s, io, Send(s2, io, GO_IDLE_STATE, 0))
  {
    hide Step, Send;
    SentStep(s, io, s2, GO_IDLE_STATE, 0);
  }

  lemma StatusStep(h: Host, s: State, io: Io)
    requires s.stage == CheckSts
    ensures Step(s, io, StatusNext(h, s, io))
  {
    hide Step, Send, Fail, TranSpeed, CardAddress, Edge;
    if io.error {
      FailedStep(s, io, s);
    } else if s.version == Mmc {
      var clock := Clock(if h.forceClock then h.clock else TranSpeed(s.csd.tranSpeed), false);
      StatusEdge(s, io, s.(bus := 1, clocks := s.clocks + [clock], stage := Final), SET_BLOCKLEN, 512);
    } else {
      var width := if h.forceWidth then h.width else if h.bw4 then 4 else 1;
      var s1 := s.(bus := width, stage := if width == 4 then SetBwApp else SendScr);
      StatusEdge(s, io, s1, APP_CMD, CardAddress(s.rca));
    }
  }

  lemma StatusEdge(s: State, io: Io, s1: State, opcode: nat, arg: bv32)
    requires s.stage == CheckSts && s1.sent == s.sent && s1.istage == s.istage && s1.count == s.count
    requires if opcode == APP_CMD then s1.stage == SetBwApp || s1.stage == SendScr
             else opcode == SET_BLOCKLEN && arg == 512 && s1.stage == Final
    ensures Step(s, io, Send(s1, io, opcode, arg))
  {
    hide Step, Send;
    SentStep(s, io, s1, opcode, arg);
  }

  lemma ModeSteps(h: Host, s: State, io: Io)
    requires s.stage.SetBw? || s.stage.ParseScr? || s.stage.CheckMode? || s.stage.SwitchMode?
    ensures Step(s, io, Next(h, s, io))
  {
    FailedStep(s, io, s);
    SdClockStep(h, s, io, s);
    SdClockStep(h, s, io, s.(hs := s.hs || io.hsFunction == 1));
    match s.stage
    case SetBw => SentStep(s, io, s.(stage := SendScr), APP_CMD, CardAddress(s.rca));
    case ParseScr => SentStep(s, io, s.(stage := CheckMode), SET_BUS_WIDTH, SWITCH_QUERY);
    case CheckMode => SentStep(s, io, s.(stage := SwitchMode), SET_BUS_WIDTH, SWITCH_SELECT);
    case SwitchMode =>
    hide Step, Edge, Send, Fail, SdClock, CardAddress, HasSwitch;
  }

  lemma LinearSteps(h: Host, s: State, io: Io)
    requires s.stage.GoIdle? || s.stage.AllSendCid? || s.stage.SetAddress? || s.stage.SendCid? || s.stage.SendCsd?
          || s.stage.SelDesCard? || s.stage.SetBwApp? || s.stage.SendScr? || s.stage.Final?
    ensures Step(s, io, Next(h, s, io))
  {
    hide CardAddress, PublishedRca, ParseSd, ParseMmc;
  }

  // ----- Termination

  /** The counters stay in the ranges the handlers keep them in. */
  predicate Counted(s: State)
  {
    && s.count <= 3
    && (s.stage == SdPowerup || s.stage == MmcPowerup ==> s.istage <= MAX_STAGE + 1)
  }

  /** How many commands an identification can still send from a state. */
  function Budget(s: State): nat
    requires Counted(s)
  {
    match s.stage
    case Start => 2019 + (4 - s.count)
    case GoIdle => 2019
    case CardVersion => 2018
    case SdPowerup => 1016 + (1001 - s.istage)
    case MmcPowerup => 14 + (1001 - s.istage)
    case AllSendCid => 13
    case SetAddress => 12
    case SendCid => 11
    case SendCsd => 10
    case SelDesCard => 9
    case CheckSts => 8
    case SetBwApp => 7
    case SetBw => 6
    case SendScr => 5
    case ParseScr => 4
    case CheckMode => 3
    case SwitchMode => 2
    case Final => 1
    case Idle => 0
  }

  /**
   * Every interrupt sends at most one command, paid for out of the budget; every successful one but a
   * spurious one spends some.
   */
  lemma StepSpends(s: State, io: Io, o: Outcome)
    requires Counted(s) && Step(s, io, o)
    ensures Counted(o.s) && |s.sent| <= |o.s.sent| && |o.s.sent| + Budget(o.s) <= |s.sent| + Budget(s)
    ensures o.ok && !Spurious(s, io) ==> Budget(o.s) < Budget(s)
    ensures Spurious(s, io) ==> o == Outcome(s, true)
  {
  }

  /** How many interrupts of a run did something: not spurious, and not after the end. */
  function Busy(h: Host, s: State, ios: seq<Io>): nat
  {
    if ios == [] then 0
    else
      var o := Run(h, s, ios[..|ios| - 1]);
      Busy(h, s, ios[..|ios| - 1])
        + if o.ok && o.s.stage != Idle && !Spurious(o.s, ios[|ios| - 1]) then 1 else 0
  }

  /**
   Whatever the responses, an identification from a state sends at most Budget commands, and
   after at most Budget + 1 interrupts that are not spurious it has ended.
   */
  lemma {:induction false} RunTerminates(h: Host, s: State, ios: seq<Io>)
    requires Counted(s)
    ensures var o := Run(h, s, ios);
      && Counted(o.s)
      && |o.s.sent| + Budget(o.s) <= |s.sent| + Budget(s)
      && (o.ok ==> Busy(h, s, ios) + Budget(o.s) <= Budget(s))
      && Busy(h, s, ios) <= Budget(s) + 1
  {
    if ios != [] {
      var before := ios[..|ios| - 1];
      RunTerminates(h, s, before);
      var o := Run(h, s, before);
      hide Next, Step;
      if o.ok && o.s.stage != Idle {
        NextSteps(h, o.s, ios[|ios| - 1]);
        StepSpends(o.s, ios[|ios| - 1], Next(h, o.s, ios[|ios| - 1]));
      }
    }
  }

  /** From START with the retry count at 0, at most 2023 commands are ever sent. */
  lemma CommandsBounded(h: Host, s: State, ios: seq<Io>)
    requires s.stage == Start && s.count == 0 && s.sent == []
    ensures |Run(h, s, ios).s.sent| <= 2023
  {
    RunTerminates(h, s, ios);
  }

  // ----- Application commands

  /** ACMD6, ACMD41 and ACMD51 need APP_CMD before them; SWITCH must not have it. */
  predicate CommandOk(c: Cmd, app: bool)
  {
    && (c.opcode == 41 || c.opcode == 51 || c == Cmd(6, 2) ==> app)
    && (c.opcode == 6 && c.arg != 2 ==> !app)
  }

  /** Every command follows, or does not follow, APP_CMD immediately, as it must. */
  predicate AppCommandsOk(sent: seq<Cmd>)
  {
    forall i :: 0 <= i < |sent| ==> CommandOk(sent[i], LastIsApp(sent[..i]))
  }

  predicate LastIsApp(sent: seq<Cmd>)
  {
    sent != [] && sent[|sent| - 1].opcode == 55
  }

  /** Whether the command sent last was APP_CMD, for the stages where it matters. */
  predicate LastOk(x: Node, app: bool)
  {
    match x.stage
    case SdPowerup => x.istage % 3 == 1 ==> app
    case SetBwApp => app
    case SendScr => app
    case ParseScr => !app
    case CheckMode => !app
    case _ => true
  }

  /** The command before each edge to or from these stages. */
  lemma EdgeKeepsLast(x: Node, c: Cmd, y: Node, app: bool)
    requires Edge(x, c, y) && LastOk(x, app)
    ensures LastOk(y, c.opcode == APP_CMD)
    ensures CommandOk(c, app)
  {
  }

  lemma AppCommandsSnoc(sent: seq<Cmd>, c: Cmd)
    requires AppCommandsOk(sent) && CommandOk(c, LastIsApp(sent))
    ensures AppCommandsOk(sent + [c]) && (LastIsApp(sent + [c]) <==> c.opcode == APP_CMD)
  {
    forall i | 0 <= i < |sent + [c]|
      ensures CommandOk((sent + [c])[i], LastIsApp((sent + [c])[..i]))
    {
      assert (sent + [c])[..i] == sent[..i];
      if i == |sent| {
        assert sent[..i] == sent;
      }
    }
  }

  lemma StepKeepsAppCommands(s: State, io: Io, o: Outcome)
    requires AppCommandsOk(s.sent) && LastOk(NodeOf(s), LastIsApp(s.sent)) && Step(s, io, o)
    ensures AppCommandsOk(o.s.sent) && LastOk(NodeOf(o.s), LastIsApp(o.s.sent))
  {
    hide Edge, AppCommandsOk;
    if |o.s.sent| != |s.sent| {
      var c := o.s.sent[|s.sent|];
      hide LastOk;
      EdgeKeepsLast(NodeOf(s), c, NodeOf(o.s), LastIsApp(s.sent));
      assert o.s.sent == s.sent + [c];
      AppCommandsSnoc(s.sent, c);
    }
  }

  /** In every identification, application commands are prefixed as the SD specification, section 4.3.9, asks. */
  lemma {:induction false} RunKeepsAppCommands(h: Host, s: State, ios: seq<Io>)
    requires s.stage == Start && s.sent == []
    ensures var t := Run(h, s, ios).s;
      AppCommandsOk(t.sent) && LastOk(NodeOf(t), LastIsApp(t.sent))
  {
    if ios != [] {
      RunKeepsAppCommands(h, s, ios[..|ios| - 1]);
      var o := Run(h, s, ios[..|ios| - 1]);
      hide Next, Step, AppCommandsOk, LastOk;
      if o.ok && o.s.stage != Idle {
        NextSteps(h, o.s, ios[|ios| - 1]);
        StepKeepsAppCommands(o.s, ios[|ios| - 1], Next(h, o.s, ios[|ios| - 1]));
      }
    }
  }

  // ----- Order of the commands that set the card up

  const SETUP: seq<nat> := [2, 3, 10, 9, 7, 13]

  /** The set-up commands among those sent. */
  function Setup(sent: seq<Cmd>): seq<nat>
  {
    if sent == [] then []
    else
      var op := sent[|sent| - 1].opcode;
      Setup(sent[..|sent| - 1]) + if op in SETUP then [op] else []
  }

  lemma SetupSnoc(sent: seq<Cmd>, c: Cmd)
    ensures Setup(sent + [c]) == Setup(sent) + if c.opcode in SETUP then [c.opcode] else []
  {
    assert (sent + [c])[..|sent + [c]| - 1] == sent;
  }

  /** How many set-up commands have been sent when a stage is reached. */
  function SetupDone(stage: Stage): nat
  {
    match stage
    case AllSendCid => 1
    case SetAddress => 2
    case SendCid => 3
    case SendCsd => 4
    case SelDesCard => 5
    case Start | GoIdle | CardVersion | SdPowerup | MmcPowerup => 0
    case _ => 6
  }

  lemma EdgeKeepsSetup(x: Node, c: Cmd, y: Node)
    requires Edge(x, c, y)
    ensures SETUP[..SetupDone(y.stage)] == SETUP[..SetupDone(x.stage)] + if c.opcode in SETUP then [c.opcode] else []
  {
  }

  /** The set-up commands sent so far are those before the stage. */
  predicate InSetup(s: State)
  {
    Setup(s.sent) == SETUP[..SetupDone(s.stage)]
  }

  lemma StepKeepsSetup(s: State, io: Io, o: Outcome)
    requires InSetup(s) && Step(s, io, o)
    ensures InSetup(o.s)
  {
    hide Edge, Setup;
    if |o.s.sent| != |s.sent| {
      var c := o.s.sent[|s.sent|];
      EdgeKeepsSetup(NodeOf(s), c, NodeOf(o.s));
      SetupSnoc(s.sent, c);
      assert o.s.sent == s.sent + [c];
    }
  }

  lemma {:induction false} RunInSetup(h: Host, s: State, ios: seq<Io>)
    requires s.stage == Start && s.sent == []
    ensures InSetup(Run(h, s, ios).s)
  {
    if ios != [] {
      RunInSetup(h, s, ios[..|ios| - 1]);
      var o := Run(h, s, ios[..|ios| - 1]);
      hide Next, Step, InSetup;
      if o.ok && o.s.stage != Idle {
        NextSteps(h, o.s, ios[|ios| - 1]);
        StepKeepsSetup(o.s, ios[|ios| - 1], Next(h, o.s, ios[|ios| - 1]));
      }
    }
  }

  /** Every identification sends CMD2, CMD3, CMD10, CMD9, CMD7 and CMD13 in this order, each at most once. */
  lemma RunKeepsSetup(h: Host, s: State, ios: seq<Io>)
    requires s.stage == Start && s.sent == []
    ensures var o := Run(h, s, ios);
      Setup(o.s.sent) <= SETUP && Setup(o.s.sent) == SETUP[..SetupDone(o.s.stage)]
  {
    hide Run, Setup;
    RunInSetup(h, s, ios);
  }

  // ----- High speed

  /** The driver found that host and card both have high speed, and asked the card to switch. */
  predicate Asked(h: Host, s: State, io: Io)
  {
    s.stage == CheckMode && !io.error && io.done && io.hsSupport && s.csd.ccc & 0x400 != 0 && h.hs
  }

  /** The card's answer said that it had switched. */
  predicate Switched(s: State, io: Io)
  {
    s.stage == SwitchMode && !io.error && io.done && io.hsFunction == 1
  }

  /** The state in which interrupt i of a run is handled. */
  function At(h: Host, s: State, ios: seq<Io>, i: nat): State
    requires i <= |ios|
  {
    Run(h, s, ios[..i]).s
  }

  ghost predicate AskedBefore(h: Host, s: State, ios: seq<Io>, j: nat)
    requires j <= |ios|
  {
    exists i :: 0 <= i < j && Asked(h, At(h, s, ios, i), ios[i])
  }

  ghost predicate SwitchedBefore(h: Host, s: State, ios: seq<Io>)
  {
    exists j :: 0 <= j < |ios| && Switched(At(h, s, ios, j), ios[j]) && AskedBefore(h, s, ios, j)
  }

  predicate AnyHigh(clocks: seq<Clock>)
  {
    exists k :: 0 <= k < |clocks| && clocks[k].highSpeed
  }

  /** How one interrupt may touch the HS flag, the stage SWITCH_MODE and the clock. */
  predicate HighSpeedOk(h: Host, s: State, io: Io, t: State)
  {
    && (t.stage == SwitchMode ==> s.stage == SwitchMode || Asked(h, s, io))
    && (t.hs ==> s.hs || Switched(s, io))
    && (s.stage == Start && s.count == 0 ==> !t.hs)
    && (AnyHigh(t.clocks) ==> AnyHigh(s.clocks) || t.hs)
  }

  predicate Quiet(s: State, t: State)
  {
    t.hs == s.hs && t.clocks == s.clocks && t.stage != SwitchMode
  }

  lemma SendQuiet(s: State, io: Io, s1: State, opcode: nat, arg: bv32)
    requires Quiet(s, s1)
    ensures Quiet(s, Send(s1, io, opcode, arg).s)
  {
  }

  lemma SdReplyQuiet(s: State, io: Io)
    requires s.stage == SdPowerup
    ensures Quiet(s, SdReplyNext(s, io).s)
  {
    hide Send, PoweredUp, HighCapacity;
    var s1 := s.(hc := s.hc || HighCapacity(io));
    SendQuiet(s, io, s1.(stage := AllSendCid, istage := 0), ALL_SEND_CID, 0);
    SendQuiet(s, io, s1.(istage := s.istage + 1), APP_CMD, 0);
  }

  lemma SdPowerupQuiet(s: State, io: Io)
    requires s.stage == SdPowerup
    ensures Quiet(s, SdPowerupNext(s, io).s)
  {
    hide Send, SdReplyNext, OcrFor;
    SdReplyQuiet(s, io);
    SendQuiet(s, io, s.(istage := s.istage + 1), APP_CMD, 0);
    SendQuiet(s, io, s.(istage := s.istage + 1), SD_SEND_OP_COND, OcrFor(s.istage == 1, s.version));
    SendQuiet(s, io, s.(stage := MmcPowerup, istage := 0, ppl := false), GO_IDLE_STATE, 0);
  }

  lemma MmcPowerupQuiet(s: State, io: Io)
    requires s.stage == MmcPowerup
    ensures Quiet(s, MmcPowerupNext(s, io).s)
  {
    hide Send, PoweredUp;
    var s1 := s.(istage := s.istage + 1);
    SendQuiet(s, io, s1, SEND_OP_COND, 0);
    SendQuiet(s, io, s1, SEND_OP_COND, OCR);
    SendQuiet(s, io, s1.(stage := AllSendCid, istage := 0, version := Mmc), ALL_SEND_CID, 0);
  }

  lemma PowerupQuiet(h: Host, s: State, io: Io)
    requires s.stage.CardVersion? || s.stage.SdPowerup? || s.stage.MmcPowerup?
    ensures Quiet(s, Next(h, s, io).s)
  {
    hide SdPowerupNext, MmcPowerupNext;
    match s.stage
    case CardVersion =>
      SdPowerupQuiet(s.(version := Sd1, stage := SdPowerup, istage := 0), io);
      SdPowerupQuiet(s.(version := Sd2, stage := SdPowerup, istage := 0), io);
    case SdPowerup => SdPowerupQuiet(s, io);
    case MmcPowerup => MmcPowerupQuiet(s, io);
  }

  lemma LinearQuiet(h: Host, s: State, io: Io)
    requires s.stage.GoIdle? || s.stage.AllSendCid? || s.stage.SetAddress? || s.stage.SendCid? || s.stage.SendCsd?
          || s.stage.SelDesCard? || s.stage.SetBwApp? || s.stage.SendScr? || s.stage.Final? || s.stage.Idle?
    ensures Quiet(s, Next(h, s, io).s)
  {
    hide CardAddress, PublishedRca, ParseSd, ParseMmc;
  }

  lemma ClockQuiet(h: Host, s: State, io: Io)
    ensures var t := SdClock(h, s, io).s;
      t.hs == s.hs && t.stage == Final && (AnyHigh(t.clocks) ==> AnyHigh(s.clocks) || s.hs)
  {
    hide TranSpeed;
  }

  lemma SwitchBit(csd: Csd)
    ensures HasSwitch(csd) <==> csd.ccc & 0x400 != 0
  {
  }

  lemma ModesHighSpeed(h: Host, s: State, io: Io)
    requires s.stage.SetBw? || s.stage.ParseScr? || s.stage.CheckMode? || s.stage.SwitchMode?
    ensures HighSpeedOk(h, s, io, Next(h, s, io).s)
  {
    ClockQuiet(h, s, io);
    ClockQuiet(h, s.(hs := s.hs || io.hsFunction == 1), io);
    SwitchBit(s.csd);
    hide SdClock, CardAddress, HasSwitch, AnyHigh;
  }

  lemma SendKeeps(s: State, io: Io, opcode: nat, arg: bv32)
    ensures var t := Send(s, io, opcode, arg).s; t.hs == s.hs && t.clocks == s.clocks && t.stage == s.stage
  {
  }

  lemma LowClock(clocks: seq<Clock>, c: Clock)
    requires !c.highSpeed
    ensures AnyHigh(clocks + [c]) == AnyHigh(clocks)
  {
    assert forall k :: 0 <= k < |clocks| ==> (clocks + [c])[k] == clocks[k];
  }

  lemma StatusHighSpeed(h: Host, s: State, io: Io)
    requires s.stage == CheckSts
    ensures HighSpeedOk(h, s, io, StatusNext(h, s, io).s)
  {
    hide Send, TranSpeed, CardAddress, HasSwitch, AnyHigh, Asked, Switched;
    if s.version == Mmc {
      var clock := Clock(if h.forceClock then h.clock else TranSpeed(s.csd.tranSpeed), false);
      LowClock(s.clocks, clock);
      SendKeeps(s.(bus := 1, clocks := s.clocks + [clock], stage := Final), io, SET_BLOCKLEN, 512);
    } else {
      var width := if h.forceWidth then h.width else if h.bw4 then 4 else 1;
      SendKeeps(s.(bus := width, stage := if width == 4 then SetBwApp else SendScr), io, APP_CMD, CardAddress(s.rca));
    }
  }

  lemma StepHighSpeed(h: Host, s: State, io: Io)
    ensures HighSpeedOk(h, s, io, Next(h, s, io).s)
  {
    hide AnyHigh, CardVersionNext, SdPowerupNext, MmcPowerupNext, StatusNext, SetBwNext, ParseScrNext, CheckModeNext;
    hide SwitchModeNext;
    match s.stage
    case Start =>
    case CheckSts => StatusHighSpeed(h, s, io);
    case SetBw | ParseScr | CheckMode | SwitchMode => ModesHighSpeed(h, s, io);
    case CardVersion | SdPowerup | MmcPowerup => PowerupQuiet(h, s, io);
    case _ => LinearQuiet(h, s, io);
  }

  /** What a run may claim about high speed at its end. */
  ghost predicate HighSpeedEarned(h: Host, s: State, ios: seq<Io>)
  {
    var t := Run(h, s, ios).s;
    && (t.stage == SwitchMode ==> AskedBefore(h, s, ios, |ios|))
    && (ios != [] && t.hs ==> SwitchedBefore(h, s, ios))
    && (AnyHigh(t.clocks) ==> SwitchedBefore(h, s, ios))
  }

  lemma SameStates(h: Host, s: State, ios: seq<Io>)
    requires ios != []
    ensures var before := ios[..|ios| - 1];
      forall i :: 0 <= i < |before| ==> At(h, s, before, i) == At(h, s, ios, i) && before[i] == ios[i]
  {
    var before := ios[..|ios| - 1];
    assert forall i :: 0 <= i < |before| ==> before[..i] == ios[..i];
  }

  /** Evidence found in a shorter run is evidence in a longer one. */
  lemma AskedKept(h: Host, s: State, ios: seq<Io>, j: nat)
    requires j < |ios| && AskedBefore(h, s, ios[..|ios| - 1], j)
    ensures AskedBefore(h, s, ios, j) && AskedBefore(h, s, ios, |ios|)
  {
    SameStates(h, s, ios);
    hide Asked, At;
    var before := ios[..|ios| - 1];
    var i :| 0 <= i < j && Asked(h, At(h, s, before, i), before[i]);
    assert Asked(h, At(h, s, ios, i), ios[i]);
  }

  lemma SwitchedKept(h: Host, s: State, ios: seq<Io>)
    requires ios != [] && SwitchedBefore(h, s, ios[..|ios| - 1])
    ensures SwitchedBefore(h, s, ios)
  {
    SameStates(h, s, ios);
    hide Switched, AskedBefore, At;
    var before := ios[..|ios| - 1];
    var j :| 0 <= j < |before| && Switched(At(h, s, before, j), before[j]) && AskedBefore(h, s, before, j);
    AskedKept(h, s, ios, j);
    assert Switched(At(h, s, ios, j), ios[j]);
  }

  /**
   In every identification from START with the retry count at 0, the clock is set with the
   high-speed flag only after the driver had seen host capability, the card's support bit and
   command class 10, and after that the card's answer to SWITCH selected function 1.
   */
  lemma {:induction false} HighSpeedIsEarned(h: Host, s: State, ios: seq<Io>)
    requires s.stage == Start && s.count == 0 && !AnyHigh(s.clocks)
    ensures HighSpeedEarned(h, s, ios)
  {
    if ios != [] {
      var last := |ios| - 1;
      var before := ios[..last];
      HighSpeedIsEarned(h, s, before);
      if AskedBefore(h, s, before, last) {
        AskedKept(h, s, ios, last);
      }
      if SwitchedBefore(h, s, before) {
        SwitchedKept(h, s, ios);
      }
      var o := Run(h, s, before);
      assert At(h, s, ios, last) == o.s;
      hide Next, Asked, Switched, AnyHigh;
      if o.ok && o.s.stage != Idle {
        StepHighSpeed(h, o.s, ios[last]);
      }
      if before == [] {
        assert o == Outcome(s, true);
      }
    }
  }

  // ----- What an identification learns about the card

  /** An answer to ACMD41 with the capacity bit set. */
  predicate CapacityReply(s: State, io: Io)
  {
    && s.stage == SdPowerup && s.istage <= 1000 && s.istage % 3 == 2 && !io.error
    && io.resp.r0 & 0x4000_0000 != 0
  }

  /** The register an answer to CMD9 carries. */
  function CsdReply(s: State, io: Io): Csd
  {
    if s.version == Mmc then ParseMmc(io.resp) else ParseSd(io.resp)
  }

  predicate ProtectedReply(s: State, io: Io)
  {
    s.stage == SendCsd && !io.error && io.resp.r0 & 0x3000 != 0
  }

  /** Here the flags of an earlier identification are cleared. */
  predicate Clears(s: State)
  {
    s.stage == Start && s.count == 0
  }

  /** Commands to the one card that has published an address. */
  const ADDRESSED: seq<nat> := [10, 9, 7, 13]

  /** How one interrupt changes what is known about the card. */
  predicate Learns(s: State, io: Io, t: State)
  {
    && (t.hc <==> (s.hc && !Clears(s)) || CapacityReply(s, io))
    && (t.wp <==> (s.wp && !Clears(s)) || ProtectedReply(s, io))
    && t.csd == (if s.stage == SendCsd && !io.error then CsdReply(s, io) else s.csd)
    && t.rca == (if s.stage == SetAddress && !io.error then PublishedRca(io) else s.rca)
  }

  /** Nothing is learnt. */
  predicate SameCard(s: State, t: State)
  {
    t.hc == s.hc && t.wp == s.wp && t.csd == s.csd && t.rca == s.rca
  }

  lemma SendSame(s: State, io: Io, s1: State, opcode: nat, arg: bv32)
    requires SameCard(s, s1)
    ensures SameCard(s, Send(s1, io, opcode, arg).s)
  {
  }

  lemma SdReplyLearns(s: State, io: Io)
    ensures var t := SdReplyNext(s, io).s; t.hc == (s.hc || HighCapacity(io)) && SameCard(s.(hc := t.hc), t)
  {
    hide Send, PoweredUp, HighCapacity;
    var s1 := s.(hc := s.hc || HighCapacity(io));
    SendSame(s1, io, s1.(stage := AllSendCid, istage := 0), ALL_SEND_CID, 0);
    SendSame(s1, io, s1.(istage := s.istage + 1), APP_CMD, 0);
  }

  lemma SdPowerupLearns(s: State, io: Io)
    requires s.stage == SdPowerup
    ensures var t := SdPowerupNext(s, io).s;
      t.hc == (s.hc || CapacityReply(s, io)) && SameCard(s.(hc := t.hc), t)
  {
    hide Send, SdReplyNext, OcrFor;
    SdReplyLearns(s, io);
    SendSame(s, io, s.(istage := s.istage + 1), APP_CMD, 0);
    SendSame(s, io, s.(istage := s.istage + 1), SD_SEND_OP_COND, OcrFor(s.istage == 1, s.version));
    SendSame(s, io, s.(stage := MmcPowerup, istage := 0, ppl := false), GO_IDLE_STATE, 0);
  }

  lemma PowerupLearns(h: Host, s: State, io: Io)
    requires s.stage.CardVersion? || s.stage.SdPowerup? || s.stage.MmcPowerup?
    ensures Learns(s, io, Next(h, s, io).s)
  {
    hide SdPowerupNext, HighCapacity;
    match s.stage
    case CardVersion =>
      SdPowerupLearns(s.(version := Sd1, stage := SdPowerup, istage := 0), io);
      SdPowerupLearns(s.(version := Sd2, stage := SdPowerup, istage := 0), io);
    case SdPowerup => SdPowerupLearns(s, io);
    case MmcPowerup => MmcPowerupSame(s, io);
  }

  lemma MmcPowerupSame(s: State, io: Io)
    ensures SameCard(s, MmcPowerupNext(s, io).s)
  {
    hide Send, PoweredUp;
    var s1 := s.(istage := s.istage + 1);
    SendSame(s, io, s1, SEND_OP_COND, 0);
    SendSame(s, io, s1, SEND_OP_COND, OCR);
    SendSame(s, io, s1.(stage := AllSendCid, istage := 0, version := Mmc), ALL_SEND_CID, 0);
  }

  lemma ClockSame(h: Host, s: State, io: Io)
    ensures SameCard(s, SdClock(h, s, io).s)
  {
    hide TranSpeed;
  }

  lemma StatusSame(h: Host, s: State, io: Io)
    ensures SameCard(s, StatusNext(h, s, io).s)
  {
    hide Send, TranSpeed, CardAddress;
    if s.version == Mmc {
      var clock := Clock(if h.forceClock then h.clock else TranSpeed(s.csd.tranSpeed), false);
      SendSame(s, io, s.(bus := 1, clocks := s.clocks + [clock], stage := Final), SET_BLOCKLEN, 512);
    } else {
      var width := if h.forceWidth then h.width else if h.bw4 then 4 else 1;
      SendSame(s, io, s.(bus := width, stage := if width == 4 then SetBwApp else SendScr), APP_CMD, CardAddress(s.rca));
    }
  }

  lemma ModesSame(h: Host, s: State, io: Io)
    ensures SameCard(s, SetBwNext(h, s, io).s) && SameCard(s, ParseScrNext(h, s, io).s)
    ensures SameCard(s, CheckModeNext(h, s, io).s) && SameCard(s, SwitchModeNext(h, s, io).s)
  {
    hide SdClock, Send, CardAddress, HasSwitch;
    ClockSame(h, s, io);
    ClockSame(h, s.(hs := s.hs || io.hsFunction == 1), io);
    SendSame(s, io, s.(stage := SendScr), APP_CMD, CardAddress(s.rca));
    SendSame(s, io, s.(stage := CheckMode), SET_BUS_WIDTH, SWITCH_QUERY);
    SendSame(s, io, s.(stage := SwitchMode), SET_BUS_WIDTH, SWITCH_SELECT);
  }

  lemma EarlyLearns(h: Host, s: State, io: Io)
    requires s.stage.Start? || s.stage.GoIdle? || s.stage.AllSendCid? || s.stage.SetAddress? || s.stage.SendCid?
    ensures Learns(s, io, Next(h, s, io).s)
  {
    hide CardAddress, PublishedRca, CsdReply, HighCapacity;
  }

  /** Bits 13 and 12 of either register. */
  lemma ProtectionBits(r: Response)
    ensures ParseSd(r).WriteProtected() <==> r.r0 & 0x3000 != 0
    ensures ParseMmc(r).WriteProtected() <==> r.r0 & 0x3000 != 0
  {
    var perm, tmp := (r.r0 >> 13) & 1, (r.r0 >> 12) & 1;
    assert r.r0 & 0x3000 == 0 <==> perm == 0 && tmp == 0;
    assert perm as bv1 == 0 <==> perm == 0;
    assert tmp as bv1 == 0 <==> tmp == 0;
    hide ParseVersion1, ParseVersion2;
  }

  lemma LinearLearns(h: Host, s: State, io: Io)
    requires s.stage.SendCsd? || s.stage.SelDesCard? || s.stage.SetBwApp? || s.stage.SendScr? || s.stage.Final?
          || s.stage.Idle?
    ensures Learns(s, io, Next(h, s, io).s)
  {
    ProtectionBits(io.resp);
    hide CardAddress, PublishedRca, ParseSd, ParseMmc, HighCapacity;
  }

  lemma StepLearns(h: Host, s: State, io: Io)
    ensures Learns(s, io, Next(h, s, io).s)
  {
    match s.stage
    case SetBw | ParseScr | CheckMode | SwitchMode | CheckSts => LateLearns(h, s, io);
    case CardVersion | SdPowerup | MmcPowerup => PowerupLearns(h, s, io);
    case Start | GoIdle | AllSendCid | SetAddress | SendCid => EarlyLearns(h, s, io);
    case _ => LinearLearns(h, s, io);
  }

  lemma LateLearns(h: Host, s: State, io: Io)
    requires s.stage.SetBw? || s.stage.ParseScr? || s.stage.CheckMode? || s.stage.SwitchMode? || s.stage.CheckSts?
    ensures Learns(s, io, Next(h, s, io).s)
  {
    hide SetBwNext, ParseScrNext, CheckModeNext, SwitchModeNext, StatusNext;
    ModesSame(h, s, io);
    StatusSame(h, s, io);
  }

  /** The identification goes on after the interrupts so far. */
  predicate Live(o: Outcome)
  {
    o.ok && o.s.stage != Idle
  }

  /** Some answer to ACMD41 in this run had the capacity bit set. */
  predicate CapacityHeard(h: Host, s: State, ios: seq<Io>)
  {
    if ios == [] then false
    else
      var o := Run(h, s, ios[..|ios| - 1]);
      CapacityHeard(h, s, ios[..|ios| - 1]) || (Live(o) && CapacityReply(o.s, ios[|ios| - 1]))
  }

  /** Some answer to CMD9 in this run had a write-protect bit set. */
  predicate ProtectionHeard(h: Host, s: State, ios: seq<Io>)
  {
    if ios == [] then false
    else
      var o := Run(h, s, ios[..|ios| - 1]);
      ProtectionHeard(h, s, ios[..|ios| - 1]) || (Live(o) && ProtectedReply(o.s, ios[|ios| - 1]))
  }

  /** What is taken over from an earlier identification: all, unless a first step clears it. */
  predicate Carries(s: State, ios: seq<Io>)
  {
    ios == [] || !Clears(s)
  }

  /** The graph leaves START with the counter at 0 for good. */
  lemma StepAdvances(s: State, io: Io, o: Outcome)
    requires s.stage != Idle && Step(s, io, o) && o.ok
    ensures !Clears(o.s)
  {
  }

  lemma {:induction false} RunAdvances(h: Host, s: State, ios: seq<Io>)
    requires ios != [] && Run(h, s, ios).ok
    ensures !Clears(Run(h, s, ios).s)
  {
    var o := Run(h, s, ios[..|ios| - 1]);
    hide Next, Step;
    if Live(o) {
      NextSteps(h, o.s, ios[|ios| - 1]);
      StepAdvances(o.s, ios[|ios| - 1], Next(h, o.s, ios[|ios| - 1]));
    }
  }

  /**
   Over every identification: the card counts as high capacity exactly if an answer to ACMD41 said
   so, and as write protected exactly if its CSD says so, or if the identification began with the
   counter off 0 and the card before counted as that.
   */
  lemma {:induction false} RunLearns(h: Host, s: State, ios: seq<Io>)
    ensures var t := Run(h, s, ios).s;
      && (t.hc <==> (s.hc && Carries(s, ios)) || CapacityHeard(h, s, ios))
      && (t.wp <==> (s.wp && Carries(s, ios)) || ProtectionHeard(h, s, ios))
  {
    if ios != [] {
      var before, io := ios[..|ios| - 1], ios[|ios| - 1];
      var o := Run(h, s, before);
      hide Next, CapacityReply, ProtectedReply;
      RunLearns(h, s, before);
      if before != [] && o.ok {
        RunAdvances(h, s, before);
      }
      StepLearns(h, o.s, io);
    }
  }

  /** The counter is off 0 only during the rounds of CMD0, after the flags have been cleared. */
  predicate Cleared(s: State)
  {
    s.count != 0 ==> s.stage == Start && !s.hc && !s.wp
  }

  lemma StepCounts(s: State, io: Io, o: Outcome)
    requires Step(s, io, o) && s.stage != Start && s.stage != Idle
    ensures o.s.count == s.count
  {
  }

  lemma StartClears(h: Host, s: State, io: Io)
    requires s.stage == Start && Cleared(s)
    ensures var t := Next(h, s, io).s; Cleared(t) && !t.hc && !t.wp
  {
    assert Next(h, s, io) == StartNext(s, io);
  }

  lemma StepKeepsCleared(h: Host, s: State, io: Io)
    requires Cleared(s) && s.stage != Idle
    ensures Cleared(Next(h, s, io).s)
  {
    hide Next, Step;
    if s.stage == Start {
      StartClears(h, s, io);
    } else {
      NextSteps(h, s, io);
      StepCounts(s, io, Next(h, s, io));
    }
  }

  /** So flags carried over by an identification begun with the counter off 0 are clear. */
  lemma {:induction false} RunKeepsCleared(h: Host, s: State, ios: seq<Io>)
    requires Cleared(s)
    ensures Cleared(Run(h, s, ios).s)
  {
    if ios != [] {
      var o := Run(h, s, ios[..|ios| - 1]);
      RunKeepsCleared(h, s, ios[..|ios| - 1]);
      hide Next, Cleared;
      if Live(o) {
        StepKeepsCleared(h, o.s, ios[|ios| - 1]);
      }
    }
  }

  /** How an identification may begin: from the start, or past it with the flags cleared. */
  predicate Begins(s: State)
  {
    Cleared(s) && (s.stage == Start || (!s.hc && !s.wp))
  }

  /**
   However often identifications have been cut short before: after one that has begun, the card
   counts as high capacity and as write protected exactly if it said so.
   */
  lemma FlagsAreTheCards(h: Host, s: State, ios: seq<Io>)
    requires Begins(s) && ios != []
    ensures var t := Run(h, s, ios).s;
      && (t.hc <==> CapacityHeard(h, s, ios))
      && (t.wp <==> ProtectionHeard(h, s, ios))
  {
    RunLearns(h, s, ios);
  }

  // ----- The address commands go to

  /** Commands that address the card carry the address it has published. */
  predicate ToCard(sent: seq<Cmd>, rca: bv32)
  {
    forall k :: 0 <= k < |sent| && sent[k].opcode in ADDRESSED ==> sent[k].arg == CardAddress(rca)
  }

  predicate NoneAddressed(sent: seq<Cmd>)
  {
    forall k :: 0 <= k < |sent| ==> sent[k].opcode !in ADDRESSED
  }

  /** A new command that addresses the card uses the address known after the step. */
  predicate NewToCard(s: State, t: State)
  {
    |s.sent| < |t.sent| && t.sent[|s.sent|].opcode in ADDRESSED ==> t.sent[|s.sent|].arg == CardAddress(t.rca)
  }

  lemma CardCommands(h: Host, s: State, io: Io)
    requires s.stage.SetAddress? || s.stage.SendCid? || s.stage.SendCsd? || s.stage.SelDesCard?
    ensures NewToCard(s, Next(h, s, io).s)
  {
    hide CardAddress, PublishedRca, ParseSd, ParseMmc;
  }

  /** Elsewhere the graph has no such command. */
  lemma OtherCommands(s: State, io: Io, o: Outcome)
    requires Step(s, io, o) && !s.stage.SetAddress? && !s.stage.SendCid? && !s.stage.SendCsd? && !s.stage.SelDesCard?
    ensures |s.sent| < |o.s.sent| ==> o.s.sent[|s.sent|].opcode !in ADDRESSED
  {
  }

  lemma StepToCard(h: Host, s: State, io: Io)
    requires s.stage != Idle
    ensures NewToCard(s, Next(h, s, io).s)
  {
    hide Next, Step, CardAddress;
    if s.stage.SetAddress? || s.stage.SendCid? || s.stage.SendCsd? || s.stage.SelDesCard? {
      CardCommands(h, s, io);
    } else {
      NextSteps(h, s, io);
      OtherCommands(s, io, Next(h, s, io));
    }
  }

  /** Before the card has published its address, no command is addressed to it. */
  predicate Unaddressed(s: State)
  {
    SetupDone(s.stage) <= 2 ==> NoneAddressed(s.sent)
  }

  lemma EdgeUnaddressed(x: Node, c: Cmd, y: Node)
    requires Edge(x, c, y) && SetupDone(y.stage) <= 2
    ensures SetupDone(x.stage) <= 2 && c.opcode !in ADDRESSED
  {
  }

  lemma StepUnaddressed(s: State, io: Io, o: Outcome)
    requires Step(s, io, o) && Unaddressed(s)
    ensures Unaddressed(o.s)
  {
    hide Edge;
    if |o.s.sent| != |s.sent| {
      var c := o.s.sent[|s.sent|];
      assert o.s.sent == s.sent + [c];
      if SetupDone(o.s.stage) <= 2 {
        EdgeUnaddressed(NodeOf(s), c, NodeOf(o.s));
      }
    }
  }

  lemma StepKeepsToCard(s: State, io: Io, o: Outcome)
    requires Step(s, io, o) && ToCard(s.sent, s.rca) && NewToCard(s, o.s)
    requires o.s.rca == s.rca || NoneAddressed(s.sent)
    ensures ToCard(o.s.sent, o.s.rca)
  {
    hide Edge, CardAddress;
    if |o.s.sent| != |s.sent| {
      assert o.s.sent == s.sent + [o.s.sent[|s.sent|]];
    }
  }

  /** The card has published this address in answer to CMD3. */
  predicate Published(h: Host, s: State, ios: seq<Io>, rca: bv32)
  {
    if ios == [] then false
    else
      var o := Run(h, s, ios[..|ios| - 1]);
      || Published(h, s, ios[..|ios| - 1], rca)
      || (Live(o) && o.s.stage == SetAddress && !ios[|ios| - 1].error && PublishedRca(ios[|ios| - 1]) == rca)
  }

  lemma EdgePast(x: Node, c: Cmd, y: Node)
    requires Edge(x, c, y) && 2 < SetupDone(y.stage)
    ensures 2 < SetupDone(x.stage) || x.stage == SetAddress
  {
  }

  lemma StepPast(s: State, io: Io, o: Outcome)
    requires Step(s, io, o) && 2 < SetupDone(o.s.stage)
    ensures 2 < SetupDone(s.stage) || s.stage == SetAddress
  {
    hide Edge;
    if |o.s.sent| != |s.sent| {
      EdgePast(NodeOf(s), o.s.sent[|s.sent|], NodeOf(o.s));
    }
  }

  lemma ErrorStays(h: Host, s: State, io: Io)
    requires s.stage == SetAddress && io.error
    ensures Next(h, s, io).s.stage == SetAddress
  {
    hide CardAddress, PublishedRca;
    assert Next(h, s, io) == SetAddressNext(s, io);
  }

  /** The set-up gets past CMD3 only with its answer. */
  lemma PastSetAddress(h: Host, s: State, io: Io)
    requires Step(s, io, Next(h, s, io)) && 2 < SetupDone(Next(h, s, io).s.stage)
    ensures 2 < SetupDone(s.stage) || (s.stage == SetAddress && !io.error)
  {
    hide Next, Step;
    StepPast(s, io, Next(h, s, io));
    if s.stage == SetAddress && io.error {
      ErrorStays(h, s, io);
    }
  }

  lemma {:induction false} RunPublishes(h: Host, s: State, ios: seq<Io>)
    requires s.stage == Start
    ensures var t := Run(h, s, ios).s;
      2 < SetupDone(t.stage) ==> Published(h, s, ios, t.rca)
  {
    if ios != [] {
      var before, io := ios[..|ios| - 1], ios[|ios| - 1];
      RunPublishes(h, s, before);
      var o := Run(h, s, before);
      hide Next, Step, PublishedRca, SetupDone;
      if Live(o) {
        NextSteps(h, o.s, io);
        StepLearns(h, o.s, io);
        if Past(Next(h, o.s, io).s) {
          PastSetAddress(h, o.s, io);
          NotPast(o.s);
        }
      }
    }
  }

  predicate Past(s: State)
  {
    2 < SetupDone(s.stage)
  }

  lemma NotPast(s: State)
    ensures s.stage == SetAddress ==> SetupDone(s.stage) <= 2
  {
  }

  /**
   In every identification CMD10, CMD9, CMD7 and CMD13 carry the address that the card has
   published in its answer to CMD3.
   */
  lemma {:induction false} RunToCard(h: Host, s: State, ios: seq<Io>)
    requires s.stage == Start && s.sent == []
    ensures var t := Run(h, s, ios).s;
      && Unaddressed(t) && ToCard(t.sent, t.rca)
      && (NoneAddressed(t.sent) || Published(h, s, ios, t.rca))
  {
    RunPublishes(h, s, ios);
    if ios != [] {
      var before, io := ios[..|ios| - 1], ios[|ios| - 1];
      RunToCard(h, s, before);
      var o := Run(h, s, before);
      hide Next, Step, ToCard, NewToCard, Unaddressed, CardAddress, PublishedRca, NoneAddressed, Published;
      if Live(o) {
        NextSteps(h, o.s, io);
        StepToCard(h, o.s, io);
        StepLearns(h, o.s, io);
        AtPublication(o.s);
        StepKeepsToCard(o.s, io, Next(h, o.s, io));
        StepUnaddressed(o.s, io, Next(h, o.s, io));
      }
      EarlyUnaddressed(Run(h, s, ios).s);
    }
  }

  lemma EarlyUnaddressed(s: State)
    requires Unaddressed(s)
    ensures SetupDone(s.stage) <= 2 ==> NoneAddressed(s.sent)
  {
  }

  lemma AtPublication(s: State)
    requires Unaddressed(s)
    ensures s.stage == SetAddress ==> NoneAddressed(s.sent)
  {
  }
}
