/**
 Card identification in numbers: over every run, which command follows which answer, with which
 argument, and what the answer decides.
 */
module MmcIdentValues {
  import opened MmcCsd
  import opened MmcIdent
  import opened MmcIdentRuns

  // ----- What each stage waits for

  /** The command whose answer a stage waits for. */
  predicate Awaits(x: Node, c: Cmd)
  {
    match x.stage
    case Start => c.opcode == 0
    case GoIdle => c.opcode == 0
    case CardVersion => c == Cmd(8, 0x1AA)
    case SdPowerup => if x.istage % 3 == 2 then c.opcode == 41 else c == Cmd(55, 0)
    case MmcPowerup => if x.istage == 0 then c.opcode == 0 else c.opcode == 1
    case AllSendCid => c.opcode == 2
    case SetAddress => c.opcode == 3
    case SendCid => c.opcode == 10
    case SendCsd => c.opcode == 9
    case SelDesCard => c.opcode == 7
    case CheckSts => c.opcode == 13
    case SetBwApp => c.opcode == 55
    case SetBw => c == Cmd(6, 2)
    case SendScr => c.opcode == 55
    case ParseScr => c.opcode == 51
    case CheckMode => c == Cmd(6, 0x00ffff01)
    case SwitchMode => c == Cmd(6, 0x80ffff01)
    case Final => c == Cmd(16, 512)
    case Idle => c == Cmd(16, 512)
  }

  predicate Waiting(s: State)
  {
    if s.sent == [] then s.stage == Start else Awaits(NodeOf(s), s.sent[|s.sent| - 1])
  }

  /** The command sent last. */
  predicate Last(s: State, opcode: nat)
  {
    s.sent != [] && s.sent[|s.sent| - 1].opcode == opcode
  }

  predicate LastCmd(s: State, c: Cmd)
  {
    s.sent != [] && s.sent[|s.sent| - 1] == c
  }

  /** An identification from START that still goes on after the interrupts so far. */
  predicate GoesOn(h: Host, s: State, ios: seq<Io>)
  {
    s.stage == Start && s.sent == [] && Live(Run(h, s, ios))
  }

  lemma EdgeAwaits(x: Node, c: Cmd, y: Node)
    requires Edge(x, c, y)
    ensures Awaits(y, c)
  {
  }

  lemma StepWaits(s: State, io: Io, o: Outcome)
    requires Waiting(s) && Step(s, io, o) && o.ok
    ensures Waiting(o.s)
  {
    hide Edge;
    if |o.s.sent| != |s.sent| {
      EdgeAwaits(NodeOf(s), o.s.sent[|s.sent|], NodeOf(o.s));
    }
  }

  lemma {:induction false} RunWaits(h: Host, s: State, ios: seq<Io>)
    requires s.stage == Start && s.sent == []
    ensures Run(h, s, ios).ok ==> Waiting(Run(h, s, ios).s)
  {
    if ios != [] {
      RunWaits(h, s, ios[..|ios| - 1]);
      var o := Run(h, s, ios[..|ios| - 1]);
      hide Next, Step, Waiting;
      if Live(o) {
        NextSteps(h, o.s, ios[|ios| - 1]);
        if Next(h, o.s, ios[|ios| - 1]).ok {
          StepWaits(o.s, ios[|ios| - 1], Next(h, o.s, ios[|ios| - 1]));
        }
      }
    }
  }

  /** One more interrupt of an identification that goes on. */
  lemma OneMore(h: Host, s: State, ios: seq<Io>, io: Io)
    requires GoesOn(h, s, ios)
    ensures var x := Run(h, s, ios).s;
      && Run(h, s, ios + [io]) == Next(h, x, io) && x.stage != Idle && Waiting(x)
      && Step(x, io, Next(h, x, io))
  {
    RunSnoc(h, s, ios, io);
    RunWaits(h, s, ios);
    hide Run, Next, Step, Waiting;
    NextSteps(h, Run(h, s, ios).s, io);
  }

  // ----- Powering up

  lemma SendIs(s: State, io: Io, opcode: nat, arg: bv32)
    ensures Send(s, io, opcode, arg) == Outcome(s.(sent := s.sent + [Cmd(opcode, arg)]), io.accepted)
  {
  }

  lemma SdAnswer(s: State, io: Io)
    requires s.stage == SdPowerup && s.istage % 3 == 2
    ensures var o := SdPowerupNext(s, io);
      if io.error || 1000 < s.istage then o == Outcome(s, false)
      else
        && o.ok == io.accepted
        && o.s.sent == s.sent + [if io.resp.r0 >= 0x8000_0000 then Cmd(2, 0) else Cmd(55, 0)]
  {
    assert io.resp.r0 & 0x8000_0000 != 0 <==> io.resp.r0 >= 0x8000_0000;
    hide HighCapacity;
  }

  lemma MmcAnswer(s: State, io: Io)
    requires s.stage == MmcPowerup && 0 < s.istage
    ensures var o := MmcPowerupNext(s, io);
      if io.error || 1000 < s.istage then !o.ok && o.s.sent == s.sent
      else
        && o.ok == io.accepted
        && o.s.sent == s.sent + [if io.resp.r0 >= 0x8000_0000 then Cmd(2, 0) else Cmd(1, 0x00ff8000)]
  {
    assert io.resp.r0 & 0x8000_0000 != 0 <==> io.resp.r0 >= 0x8000_0000;
  }

  lemma EdgeToCid(x: Node, c: Cmd, y: Node)
    requires Edge(x, c, y) && c.opcode == 2
    ensures (x.stage == SdPowerup && x.istage % 3 == 2) || (x.stage == MmcPowerup && 0 < x.istage)
    ensures x.istage <= 1000
  {
  }

  /**
   In every identification, CMD2 is sent only when an error-free answer to ACMD41 or to CMD1 has its top
   bit set: the card has powered up.
   */
  lemma CidAfterPowerUp(h: Host, s: State, ios: seq<Io>, io: Io)
    requires GoesOn(h, s, ios)
    ensures var x, y := Run(h, s, ios).s, Run(h, s, ios + [io]).s;
      |x.sent| < |y.sent| && y.sent[|x.sent|].opcode == 2 ==>
        !io.error && io.resp.r0 >= 0x8000_0000 && (Last(x, 41) || Last(x, 1))
  {
    OneMore(h, s, ios, io);
    hide Run, Next, Step, Waiting;
    var x := Run(h, s, ios).s;
    CidSent(h, x, io);
    WaitsForPower(x);
  }

  /** An interrupt at which CMD2 is sent. */
  lemma CidSent(h: Host, s: State, io: Io)
    requires s.stage != Idle
    ensures var o := Next(h, s, io);
      |s.sent| < |o.s.sent| && o.s.sent[|s.sent|].opcode == 2 ==>
        && !io.error && io.resp.r0 >= 0x8000_0000
        && ((s.stage == SdPowerup && s.istage % 3 == 2) || (s.stage == MmcPowerup && 0 < s.istage))
  {
    NextSteps(h, s, io);
    hide Next, Step, Edge;
    var o := Next(h, s, io);
    if |s.sent| < |o.s.sent| && o.s.sent[|s.sent|].opcode == 2 {
      SentEdge(s, io, o);
      EdgeToCid(NodeOf(s), o.s.sent[|s.sent|], NodeOf(o.s));
      PowerUpNext(h, s, io);
    }
  }

  lemma SentEdge(s: State, io: Io, o: Outcome)
    requires Step(s, io, o) && |s.sent| < |o.s.sent|
    ensures Edge(NodeOf(s), o.s.sent[|s.sent|], NodeOf(o.s))
  {
    hide Edge;
  }

  lemma PowerUpNext(h: Host, s: State, io: Io)
    requires (s.stage == SdPowerup && s.istage % 3 == 2) || (s.stage == MmcPowerup && 0 < s.istage)
    ensures var o := Next(h, s, io);
      if io.error || 1000 < s.istage then !o.ok && o.s.sent == s.sent
      else
        && o.ok == io.accepted
        && o.s.sent == s.sent + [if io.resp.r0 >= 0x8000_0000 then Cmd(2, 0)
                                 else if s.stage == SdPowerup then Cmd(55, 0) else Cmd(1, 0x00ff8000)]
  {
    hide SdPowerupNext, MmcPowerupNext;
    if s.stage == SdPowerup {
      SdAnswer(s, io);
    } else {
      MmcAnswer(s, io);
    }
  }

  lemma WaitsForPower(x: State)
    requires Waiting(x) && x.stage != Idle
    ensures Last(x, 41) <==> x.stage == SdPowerup && x.istage % 3 == 2
    ensures Last(x, 1) <==> x.stage == MmcPowerup && 0 < x.istage
  {
  }

  /**
   And such an answer is followed by CMD2, one without the bit by another round, CMD55 or CMD1 for 2.7
   to 3.6 V; but after an error, or a thousand steps, the identification ends.
   */
  lemma PowerUpIsHeard(h: Host, s: State, ios: seq<Io>, io: Io)
    requires GoesOn(h, s, ios) && (Last(Run(h, s, ios).s, 41) || Last(Run(h, s, ios).s, 1))
    ensures var x, y := Run(h, s, ios).s, Run(h, s, ios + [io]);
      if io.error || 1000 < x.istage then !y.ok && y.s.sent == x.sent
      else
        && y.ok == io.accepted
        && y.s.sent == x.sent + [if io.resp.r0 >= 0x8000_0000 then Cmd(2, 0)
                                 else if Last(x, 41) then Cmd(55, 0) else Cmd(1, 0x00ff8000)]
  {
    OneMore(h, s, ios, io);
    hide Run, Next, Step, Waiting;
    WaitsForPower(Run(h, s, ios).s);
    PowerUpNext(h, Run(h, s, ios).s, io);
  }

  // ----- Version, bus width, clock and high speed

  /** The settings an interrupt may leave as they were. */
  predicate SameSettings(s: State, t: State)
  {
    t.version == s.version && t.bus == s.bus && t.clocks == s.clocks && t.hs == s.hs
  }

  lemma SendSettings(s: State, io: Io, s1: State, opcode: nat, arg: bv32)
    requires SameSettings(s, s1)
    ensures SameSettings(s, Send(s1, io, opcode, arg).s)
  {
  }

  lemma SdReplySettings(s: State, io: Io)
    ensures SameSettings(s, SdReplyNext(s, io).s)
  {
    hide Send, PoweredUp, HighCapacity;
    var s1 := s.(hc := s.hc || HighCapacity(io));
    SendSettings(s, io, s1.(stage := AllSendCid, istage := 0), ALL_SEND_CID, 0);
    SendSettings(s, io, s1.(istage := s.istage + 1), APP_CMD, 0);
  }

  lemma SdSettings(s: State, io: Io)
    ensures SameSettings(s, SdPowerupNext(s, io).s)
  {
    hide Send, SdReplyNext, OcrFor;
    SdReplySettings(s, io);
    SendSettings(s, io, s.(istage := s.istage + 1), APP_CMD, 0);
    SendSettings(s, io, s.(istage := s.istage + 1), SD_SEND_OP_COND, OcrFor(s.istage == 1, s.version));
    SendSettings(s, io, s.(stage := MmcPowerup, istage := 0, ppl := false), GO_IDLE_STATE, 0);
  }

  lemma MmcSettings(s: State, io: Io)
    requires s.stage == MmcPowerup
    ensures var t := MmcPowerupNext(s, io).s;
      && SameSettings(s.(version := t.version), t)
      && t.version == (if 0 < s.istage <= 1000 && !io.error && io.resp.r0 >= 0x8000_0000 then Mmc else s.version)
  {
    assert io.resp.r0 & 0x8000_0000 != 0 <==> io.resp.r0 >= 0x8000_0000;
    hide Send;
    var s1 := s.(istage := s.istage + 1);
    if s.istage > 1000 {
    } else if s.istage == 0 {
      SendIs(s1, io, SEND_OP_COND, 0);
    } else if !io.error {
      SendIs(s1, io, SEND_OP_COND, OCR);
      SendIs(s1.(stage := AllSendCid, istage := 0, version := Mmc), io, ALL_SEND_CID, 0);
    }
  }

  lemma VersionIs(s: State, io: Io)
    ensures CardVersionNext(s, io)
         == if io.timeout then SdPowerupNext(s.(version := Sd1, stage := SdPowerup, istage := 0), io)
            else if !io.error && io.resp.r0 % 0x2000 == 0x1AA then
              SdPowerupNext(s.(version := Sd2, stage := SdPowerup, istage := 0), io)
            else Outcome(s, false)
  {
    hide SdPowerupNext;
    assert io.resp.r0 & 0x1FFF == io.resp.r0 % 0x2000;
  }

  lemma VersionSettings(s: State, io: Io)
    requires s.stage == CardVersion
    ensures var o := CardVersionNext(s, io);
      && SameSettings(s.(version := o.s.version), o.s)
      && if io.timeout then o.s.version == Sd1
         else if !io.error && io.resp.r0 % 0x2000 == 0x1AA then o.s.version == Sd2
         else o == Outcome(s, false)
  {
    hide SdPowerupNext, CardVersionNext;
    VersionIs(s, io);
    if io.timeout {
      SdSettings(s.(version := Sd1, stage := SdPowerup, istage := 0), io);
    } else {
      SdSettings(s.(version := Sd2, stage := SdPowerup, istage := 0), io);
    }
  }

  lemma StatusFails(h: Host, s: State, io: Io)
    requires io.error
    ensures StatusNext(h, s, io) == Outcome(s, false)
  {
  }

  lemma MmcStatus(h: Host, s: State, io: Io)
    requires s.version == Mmc && !io.error
    ensures var o := StatusNext(h, s, io);
      && o.ok == io.accepted && SameSettings(s.(bus := 1, clocks := o.s.clocks), o.s)
      && o.s.sent == s.sent + [Cmd(16, 512)]
      && o.s.clocks == s.clocks + [Clock(if h.forceClock then h.clock else TranSpeed(s.csd.tranSpeed), false)]
  {
    hide TranSpeed, CardAddress;
  }

  lemma SdStatus(h: Host, s: State, io: Io)
    requires s.version != Mmc && !io.error
    ensures var o, width := StatusNext(h, s, io), if h.forceWidth then h.width else if h.bw4 then 4 else 1;
      && o.ok == io.accepted && SameSettings(s.(bus := width), o.s)
      && o.s.sent == s.sent + [Cmd(55, CardAddress(s.rca))]
      && o.s.stage == if width == 4 then SetBwApp else SendScr
  {
    hide TranSpeed, CardAddress, Send;
    var width := if h.forceWidth then h.width else if h.bw4 then 4 else 1;
    var s1 := s.(bus := width, stage := if width == 4 then SetBwApp else SendScr);
    assert StatusNext(h, s, io) == Send(s1, io, 55, CardAddress(s.rca));
    SendIs(s1, io, 55, CardAddress(s.rca));
  }

  /** The clock rate chosen for an SD card. */
  lemma ClockSettings(h: Host, s: State, io: Io)
    ensures var o := SdClock(h, s, io);
      && o.ok == io.accepted && o.s.sent == s.sent + [Cmd(16, 512)]
      && o.s.version == s.version && o.s.hs == s.hs && o.s.bus == s.bus
      && (h.forceClock ==> o.s.clocks == s.clocks + [Clock(h.clock, false)])
      && (!h.forceClock && s.hs ==> o.s.clocks == s.clocks + [Clock(50_000_000, true)])
      && (!h.forceClock && !s.hs ==> o.s.clocks == s.clocks + [Clock(TranSpeed(s.csd.tranSpeed), false)])
  {
    hide TranSpeed;
  }

  /** In the stages that only send on, no setting changes. */
  lemma LinearSettings(h: Host, s: State, io: Io)
    requires s.stage.GoIdle? || s.stage.AllSendCid? || s.stage.SetAddress? || s.stage.SendCid? || s.stage.SendCsd?
          || s.stage.SelDesCard? || s.stage.SetBwApp? || s.stage.SendScr? || s.stage.Final?
    ensures SameSettings(s, Next(h, s, io).s)
  {
    hide CardAddress, PublishedRca, ParseSd, ParseMmc;
  }

  lemma StartSettings(s: State, io: Io)
    ensures var t := StartNext(s, io).s;
      && SameSettings(s.(hs := t.hs), t)
      && (s.stage == Start ==> t.stage == Start || t.stage == GoIdle)
  {
  }

  lemma WidthAnswer(h: Host, s: State, io: Io)
    ensures SetBwNext(h, s, io)
         == if io.error then Outcome(s, false)
            else if h.noHs || !h.pio || !io.blksz then SdClock(h, s, io)
            else Outcome(s.(stage := SendScr, sent := s.sent + [Cmd(55, CardAddress(s.rca))]), io.accepted)
  {
    hide SdClock, Send, CardAddress;
    SendIs(s.(stage := SendScr), io, 55, CardAddress(s.rca));
  }

  lemma ScrAnswer(h: Host, s: State, io: Io)
    ensures ParseScrNext(h, s, io)
         == if io.error || !io.done then Outcome(s, false)
            else if io.sdSpec == 0 || !io.blksz || !io.setup then SdClock(h, s, io)
            else Outcome(s.(stage := CheckMode, sent := s.sent + [Cmd(6, 0x00ffff01)]), io.accepted)
  {
    hide SdClock, Send;
    SendIs(s.(stage := CheckMode), io, 6, 0x00ffff01);
  }

  lemma QueryAnswer(h: Host, s: State, io: Io)
    ensures CheckModeNext(h, s, io)
         == if io.error then SdClock(h, s, io)
            else if !io.done then Outcome(s, false)
            else if !io.hsSupport || s.csd.ccc & 0x400 == 0 || !h.hs then SdClock(h, s, io)
            else if !io.setup then Outcome(s, false)
            else Outcome(s.(stage := SwitchMode, sent := s.sent + [Cmd(6, 0x80ffff01)]), io.accepted)
  {
    SwitchBit(s.csd);
    hide SdClock, Send, HasSwitch;
    SendIs(s.(stage := SwitchMode), io, 6, 0x80ffff01);
  }

  lemma SwitchAnswer(h: Host, s: State, io: Io)
    ensures SwitchModeNext(h, s, io)
         == if io.error || !io.done then Outcome(s, false)
            else SdClock(h, s.(hs := s.hs || io.hsFunction == 1), io)
  {
    hide SdClock;
  }

  /** In the last stages either the clock is set, or no setting changes. */
  lemma ModeSettings(h: Host, s: State, io: Io)
    requires s.stage.SetBw? || s.stage.ParseScr? || s.stage.CheckMode? || s.stage.SwitchMode?
    ensures var o := Next(h, s, io);
      || SameSettings(s, o.s)
      || o == SdClock(h, s.(hs := o.s.hs), io)
  {
    hide SdClock, SetBwNext, ParseScrNext, CheckModeNext, SwitchModeNext;
    match s.stage
    case SetBw =>
      WidthAnswer(h, s, io);
      ClockSettings(h, s, io);
    case ParseScr =>
      ScrAnswer(h, s, io);
      ClockSettings(h, s, io);
    case CheckMode =>
      QueryAnswer(h, s, io);
      ClockSettings(h, s, io);
    case SwitchMode =>
      SwitchAnswer(h, s, io);
      ClockSettings(h, s.(hs := s.hs || io.hsFunction == 1), io);
  }

  /** How one interrupt may change version, bus width and clock. */
  predicate SettingsOk(s: State, t: State)
  {
    && (s.stage != CardVersion && s.stage != MmcPowerup ==> t.version == s.version)
    && (s.stage != CheckSts ==> t.bus == s.bus)
    && (t.clocks == s.clocks || t.sent == s.sent + [Cmd(16, 512)])
  }

  lemma StatusSettings(h: Host, s: State, io: Io)
    requires s.stage == CheckSts
    ensures SettingsOk(s, StatusNext(h, s, io).s)
  {
    hide StatusNext;
    if io.error {
      StatusFails(h, s, io);
    } else {
      if s.version == Mmc {
        MmcStatus(h, s, io);
      } else {
        SdStatus(h, s, io);
      }
    }
  }

  lemma ModesOk(h: Host, s: State, io: Io)
    requires s.stage.SetBw? || s.stage.ParseScr? || s.stage.CheckMode? || s.stage.SwitchMode?
    ensures SettingsOk(s, Next(h, s, io).s)
  {
    hide Next, SdClock;
    ModeSettings(h, s, io);
    ClockSettings(h, s.(hs := Next(h, s, io).s.hs), io);
  }

  lemma StepSettings(h: Host, s: State, io: Io)
    requires s.stage != Idle
    ensures SettingsOk(s, Next(h, s, io).s)
  {
    hide StartNext, CardVersionNext, SdPowerupNext, MmcPowerupNext, StatusNext, SetBwNext, ParseScrNext;
    hide CheckModeNext, SwitchModeNext, SettingsOk;
    match s.stage
    case Start =>
      StartSettings(s, io);
      SettingsSame(s, Next(h, s, io).s);
    case CardVersion =>
      VersionSettings(s, io);
      SettingsSame(s, Next(h, s, io).s);
    case SdPowerup =>
      SdSettings(s, io);
      SettingsSame(s, Next(h, s, io).s);
    case MmcPowerup =>
      MmcSettings(s, io);
      SettingsSame(s, Next(h, s, io).s);
    case CheckSts => StatusSettings(h, s, io);
    case SetBw | ParseScr | CheckMode | SwitchMode => ModesOk(h, s, io);
    case _ =>
      LinearSettings(h, s, io);
      SettingsSame(s, Next(h, s, io).s);
  }

  lemma SettingsSame(s: State, t: State)
    requires t.bus == s.bus && t.clocks == s.clocks
    requires s.stage != CardVersion && s.stage != MmcPowerup ==> t.version == s.version
    ensures SettingsOk(s, t)
  {
  }

  // ----- Push-pull mode

  lemma SdPushPull(s: State, io: Io)
    ensures SdPowerupNext(s, io).s.ppl
         == (s.ppl && !(s.istage == 1 && s.version == Sd1 && io.timeout))
  {
    hide Send, OcrFor, PoweredUp, HighCapacity;
    var s1 := s.(istage := s.istage + 1);
    var s2 := s.(hc := s.hc || HighCapacity(io));
    SendIs(s1, io, 55, 0);
    SendIs(s1, io, 41, OcrFor(s.istage == 1, s.version));
    SendIs(s.(stage := MmcPowerup, istage := 0, ppl := false), io, 0, 0);
    SendIs(s2.(stage := AllSendCid, istage := 0), io, 2, 0);
    SendIs(s2.(istage := s.istage + 1), io, 55, 0);
  }

  lemma MmcPushPull(s: State, io: Io)
    ensures MmcPowerupNext(s, io).s.ppl == s.ppl
  {
    hide Send, PoweredUp;
    var s1 := s.(istage := s.istage + 1);
    SendIs(s1, io, 1, 0);
    SendIs(s1, io, 1, OCR);
    SendIs(s1.(stage := AllSendCid, istage := 0, version := Mmc), io, 2, 0);
  }

  lemma VersionPushPull(s: State, io: Io)
    ensures CardVersionNext(s, io).s.ppl == s.ppl
  {
    VersionIs(s, io);
    hide CardVersionNext, SdPowerupNext;
    SdPushPull(s.(version := Sd1, stage := SdPowerup, istage := 0), io);
    SdPushPull(s.(version := Sd2, stage := SdPowerup, istage := 0), io);
  }

  lemma ClockPushPull(h: Host, s: State, io: Io)
    ensures SdClock(h, s, io).s.ppl == s.ppl
  {
    hide TranSpeed;
  }

  lemma StatusPushPull(h: Host, s: State, io: Io)
    ensures StatusNext(h, s, io).s.ppl == s.ppl
  {
    hide TranSpeed, CardAddress;
  }

  lemma ModesPushPull(h: Host, s: State, io: Io)
    requires s.stage.SetBw? || s.stage.ParseScr? || s.stage.CheckMode? || s.stage.SwitchMode?
    ensures Next(h, s, io).s.ppl == s.ppl
  {
    hide SdClock, SetBwNext, ParseScrNext, CheckModeNext, SwitchModeNext;
    ClockPushPull(h, s, io);
    match s.stage
    case SetBw => WidthAnswer(h, s, io);
    case ParseScr => ScrAnswer(h, s, io);
    case CheckMode => QueryAnswer(h, s, io);
    case SwitchMode =>
      SwitchAnswer(h, s, io);
      ClockPushPull(h, s.(hs := s.hs || io.hsFunction == 1), io);
  }

  lemma LinearPushPull(h: Host, s: State, io: Io)
    requires s.stage.GoIdle? || s.stage.AllSendCid? || s.stage.SetAddress? || s.stage.SendCid? || s.stage.SendCsd?
          || s.stage.SelDesCard? || s.stage.SetBwApp? || s.stage.SendScr? || s.stage.Final?
    ensures Next(h, s, io).s.ppl == (s.ppl || (s.stage == SetAddress && !io.error))
  {
    hide CardAddress, PublishedRca, ParseSd, ParseMmc;
  }

  /**
   Commands go out in push-pull mode from the beginning of an identification on, in open-drain mode from
   the fallback to MMC cards on, and in push-pull mode again from the answer to CMD3 on.
   */
  lemma StepPushPull(h: Host, s: State, io: Io)
    requires s.stage != Idle
    ensures var t := Next(h, s, io).s;
      && (s.stage == Start ==> t.ppl == (s.ppl || s.count == 0))
      && (s.stage == SetAddress ==> t.ppl == (s.ppl || !io.error))
      && (s.stage == SdPowerup ==> t.ppl == (s.ppl && !(s.istage == 1 && s.version == Sd1 && io.timeout)))
      && (s.stage != Start && s.stage != SetAddress && s.stage != SdPowerup ==> t.ppl == s.ppl)
  {
    hide CardVersionNext, SdPowerupNext, MmcPowerupNext, StatusNext, SetBwNext, ParseScrNext, CheckModeNext;
    hide SwitchModeNext;
    match s.stage
    case Start => assert Next(h, s, io) == StartNext(s, io);
    case CardVersion => VersionPushPull(s, io);
    case SdPowerup => SdPushPull(s, io);
    case MmcPowerup => MmcPushPull(s, io);
    case CheckSts => StatusPushPull(h, s, io);
    case SetBw | ParseScr | CheckMode | SwitchMode => ModesPushPull(h, s, io);
    case _ => LinearPushPull(h, s, io);
  }

  // ----- Over whole runs

  lemma WaitsForVersion(x: State)
    requires Waiting(x) && x.stage != Idle
    ensures Last(x, 8) <==> x.stage == CardVersion
  {
  }

  /**
   In every identification the card's version is what its answers say: 1 if CMD8 times out, 2 if it
   echoes the pattern 0x1AA, an MMC card if it powers up on CMD1. Another answer to CMD8 ends it.
   */
  lemma VersionFromCard(h: Host, s: State, ios: seq<Io>, io: Io)
    requires GoesOn(h, s, ios)
    ensures var x, y := Run(h, s, ios).s, Run(h, s, ios + [io]);
      && y.s.version == (if Last(x, 8) && io.timeout then Sd1
                         else if Last(x, 8) && !io.error && io.resp.r0 % 0x2000 == 0x1AA then Sd2
                         else if Last(x, 1) && x.istage <= 1000 && !io.error && io.resp.r0 >= 0x8000_0000 then Mmc
                         else x.version)
      && (Last(x, 8) && !io.timeout && (io.error || io.resp.r0 % 0x2000 != 0x1AA) ==> !y.ok && y.s.sent == x.sent)
  {
    OneMore(h, s, ios, io);
    hide Run, Step, Waiting, CardVersionNext, SdPowerupNext, MmcPowerupNext, StartNext, StatusNext, SetBwNext;
    hide ParseScrNext, CheckModeNext, SwitchModeNext, Last;
    var x := Run(h, s, ios).s;
    WaitsForVersion(x);
    WaitsForPower(x);
    if x.stage == CardVersion {
      VersionSettings(x, io);
    } else if x.stage == MmcPowerup {
      MmcSettings(x, io);
    } else {
      hide Next;
      StepSettings(h, x, io);
    }
  }

  /**
   After CMD13 the bus has one line for an MMC card, and for an SD card the width that is forced, else
   four lines or one as the host has them; an MMC card gets CMD16, an SD card CMD55.
   */
  lemma BusFromHost(h: Host, s: State, ios: seq<Io>, io: Io)
    requires GoesOn(h, s, ios) && Last(Run(h, s, ios).s, 13) && !io.error
    ensures var x, y := Run(h, s, ios).s, Run(h, s, ios + [io]);
      && y.ok == io.accepted
      && y.s.bus == (if x.version == Mmc then 1 else if h.forceWidth then h.width else if h.bw4 then 4 else 1)
      && y.s.sent == x.sent + [if x.version == Mmc then Cmd(16, 512) else Cmd(55, x.rca << 16)]
      && (x.version != Mmc ==> y.s.stage == if y.s.bus == 4 then SetBwApp else SendScr)
  {
    OneMore(h, s, ios, io);
    hide Run, Next, Step, Waiting, StatusNext, TranSpeed, CardAddress;
    var x := Run(h, s, ios).s;
    WaitsForMode(x);
    StatusIs(h, x, io);
    if x.version == Mmc {
      MmcStatus(h, x, io);
    } else {
      SdStatus(h, x, io);
      AddressShifted(x.rca);
    }
  }

  lemma StatusIs(h: Host, s: State, io: Io)
    requires s.stage == CheckSts
    ensures Next(h, s, io) == StatusNext(h, s, io)
  {
  }

  lemma AddressShifted(rca: bv32)
    ensures CardAddress(rca) == rca << 16
  {
  }

  lemma WaitsForMode(x: State)
    requires Waiting(x) && x.stage != Idle
    ensures Last(x, 13) <==> x.stage == CheckSts
    ensures Last(x, 51) <==> x.stage == ParseScr
    ensures LastCmd(x, Cmd(6, 2)) <==> x.stage == SetBw
    ensures LastCmd(x, Cmd(6, 0x00ffff01)) <==> x.stage == CheckMode
    ensures LastCmd(x, Cmd(6, 0x80ffff01)) <==> x.stage == SwitchMode
  {
  }

  /** No other interrupt changes the bus width. */
  lemma BusKept(h: Host, s: State, ios: seq<Io>, io: Io)
    requires GoesOn(h, s, ios) && !Last(Run(h, s, ios).s, 13)
    ensures Run(h, s, ios + [io]).s.bus == Run(h, s, ios).s.bus
  {
    OneMore(h, s, ios, io);
    hide Run, Next, Step, Waiting;
    WaitsForMode(Run(h, s, ios).s);
    StepSettings(h, Run(h, s, ios).s, io);
  }

  lemma EdgeToFinal(x: Node, c: Cmd, y: Node)
    requires Edge(x, c, y) && c.opcode == 16
    ensures c == Cmd(16, 512)
    ensures x.stage.SetBw? || x.stage.ParseScr? || x.stage.CheckMode? || x.stage.SwitchMode? || x.stage.CheckSts?
  {
  }

  /**
   The clock is set exactly with CMD16, which asks for blocks of 512 bytes: to the rate that is forced,
   else to 50 MHz in high speed for an SD card that has switched, else to the rate of the card's register.
   */
  lemma ClockFromCard(h: Host, s: State, ios: seq<Io>, io: Io)
    requires GoesOn(h, s, ios)
    ensures var x, y := Run(h, s, ios).s, Run(h, s, ios + [io]).s;
      if |x.sent| < |y.sent| && y.sent[|x.sent|].opcode == 16 then
        && y.sent[|x.sent|].arg == 512
        && y.clocks == x.clocks + [if h.forceClock then Clock(h.clock, false)
                                   else if !Last(x, 13) && y.hs then Clock(50_000_000, true)
                                   else Clock(TranSpeed(x.csd.tranSpeed), false)]
      else y.clocks == x.clocks
  {
    OneMore(h, s, ios, io);
    hide Run, Next, Edge, Waiting, TranSpeed, SdClock;
    var x := Run(h, s, ios).s;
    var o := Next(h, x, io);
    StepSettings(h, x, io);
    WaitsForMode(x);
    if |x.sent| < |o.s.sent| && o.s.sent[|x.sent|].opcode == 16 {
      EdgeToFinal(NodeOf(x), o.s.sent[|x.sent|], NodeOf(o.s));
      hide Step;
      if x.stage == CheckSts {
        FinalStatus(h, x, io);
      } else {
        FinalMode(h, x, io);
      }
    }
  }

  lemma FinalStatus(h: Host, s: State, io: Io)
    requires s.stage == CheckSts && |Next(h, s, io).s.sent| == |s.sent| + 1
    requires Next(h, s, io).s.sent[|s.sent|].opcode == 16
    ensures Next(h, s, io).s.clocks
         == s.clocks + [Clock(if h.forceClock then h.clock else TranSpeed(s.csd.tranSpeed), false)]
  {
    hide StatusNext, TranSpeed;
    assert Next(h, s, io) == StatusNext(h, s, io);
    if io.error {
      StatusFails(h, s, io);
    } else {
      if s.version == Mmc {
        MmcStatus(h, s, io);
      } else {
        SdStatus(h, s, io);
      }
    }
  }

  lemma FinalMode(h: Host, s: State, io: Io)
    requires s.stage.SetBw? || s.stage.ParseScr? || s.stage.CheckMode? || s.stage.SwitchMode?
    requires |Next(h, s, io).s.sent| == |s.sent| + 1 && Next(h, s, io).s.sent[|s.sent|].opcode == 16
    ensures var t := Next(h, s, io).s;
      t.clocks == s.clocks + [if h.forceClock then Clock(h.clock, false)
                              else if t.hs then Clock(50_000_000, true)
                              else Clock(TranSpeed(s.csd.tranSpeed), false)]
  {
    hide SdClock, SetBwNext, ParseScrNext, CheckModeNext, SwitchModeNext, TranSpeed;
    match s.stage
    case SetBw =>
      WidthAnswer(h, s, io);
      ClockSettings(h, s, io);
    case ParseScr =>
      ScrAnswer(h, s, io);
      ClockSettings(h, s, io);
    case CheckMode =>
      QueryAnswer(h, s, io);
      ClockSettings(h, s, io);
    case SwitchMode =>
      SwitchAnswer(h, s, io);
      ClockSettings(h, s.(hs := s.hs || io.hsFunction == 1), io);
  }

  /** An answer that ends the identification without another command. */
  predicate Ends(x: State, y: Outcome)
  {
    !y.ok && y.s.sent == x.sent
  }

  /** After ACMD6 the card is asked for its SCR, unless there is no use in that. */
  lemma AfterBusWidth(h: Host, s: State, ios: seq<Io>, io: Io)
    requires GoesOn(h, s, ios) && LastCmd(Run(h, s, ios).s, Cmd(6, 2))
    ensures var x, y := Run(h, s, ios).s, Run(h, s, ios + [io]);
      if io.error then Ends(x, y)
      else
        && y.ok == io.accepted
        && y.s.sent == x.sent + [if h.noHs || !h.pio || !io.blksz then Cmd(16, 512) else Cmd(55, x.rca << 16)]
  {
    OneMore(h, s, ios, io);
    hide Run, Step, SdClock, SetBwNext;
    var x := Run(h, s, ios).s;
    WaitsForMode(x);
    WidthAnswer(h, x, io);
    ClockSettings(h, x, io);
  }

  /** After ACMD51 the card is asked for its modes with CMD6, if its SCR says that it has that command. */
  lemma AfterScr(h: Host, s: State, ios: seq<Io>, io: Io)
    requires GoesOn(h, s, ios) && Last(Run(h, s, ios).s, 51)
    ensures var x, y := Run(h, s, ios).s, Run(h, s, ios + [io]);
      if io.error || !io.done then Ends(x, y)
      else
        && y.ok == io.accepted
        && y.s.sent == x.sent + [if io.sdSpec == 0 || !io.blksz || !io.setup then Cmd(16, 512)
                                 else Cmd(6, 0x00ffff01)]
  {
    OneMore(h, s, ios, io);
    hide Run, Step, SdClock, ParseScrNext;
    var x := Run(h, s, ios).s;
    WaitsForMode(x);
    ScrAnswer(h, x, io);
    ClockSettings(h, x, io);
  }

  /** The switch to high speed is asked for exactly if the card supports it, has class 10, and the host can. */
  lemma AfterModeQuery(h: Host, s: State, ios: seq<Io>, io: Io)
    requires GoesOn(h, s, ios) && LastCmd(Run(h, s, ios).s, Cmd(6, 0x00ffff01))
    ensures var x, y := Run(h, s, ios).s, Run(h, s, ios + [io]);
      var wanted := io.hsSupport && x.csd.ccc & 0x400 != 0 && h.hs;
      if !io.error && (!io.done || (wanted && !io.setup)) then Ends(x, y)
      else
        && y.ok == io.accepted && y.s.hs == x.hs
        && y.s.sent == x.sent + [if !io.error && wanted then Cmd(6, 0x80ffff01) else Cmd(16, 512)]
  {
    OneMore(h, s, ios, io);
    hide Run, Step, SdClock, CheckModeNext;
    var x := Run(h, s, ios).s;
    WaitsForMode(x);
    QueryAnswer(h, x, io);
    ClockSettings(h, x, io);
  }

  /** The card is in high speed from then on exactly if its answer to the switch selects function 1. */
  lemma AfterSwitch(h: Host, s: State, ios: seq<Io>, io: Io)
    requires GoesOn(h, s, ios) && LastCmd(Run(h, s, ios).s, Cmd(6, 0x80ffff01))
    ensures var x, y := Run(h, s, ios).s, Run(h, s, ios + [io]);
      if io.error || !io.done then Ends(x, y)
      else
        && y.ok == io.accepted && y.s.sent == x.sent + [Cmd(16, 512)]
        && (y.s.hs <==> x.hs || io.hsFunction == 1)
  {
    OneMore(h, s, ios, io);
    hide Run, Step, SdClock, SwitchModeNext;
    var x := Run(h, s, ios).s;
    WaitsForMode(x);
    SwitchAnswer(h, x, io);
    ClockSettings(h, x.(hs := x.hs || io.hsFunction == 1), io);
  }

  lemma WaitsForRegister(x: State)
    requires Waiting(x) && x.stage != Idle
    ensures Last(x, 9) <==> x.stage == SendCsd
    ensures Last(x, 3) <==> x.stage == SetAddress
  {
  }

  /**
   In every identification, what is known about the card changes with three answers only: bit 30 of an
   answer to ACMD41 makes it high capacity, bit 13 or 12 of its CSD in answer to CMD9 write protected,
   and the upper half of the answer to CMD3 is its address; the register of that CSD is read in the
   layout of its version. The first interrupt clears both flags.
   */
  lemma FlagsFromCard(h: Host, s: State, ios: seq<Io>, io: Io)
    requires GoesOn(h, s, ios)
    ensures var x, y := Run(h, s, ios).s, Run(h, s, ios + [io]).s;
      var kept := x.stage != Start || x.count != 0;
      && (y.hc <==> || (x.hc && kept)
                    || (Last(x, 41) && x.istage <= 1000 && !io.error && io.resp.r0 & 0x4000_0000 != 0))
      && (y.wp <==> || (x.wp && kept)
                    || (Last(x, 9) && !io.error && io.resp.r0 & 0x3000 != 0))
      && y.rca == (if Last(x, 3) && !io.error then io.resp.r0 >> 16 else x.rca)
      && y.csd == (if !Last(x, 9) || io.error then x.csd
                   else if x.version == Mmc then ParseMmc(io.resp) else ParseSd(io.resp))
  {
    OneMore(h, s, ios, io);
    hide Run, Next, Step, Waiting, Last, ParseMmc, ParseSd;
    var x := Run(h, s, ios).s;
    WaitsForRegister(x);
    WaitsForPower(x);
    StepLearns(h, x, io);
  }

  // ----- The set-up commands

  lemma WaitsForSetup(x: State)
    requires Waiting(x) && x.stage != Idle
    ensures Last(x, 2) <==> x.stage == AllSendCid
    ensures Last(x, 10) <==> x.stage == SendCid
    ensures Last(x, 7) <==> x.stage == SelDesCard
    ensures Last(x, 16) <==> x.stage == Final
    ensures Last(x, 0) ==> x.stage == Start || x.stage == GoIdle || (x.stage == MmcPowerup && x.istage == 0)
  {
  }

  lemma SetupAnswer(h: Host, s: State, io: Io, opcode: nat)
    requires opcode in [2, 3, 10, 9, 7]
    requires opcode == 2 ==> s.stage == AllSendCid
    requires opcode == 3 ==> s.stage == SetAddress
    requires opcode == 10 ==> s.stage == SendCid
    requires opcode == 9 ==> s.stage == SendCsd
    requires opcode == 7 ==> s.stage == SelDesCard
    ensures var o := Next(h, s, io);
      if io.error then o == Outcome(s, false)
      else o.ok == io.accepted && o.s.sent == s.sent + [if opcode == 2 then Cmd(3, 0)
                                                       else if opcode == 3 then Cmd(10, o.s.rca << 16)
                                                       else if opcode == 10 then Cmd(9, o.s.rca << 16)
                                                       else if opcode == 9 then Cmd(7, o.s.rca << 16)
                                                       else Cmd(13, o.s.rca << 16)]
  {
    hide ParseSd, ParseMmc;
  }

  /** An answer to a set-up command without an error is followed by the next, and one with an error ends it. */
  lemma AfterSetup(h: Host, s: State, ios: seq<Io>, io: Io, opcode: nat)
    requires GoesOn(h, s, ios) && opcode in [2, 3, 10, 9, 7] && Last(Run(h, s, ios).s, opcode)
    ensures var x, y := Run(h, s, ios).s, Run(h, s, ios + [io]);
      if io.error then Ends(x, y)
      else y.ok == io.accepted && y.s.sent == x.sent + [if opcode == 2 then Cmd(3, 0)
                                                       else if opcode == 3 then Cmd(10, y.s.rca << 16)
                                                       else if opcode == 10 then Cmd(9, y.s.rca << 16)
                                                       else if opcode == 9 then Cmd(7, y.s.rca << 16)
                                                       else Cmd(13, y.s.rca << 16)]
  {
    OneMore(h, s, ios, io);
    hide Run, Next, Step, Waiting;
    var x := Run(h, s, ios).s;
    WaitsForSetup(x);
    WaitsForRegister(x);
    SetupAnswer(h, x, io, opcode);
  }

  /** The answer to CMD16 completes it, unless it is an error. */
  lemma AfterBlockLength(h: Host, s: State, ios: seq<Io>, io: Io)
    requires GoesOn(h, s, ios) && Last(Run(h, s, ios).s, 16)
    ensures var y := Run(h, s, ios + [io]); y.s == Run(h, s, ios).s.(stage := Idle) && y.ok == !io.error
  {
    OneMore(h, s, ios, io);
    hide Run, Step, Waiting;
    WaitsForSetup(Run(h, s, ios).s);
  }

  lemma AppAnswer(h: Host, s: State, io: Io)
    requires s.stage == SetBwApp || s.stage == SendScr
    ensures var o := Next(h, s, io);
      if io.error || (s.stage == SendScr && !io.setup) then o == Outcome(s, false)
      else o.ok == io.accepted && o.s.sent == s.sent + [if s.stage == SetBwApp then Cmd(6, 2) else Cmd(51, 0)]
  {
  }

  // ----- The rounds of CMD0, and ACMD41

  predicate AllReset(sent: seq<Cmd>, n: nat)
  {
    n <= |sent| && forall k :: 0 <= k < n ==> sent[k] == Cmd(0, 0)
  }

  /** Four times CMD0, then CMD8. */
  predicate Opening(s: State)
  {
    if s.stage == Start then |s.sent| == s.count <= 3 && AllReset(s.sent, s.count)
    else if s.stage == GoIdle then |s.sent| == 4 && AllReset(s.sent, 4)
    else AllReset(s.sent, 4) && 5 <= |s.sent| && s.sent[4] == Cmd(8, 0x1AA)
  }

  lemma EdgeOpens(x: Node, c: Cmd, y: Node)
    requires Edge(x, c, y)
    ensures x.stage == Start ==> c == Cmd(0, 0)
    ensures x.stage == Start && x.count < 3 ==> y == x.(count := x.count + 1)
    ensures x.stage == Start && 3 <= x.count ==> y == Node(GoIdle, x.istage, 0)
    ensures x.stage == GoIdle ==> c == Cmd(8, 0x1AA) && y.stage == CardVersion
    ensures y.stage == Start || y.stage == GoIdle ==> x.stage == Start
  {
  }

  lemma StepOpens(s: State, io: Io, o: Outcome)
    requires Opening(s) && Step(s, io, o)
    ensures Opening(o.s)
  {
    hide Edge;
    if |o.s.sent| != |s.sent| {
      EdgeOpens(NodeOf(s), o.s.sent[|s.sent|], NodeOf(o.s));
      assert o.s.sent == s.sent + [o.s.sent[|s.sent|]];
    }
  }

  /** Every identification begins with CMD0 four times and CMD8, as far as it gets. */
  lemma {:induction false} RunOpens(h: Host, s: State, ios: seq<Io>)
    requires s.stage == Start && s.sent == [] && s.count == 0
    ensures Opening(Run(h, s, ios).s)
  {
    if ios != [] {
      RunOpens(h, s, ios[..|ios| - 1]);
      var o := Run(h, s, ios[..|ios| - 1]);
      hide Next, Step, Opening;
      if Live(o) {
        NextSteps(h, o.s, ios[|ios| - 1]);
        StepOpens(o.s, ios[|ios| - 1], Next(h, o.s, ios[|ios| - 1]));
      }
    }
  }

  /** What ACMD41 asks for: no voltages right after CMD8, then 2.7 to 3.6 V; high capacity in version 2. */
  predicate WindowsOk(s: State)
  {
    forall k :: 0 <= k < |s.sent| && s.sent[k].opcode == 41 ==>
      && 2 <= k
      && s.sent[k].arg == WindowFor(s.sent[k - 2].opcode == 8, s.version)
  }

  function WindowFor(first: bool, version: Version): bv32
  {
    (if first then 0 else 0x00ff8000) + if version == Sd2 then 0x4000_0000 else 0
  }

  /** Before the first ACMD41. */
  predicate Early(x: Node)
  {
    x.stage.Start? || x.stage.GoIdle? || x.stage.CardVersion? || x.stage.MmcPowerup?
    || (x.stage == SdPowerup && x.istage == 1)
  }

  /** Where no ACMD41 has been sent yet, and which command came before the last. */
  predicate Rounds(s: State)
  {
    && (Early(NodeOf(s)) ==>
          forall k :: 0 <= k < |s.sent| ==> s.sent[k].opcode != 41)
    && (s.stage == SdPowerup ==> 1 <= s.istage)
    && (s.stage == SdPowerup && s.istage % 3 == 1 ==>
          && 2 <= |s.sent|
          && s.sent[|s.sent| - 2].opcode == if s.istage == 1 then 8 else 55)
  }

  lemma EdgeRounds(x: Node, c: Cmd, y: Node)
    requires Edge(x, c, y)
    requires x.stage == SdPowerup ==> 1 <= x.istage
    ensures Early(y) ==> Early(x) && c.opcode != 41
    ensures c.opcode == 41 ==> x.stage == SdPowerup && x.istage % 3 == 1
    ensures y.stage == SdPowerup ==> 1 <= y.istage
    ensures y.stage == SdPowerup && y.istage % 3 == 1 ==>
      || (y.istage == 1 && x.stage == CardVersion)
      || (x.stage == SdPowerup && x.istage % 3 == 0 && y.istage == x.istage + 1)
  {
  }

  lemma StepRounds(s: State, io: Io, o: Outcome)
    requires Waiting(s) && Rounds(s) && Step(s, io, o) && s.stage != Idle
    ensures Rounds(o.s)
  {
    hide Edge;
    if |o.s.sent| != |s.sent| {
      var c := o.s.sent[|s.sent|];
      assert o.s.sent == s.sent + [c];
      EdgeRounds(NodeOf(s), c, NodeOf(o.s));
      RoundsLast(s);
      hide Step, Waiting;
    }
  }

  lemma RoundsLast(s: State)
    requires Waiting(s) && Rounds(s)
    ensures s.stage == CardVersion ==> Last(s, 8)
    ensures s.stage == SdPowerup && s.istage % 3 == 0 ==> Last(s, 55) && 1 < s.istage
  {
  }

  lemma WindowIs(first: bool, version: Version)
    ensures OcrFor(first, version) == WindowFor(first, version)
  {
    assert OCR | 0x4000_0000 == 0x40ff8000;
  }

  lemma AskArg(h: Host, s: State, io: Io)
    requires s.stage == SdPowerup && s.istage % 3 == 1
    requires |Next(h, s, io).s.sent| == |s.sent| + 1 && Next(h, s, io).s.sent[|s.sent|].opcode == 41
    ensures Next(h, s, io).s.sent[|s.sent|].arg == WindowFor(s.istage == 1, s.version)
  {
    hide OcrFor, WindowFor, Send, SdReplyNext;
    var s1 := s.(istage := s.istage + 1);
    WindowIs(s.istage == 1, s.version);
    SendIs(s1, io, 41, OcrFor(s.istage == 1, s.version));
    SendIs(s.(stage := MmcPowerup, istage := 0, ppl := false), io, 0, 0);
  }

  lemma StepWindows(h: Host, s: State, io: Io, o: Outcome)
    requires s.stage != Idle && Rounds(s) && WindowsOk(s) && o == Next(h, s, io) && Step(s, io, o)
    ensures WindowsOk(o.s)
  {
    hide Next, Edge, WindowFor;
    StepSettings(h, s, io);
    if |o.s.sent| != |s.sent| {
      var c := o.s.sent[|s.sent|];
      assert o.s.sent == s.sent + [c];
      if c.opcode == 41 {
        SentEdge(s, io, o);
        EdgeRounds(NodeOf(s), c, NodeOf(o.s));
        AskArg(h, s, io);
      }
      hide Step;
    }
  }

  lemma {:induction false} RunWindows(h: Host, s: State, ios: seq<Io>)
    requires s.stage == Start && s.sent == []
    ensures Rounds(Run(h, s, ios).s) && WindowsOk(Run(h, s, ios).s)
  {
    if ios != [] {
      var before, io := ios[..|ios| - 1], ios[|ios| - 1];
      RunWindows(h, s, before);
      RunWaits(h, s, before);
      var o := Run(h, s, before);
      hide Next, Step, Waiting, Rounds, WindowsOk;
      if Live(o) {
        NextSteps(h, o.s, io);
        StepRounds(o.s, io, Next(h, o.s, io));
        StepWindows(h, o.s, io, Next(h, o.s, io));
      }
    }
  }

  /**
   In every identification ACMD41 asks a card first, right after CMD8, for no voltages, and then for
   2.7 to 3.6 V; with bit 30, for high capacity, exactly if the card is of version 2.
   */
  lemma WindowAsked(h: Host, s: State, ios: seq<Io>, k: nat)
    requires s.stage == Start && s.sent == []
    requires k < |Run(h, s, ios).s.sent| && Run(h, s, ios).s.sent[k].opcode == 41
    ensures var t := Run(h, s, ios).s;
      && 2 <= k
      && t.sent[k].arg == if t.sent[k - 2].opcode == 8 then if t.version == Sd2 then 0x4000_0000 else 0
                          else if t.version == Sd2 then 0x40ff_8000 else 0x00ff_8000
  {
    hide Run, Rounds, WindowFor;
    RunWindows(h, s, ios);
    var t := Run(h, s, ios).s;
    assert 2 <= k && t.sent[k].arg == WindowFor(t.sent[k - 2].opcode == 8, t.version);
    hide WindowsOk;
    WindowValue(t.sent[k - 2].opcode == 8, t.version);
  }

  lemma WindowValue(first: bool, version: Version)
    ensures WindowFor(first, version) == if first then if version == Sd2 then 0x4000_0000 else 0
                                         else if version == Sd2 then 0x40ff_8000 else 0x00ff_8000
  {
  }

  // ----- Every command

  predicate Known(c: Cmd)
  {
    || c == Cmd(0, 0) || c == Cmd(8, 0x1AA) || c == Cmd(1, 0) || c == Cmd(1, 0x00ff8000)
    || c == Cmd(2, 0) || c == Cmd(3, 0) || c == Cmd(16, 512) || c == Cmd(51, 0)
    || c == Cmd(6, 2) || c == Cmd(6, 0x00ffff01) || c == Cmd(6, 0x80ffff01)
    || c.opcode == 7 || c.opcode == 9 || c.opcode == 10 || c.opcode == 13 || c.opcode == 41 || c.opcode == 55
  }

  lemma EdgeKnown(x: Node, c: Cmd, y: Node)
    requires Edge(x, c, y)
    ensures Known(c)
  {
  }

  predicate AllKnown(sent: seq<Cmd>)
  {
    forall k :: 0 <= k < |sent| ==> Known(sent[k])
  }

  lemma StepKnown(s: State, io: Io, o: Outcome)
    requires AllKnown(s.sent) && Step(s, io, o)
    ensures AllKnown(o.s.sent)
  {
    hide Edge, Known;
    if |s.sent| < |o.s.sent| {
      var c := o.s.sent[|s.sent|];
      EdgeKnown(NodeOf(s), c, NodeOf(o.s));
      assert o.s.sent == s.sent + [c];
    }
  }

  lemma {:induction false} RunKnown(h: Host, s: State, ios: seq<Io>)
    requires s.sent == []
    ensures AllKnown(Run(h, s, ios).s.sent)
  {
    if ios != [] {
      var o := Run(h, s, ios[..|ios| - 1]);
      RunKnown(h, s, ios[..|ios| - 1]);
      hide Next, Step, Known;
      if Live(o) {
        NextSteps(h, o.s, ios[|ios| - 1]);
        StepKnown(o.s, ios[|ios| - 1], Next(h, o.s, ios[|ios| - 1]));
      }
    }
  }

  /** Every identification sends these commands only, with these arguments. */
  lemma CommandsKnown(h: Host, s: State, ios: seq<Io>, k: nat)
    requires s.sent == [] && k < |Run(h, s, ios).s.sent|
    ensures var c := Run(h, s, ios).s.sent[k];
      || c == Cmd(0, 0) || c == Cmd(8, 0x1AA) || c == Cmd(1, 0) || c == Cmd(1, 0x00ff8000)
      || c == Cmd(2, 0) || c == Cmd(3, 0) || c == Cmd(16, 512) || c == Cmd(51, 0)
      || c == Cmd(6, 2) || c == Cmd(6, 0x00ffff01) || c == Cmd(6, 0x80ffff01)
      || c.opcode == 7 || c.opcode == 9 || c.opcode == 10 || c.opcode == 13 || c.opcode == 41 || c.opcode == 55
  {
    hide Run;
    RunKnown(h, s, ios);
    assert Known(Run(h, s, ios).s.sent[k]);
  }

  /** The answer to CMD3 that published an address. */
  lemma {:induction false} PublishedAt(h: Host, s: State, ios: seq<Io>, rca: bv32) returns (i: nat)
    requires s.stage == Start && s.sent == [] && Published(h, s, ios, rca)
    ensures i < |ios| && GoesOn(h, s, ios[..i]) && Last(Run(h, s, ios[..i]).s, 3)
    ensures !ios[i].error && PublishedRca(ios[i]) == rca
  {
    hide PublishedRca, Run, Waiting;
    var before := ios[..|ios| - 1];
    if Published(h, s, before, rca) {
      i := PublishedAt(h, s, before, rca);
      assert before[..i] == ios[..i];
    } else {
      i := |ios| - 1;
      RunWaits(h, s, before);
      WaitsForRegister(Run(h, s, before).s);
    }
  }

  lemma UpperHalf(io: Io)
    ensures CardAddress(PublishedRca(io)) == io.resp.r0 & 0xffff_0000
  {
  }

  /** In every identification CMD10, CMD9, CMD7 and CMD13 carry the upper half of the card's answer to CMD3. */
  lemma AddressFromCard(h: Host, s: State, ios: seq<Io>, k: nat) returns (i: nat)
    requires s.stage == Start && s.sent == []
    requires k < |Run(h, s, ios).s.sent| && Run(h, s, ios).s.sent[k].opcode in [10, 9, 7, 13]
    ensures i < |ios| && GoesOn(h, s, ios[..i]) && Last(Run(h, s, ios[..i]).s, 3) && !ios[i].error
    ensures Run(h, s, ios).s.sent[k].arg == ios[i].resp.r0 & 0xffff_0000
  {
    hide Run, Published, CardAddress, PublishedRca;
    RunToCard(h, s, ios);
    i := PublishedAt(h, s, ios, Run(h, s, ios).s.rca);
    UpperHalf(ios[i]);
  }

  // ----- The commands before the set-up

  lemma EarlyAnswer(h: Host, s: State, io: Io)
    requires s.stage == Start || s.stage == GoIdle
    ensures var o := Next(h, s, io);
      && (s.stage == Start ==>
            if !io.detect || !io.powerup then Ends(s, o) else o.ok == io.accepted && o.s.sent == s.sent + [Cmd(0, 0)])
      && (s.stage == GoIdle ==>
            if io.error then Ends(s, o)
            else if io.command then o.ok == io.accepted && o.s.sent == s.sent + [Cmd(8, 0x1AA)]
            else o == Outcome(s, true))
  {
  }

  lemma AppRound(s: State, io: Io)
    requires s.stage == SdPowerup && s.istage % 3 != 2
    ensures var o := SdPowerupNext(s, io);
      if 1000 < s.istage then o == Outcome(s, false)
      else if s.istage % 3 == 0 then o.ok == io.accepted && o.s.sent == s.sent + [Cmd(55, 0)]
      else if s.istage == 1 && s.version == Sd1 && io.timeout then
        o.ok == io.accepted && o.s.sent == s.sent + [Cmd(0, 0)] && o.s.stage == MmcPowerup
      else if io.error then o == Outcome(s, false)
      else
        o.ok == io.accepted && |o.s.sent| == |s.sent| + 1 && o.s.sent[..|s.sent|] == s.sent
        && o.s.sent[|s.sent|].opcode == 41
  {
    hide OcrFor, SdReplyNext, Send;
    var s1 := s.(istage := s.istage + 1);
    SendIs(s1, io, 55, 0);
    SendIs(s1, io, 41, OcrFor(s.istage == 1, s.version));
    SendIs(s.(stage := MmcPowerup, istage := 0, ppl := false), io, 0, 0);
  }

  lemma FirstQuery(s: State, io: Io)
    requires s.stage == MmcPowerup && s.istage == 0
    ensures var o := MmcPowerupNext(s, io); o.ok == io.accepted && o.s.sent == s.sent + [Cmd(1, 0)]
  {
    hide PoweredUp;
  }
}
