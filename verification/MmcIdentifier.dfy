/** The handlers of card identification, over the driver's own fields. */
module MmcIdentifier {
  import opened MmcCsd
  import opened MmcIdent
  import opened MmcIdentRuns
  import opened MmcIdentValues

  /** The identification part of the driver's SIM_MMC_EXT, with the handlers of mmcsd.c. */
  class Identifier {
    const host: Host
    var stage: Stage
    var istage: nat
    var count: nat
    var hs: bool
    var hc: bool
    var wp: bool
    var ppl: bool
    var version: Version
    var rca: bv32
    var csd: Csd
    var bus: nat
    ghost var sent: seq<Cmd>
    ghost var clocks: seq<Clock>

    ghost function S(): State
      reads this
    {
      State(stage, istage, count, hs, hc, wp, ppl, version, rca, csd, bus, sent, clocks)
    }

    method SendCmd(io: Io, opcode: nat, arg: bv32) returns (ok: bool)
      modifies this`sent
      ensures Outcome(S(), ok) == Send(old(S()), io, opcode, arg)
    {
      sent := sent + [Cmd(opcode, arg)];
      ok := io.accepted;
    }

    method IdentStart(io: Io) returns (ok: bool)
      modifies this
      ensures Outcome(S(), ok) == StartNext(old(S()), io)
    {
      if count == 0 {
        wp, hs, hc := false, false, false;
        ppl := true;
      }
      if !io.detect {
        return false;
      }
      if !io.powerup {
        return false;
      }
      count := count + 1;
      if count > 3 {
        stage := GoIdle;
        count := 0;
      }
      ok := SendCmd(io, GO_IDLE_STATE, 0);
    }

    method IdentGoIdle(io: Io) returns (ok: bool)
      modifies this
      ensures Outcome(S(), ok) == GoIdleNext(old(S()), io)
    {
      if io.error {
        return false;
      }
      if io.command {
        stage := CardVersion;
        istage := 0;
        ok := SendCmd(io, IF_COND, 0x1AA);
        return;
      }
      ok := true;
    }

    method IdentCardVersion(io: Io) returns (ok: bool)
      modifies this
      ensures Outcome(S(), ok) == CardVersionNext(old(S()), io)
    {
      if io.timeout {
        version := Sd1;
      } else if !io.error && io.resp.r0 & 0x1FFF == 0x1AA {
        version := Sd2;
      } else {
        return false;
      }
      stage := SdPowerup;
      istage := 0;
      ok := IdentSdPowerup(io);
    }

    method IdentSdPowerup(io: Io) returns (ok: bool)
      modifies this
      ensures Outcome(S(), ok) == SdPowerupNext(old(S()), io)
    {
      hide SdReplyNext, WithCapacity;
      if istage > MAX_STAGE {
        return false;
      }
      if istage % 3 == 0 {
        istage := istage + 1;
        ok := SendCmd(io, APP_CMD, 0);
        return;
      }
      var ocr := OCR;
      if istage == 1 {
        if version == Sd1 && io.timeout {
          stage := MmcPowerup;        // perhaps an MMC card
          istage := 0;
          ppl := false;
          ok := SendCmd(io, GO_IDLE_STATE, 0);
          return;
        } else if io.error {
          return false;
        }
        ocr := 0;
      }
      if istage % 3 == 1 {
        if io.error {
          return false;
        }
        ocr := WithCapacity(ocr, version == Sd2);
        istage := istage + 1;
        ok := SendCmd(io, SD_SEND_OP_COND, ocr);
      } else {
        if io.error {
          return false;
        }
        ok := SdReply(io);
      }
    }

    method SdReply(io: Io) returns (ok: bool)
      modifies this
      ensures Outcome(S(), ok) == SdReplyNext(old(S()), io)
    {
      hide PoweredUp, HighCapacity;
      if HighCapacity(io) {
        hc := true;
      }
      if PoweredUp(io) {
        stage := AllSendCid;
        istage := 0;
        ok := SendCmd(io, ALL_SEND_CID, 0);
        return;
      }
      istage := istage + 1;
      ok := SendCmd(io, APP_CMD, 0);
    }

    method IdentMmcPowerup(io: Io) returns (ok: bool)
      modifies this
      ensures Outcome(S(), ok) == MmcPowerupNext(old(S()), io)
    {
      if istage > MAX_STAGE {
        return false;
      }
      istage := istage + 1;
      if istage > 1 {
        if io.error {
          return false;
        }
        if PoweredUp(io) {
          stage := AllSendCid;
          istage := 0;
          version := Mmc;
          ok := SendCmd(io, ALL_SEND_CID, 0);
          return;
        }
      }
      ok := SendCmd(io, SEND_OP_COND, if istage > 1 then OCR else 0);
    }

    method IdentSdClock(io: Io) returns (ok: bool)
      modifies this
      ensures Outcome(S(), ok) == SdClock(host, old(S()), io)
    {
      hide TranSpeed;
      var clock, high := 0, false;
      if host.forceClock {
        clock := host.clock;
      } else {
        clock := TranSpeed(csd.tranSpeed);
        if hs {
          clock := HS_CLOCK;
          high := true;
        }
      }
      clocks := clocks + [Clock(clock, high)];
      stage := Final;
      ok := SendCmd(io, SET_BLOCKLEN, 512);
    }

    method IdentAllSendCid(io: Io) returns (ok: bool)
      modifies this
      ensures Outcome(S(), ok) == AllSendCidNext(old(S()), io)
    {
      if io.error {
        return false;
      }
      stage := SetAddress;
      ok := SendCmd(io, SET_RELATIVE_ADDR, 0);
    }

    method IdentSetAddress(io: Io) returns (ok: bool)
      modifies this
      ensures Outcome(S(), ok) == SetAddressNext(old(S()), io)
    {
      hide PublishedRca, CardAddress;
      if io.error {
        return false;
      }
      ppl := true;
      rca := PublishedRca(io);
      stage := SendCid;
      ok := SendCmd(io, SEND_CID, CardAddress(rca));
    }

    method IdentSendCid(io: Io) returns (ok: bool)
      modifies this
      ensures Outcome(S(), ok) == SendCidNext(old(S()), io)
    {
      if io.error {
        return false;
      }
      stage := SendCsd;
      ok := SendCmd(io, SEND_CSD, CardAddress(rca));
    }

    method IdentSendCsd(io: Io) returns (ok: bool)
      modifies this
      ensures Outcome(S(), ok) == SendCsdNext(old(S()), io)
    {
      hide ParseMmc, ParseSd;
      if io.error {
        return false;
      }
      csd := if version == Mmc then ParseMmc(io.resp) else ParseSd(io.resp);
      if csd.WriteProtected() {
        wp := true;
      }
      stage := SelDesCard;
      ok := SendCmd(io, SELECT_CARD, CardAddress(rca));
    }

    method IdentStatusDone(io: Io) returns (ok: bool)
      modifies this
      ensures Outcome(S(), ok) == StatusNext(host, old(S()), io)
    {
      hide TranSpeed;
      if io.error {
        return false;
      }
      if version == Mmc {
        var clock := if host.forceClock then host.clock else TranSpeed(csd.tranSpeed);
        bus := 1;
        clocks := clocks + [Clock(clock, false)];
        stage := Final;
        ok := SendCmd(io, SET_BLOCKLEN, 512);
        return;
      }
      var width := 1;
      if host.forceWidth {
        width := host.width;
      } else if host.bw4 {
        width := 4;
      }
      bus := width;
      if width == 4 {
        stage := SetBwApp;
        ok := SendCmd(io, APP_CMD, CardAddress(rca));
        return;
      }
      stage := SendScr;
      ok := SendCmd(io, APP_CMD, CardAddress(rca));
    }

    method IdentSelDesCard(io: Io) returns (ok: bool)
      modifies this
      ensures Outcome(S(), ok) == SelDesCardNext(old(S()), io)
    {
      if io.error {
        return false;
      }
      stage := CheckSts;
      ok := SendCmd(io, SEND_STATUS, CardAddress(rca));
    }

    method IdentSetBwApp(io: Io) returns (ok: bool)
      modifies this
      ensures Outcome(S(), ok) == SetBwAppNext(old(S()), io)
    {
      if io.error {
        return false;
      }
      stage := SetBw;
      ok := SendCmd(io, SET_BUS_WIDTH, WIDTH_4);
    }

    method IdentSetBw(io: Io) returns (ok: bool)
      modifies this
      ensures Outcome(S(), ok) == SetBwNext(host, old(S()), io)
    {
      if io.error {
        return false;
      }
      if host.noHs || !host.pio || !io.blksz {
        ok := IdentSdClock(io);
        return;
      }
      stage := SendScr;
      ok := SendCmd(io, APP_CMD, CardAddress(rca));
    }

    method IdentSendScr(io: Io) returns (ok: bool)
      modifies this
      ensures Outcome(S(), ok) == SendScrNext(old(S()), io)
    {
      if io.error {
        return false;
      }
      if !io.setup {
        return false;
      }
      stage := ParseScr;
      ok := SendCmd(io, SEND_SCR, 0);
    }

    method IdentParseScr(io: Io) returns (ok: bool)
      modifies this
      ensures Outcome(S(), ok) == ParseScrNext(host, old(S()), io)
    {
      if io.error {
        return false;
      }
      if !io.done {
        return false;
      }
      if io.sdSpec < 1 || !io.blksz {
        ok := IdentSdClock(io);
        return;
      }
      if !io.setup {
        ok := IdentSdClock(io);
        return;
      }
      stage := CheckMode;
      ok := SendCmd(io, SET_BUS_WIDTH, SWITCH_QUERY);
    }

    method IdentCheckMode(io: Io) returns (ok: bool)
      modifies this
      ensures Outcome(S(), ok) == CheckModeNext(host, old(S()), io)
    {
      if io.error {
        ok := IdentSdClock(io);
        return;
      }
      if !io.done {
        return false;
      }
      if !io.hsSupport || !HasSwitch(csd) || !host.hs {
        ok := IdentSdClock(io);
        return;
      }
      if !io.setup {
        return false;
      }
      stage := SwitchMode;
      ok := SendCmd(io, SET_BUS_WIDTH, SWITCH_SELECT);
    }

    method IdentSwitchMode(io: Io) returns (ok: bool)
      modifies this
      ensures Outcome(S(), ok) == SwitchModeNext(host, old(S()), io)
    {
      if io.error {
        return false;
      }
      if !io.done {
        return false;
      }
      if io.hsFunction == 1 {
        hs := true;
      }
      ok := IdentSdClock(io);
    }

    /** mmc_card_ident */
    method CardIdent(io: Io) returns (ok: bool)
      modifies this
      ensures Outcome(S(), ok) == Next(host, old(S()), io)
      ensures |old(sent)| < |sent| && sent[|old(sent)|].opcode == 2 ==> !io.error && io.resp.r0 >= 0x8000_0000
      ensures old(stage == SdPowerup && istage % 3 == 2 && istage <= 1000) && !io.error ==>
        sent == old(sent) + [if io.resp.r0 >= 0x8000_0000 then Cmd(2, 0) else Cmd(55, 0)]
      ensures old(stage == MmcPowerup && 0 < istage <= 1000) && !io.error ==>
        sent == old(sent) + [if io.resp.r0 >= 0x8000_0000 then Cmd(2, 0) else Cmd(1, 0x00ff8000)]
    {
      ghost var s := S();
      Powering(s, io);
      hide StartNext, GoIdleNext, CardVersionNext, SdPowerupNext, MmcPowerupNext, AllSendCidNext, SetAddressNext;
      hide SendCidNext, SendCsdNext, SelDesCardNext, StatusNext, SetBwAppNext, SetBwNext, SendScrNext, ParseScrNext;
      hide CheckModeNext, SwitchModeNext;
      match stage
      case Start => ok := IdentStart(io);
      case GoIdle => ok := IdentGoIdle(io);
      case CardVersion => ok := IdentCardVersion(io);
      case SdPowerup => ok := IdentSdPowerup(io);
      case MmcPowerup => ok := IdentMmcPowerup(io);
      case AllSendCid => ok := IdentAllSendCid(io);
      case SetAddress => ok := IdentSetAddress(io);
      case SendCid => ok := IdentSendCid(io);
      case SendCsd => ok := IdentSendCsd(io);
      case SelDesCard => ok := IdentSelDesCard(io);
      case SetBwApp => ok := IdentSetBwApp(io);
      case SetBw => ok := IdentSetBw(io);
      case SendScr => ok := IdentSendScr(io);
      case ParseScr => ok := IdentParseScr(io);
      case CheckMode => ok := IdentCheckMode(io);
      case SwitchMode => ok := IdentSwitchMode(io);
      case CheckSts => ok := IdentStatusDone(io);
      case Final =>
        stage := Idle;
        ok := !io.error;
      case Idle => ok := false;
    }

    lemma Powering(s: State, io: Io)
      ensures var t := Next(host, s, io).s;
        && (|s.sent| < |t.sent| && t.sent[|s.sent|].opcode == 2 ==> !io.error && io.resp.r0 >= 0x8000_0000)
        && (s.stage == SdPowerup && s.istage % 3 == 2 && s.istage <= 1000 && !io.error ==>
              t.sent == s.sent + [if io.resp.r0 >= 0x8000_0000 then Cmd(2, 0) else Cmd(55, 0)])
        && (s.stage == MmcPowerup && 0 < s.istage <= 1000 && !io.error ==>
              t.sent == s.sent + [if io.resp.r0 >= 0x8000_0000 then Cmd(2, 0) else Cmd(1, 0x00ff8000)])
    {
      if s.stage == Idle {
        assert Next(host, s, io) == Outcome(s, false);
      }
      hide Next;
      if s.stage != Idle {
        CidSent(host, s, io);
      }
      if (s.stage == SdPowerup && s.istage % 3 == 2) || (s.stage == MmcPowerup && 0 < s.istage) {
        PowerUpNext(host, s, io);
      }
    }

    /**
     The control thread starts an identification, interrupts carry it on until it fails or
     completes. Whatever the card answers: the commands are bounded in number, the set-up commands
     come in order and go to the address the card has published, application commands are
     prefixed, the clock goes to high speed only after the card has switched, and the flags for
     capacity and write protection are the card's own.
     */
    method Identify(ios: seq<Io>) returns (ok: bool)
      modifies this
      ensures Outcome(S(), ok) == Run(host, old(S()).(stage := Start), ios)
      ensures old(sent) == [] ==> Setup(sent) <= SETUP && ToCard(sent, rca) && AppCommandsOk(sent)
      ensures old(sent) == [] ==> NoneAddressed(sent) || Published(host, old(S()).(stage := Start), ios, rca)
      ensures old(sent) == [] && old(count) == 0 ==> |sent| <= 2023
      ensures old(clocks) == [] && old(count) == 0 && AnyHigh(clocks) ==>
        SwitchedBefore(host, old(S()).(stage := Start), ios)
      ensures ios != [] ==>
        && (hc <==> (old(hc) && old(count) != 0) || CapacityHeard(host, old(S()).(stage := Start), ios))
        && (wp <==> (old(wp) && old(count) != 0) || ProtectionHeard(host, old(S()).(stage := Start), ios))
    {
      hide Published, NoneAddressed;
      hide Run, Setup, ToCard, AppCommandsOk, AnyHigh, SwitchedBefore, CapacityHeard, ProtectionHeard, HighSpeedEarned;
      stage := Start;
      ghost var s := S();
      ok := Carry(ios);
      if s.sent == [] {
        RunKeepsSetup(host, s, ios);
        RunToCard(host, s, ios);
        RunKeepsAppCommands(host, s, ios);
        if s.count == 0 {
          CommandsBounded(host, s, ios);
        }
      }
      if s.count == 0 {
        Earned(s, ios);
      }
      RunLearns(host, s, ios);
    }

    lemma Earned(s: State, ios: seq<Io>)
      requires s.stage == Start && s.count == 0
      ensures s.clocks == [] && AnyHigh(Run(host, s, ios).s.clocks) ==> SwitchedBefore(host, s, ios)
    {
      if s.clocks == [] {
        HighSpeedIsEarned(host, s, ios);
      }
    }

    method Carry(ios: seq<Io>) returns (ok: bool)
      modifies this
      ensures Outcome(S(), ok) == Run(host, old(S()), ios)
    {
      ok := true;
      assert ios[..0] == [];
      for i := 0 to |ios|
        invariant Outcome(S(), ok) == Run(host, old(S()), ios[..i])
      {
        assert ios[..i + 1] == ios[..i] + [ios[i]];
        RunSnoc(host, old(S()), ios[..i], ios[i]);
        if ok && stage != Idle {
          ok := CardIdent(ios[i]);
        }
      }
      assert ios[..|ios|] == ios;
    }
  }
}
