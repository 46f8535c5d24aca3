/**
 Card identification: the state machine of mmc_card_ident, one interrupt at a time. What holds over
 whole identifications is proved in MmcIdentRuns; the driver's handlers are in MmcIdentifier.
 */
module MmcIdent {
  import opened MmcCsd

  datatype Stage =
    | Idle | Start | GoIdle | CardVersion | SdPowerup | MmcPowerup | AllSendCid | SetAddress | SendCid | SendCsd
    | SelDesCard | CheckSts | SetBwApp | SetBw | SendScr | ParseScr | CheckMode | SwitchMode | Final

  datatype Version = Unknown | Sd1 | Sd2 | Mmc

  /** A command as sent: its index and its 32-bit argument. */
  datatype Cmd = Cmd(opcode: nat, arg: bv32)

  datatype Clock = Clock(hz: nat, highSpeed: bool)

  const GO_IDLE_STATE := 0
  const SEND_OP_COND := 1
  const ALL_SEND_CID := 2
  const SET_RELATIVE_ADDR := 3
  const SET_BUS_WIDTH := 6          // SWITCH when it does not follow APP_CMD
  const SELECT_CARD := 7
  const IF_COND := 8
  const SEND_CSD := 9
  const SEND_CID := 10
  const SEND_STATUS := 13
  const SET_BLOCKLEN := 16
  const SD_SEND_OP_COND := 41
  const SEND_SCR := 51
  const APP_CMD := 55

  const OCR: bv32 := 0x00ff8000
  const SWITCH_QUERY: bv32 := 0x00ffff01
  const SWITCH_SELECT: bv32 := 0x80ffff01
  const WIDTH_4: bv32 := 2
  const MAX_STAGE := 1000
  const HS_CLOCK := 50_000_000

  /** What does not change during an identification: options and host capabilities. */
  datatype Host = Host(hs: bool, bw4: bool, pio: bool, noHs: bool, forceClock: bool, clock: nat, forceWidth: bool,
                       width: nat)

  /**
   What one interrupt brings: its status bits, the response words, and the answers the hardware
   callouts would give while it is handled. The replies to the data commands appear as the
   fields the driver looks at: SD_SPEC of the SCR, the high-speed bit of the mode query and the
   function the SWITCH command selected.
   */
  datatype Io = Io(command: bool, error: bool, timeout: bool, resp: Response,
                   detect: bool, powerup: bool, accepted: bool, setup: bool, done: bool, blksz: bool,
                   sdSpec: nat, hsSupport: bool, hsFunction: nat)

  /**
   * ident, istage, the static count, eflags (HS, HC, WP, PPL), version, rca, csd, bus width; commands
   * and clock settings so far.
   */
  datatype State = State(stage: Stage, istage: nat, count: nat, hs: bool, hc: bool, wp: bool, ppl: bool,
                         version: Version, rca: bv32, csd: Csd, bus: nat, sent: seq<Cmd>, clocks: seq<Clock>)

  datatype Outcome = Outcome(s: State, ok: bool)

  function Send(s: State, io: Io, opcode: nat, arg: bv32): Outcome
  {
    Outcome(s.(sent := s.sent + [Cmd(opcode, arg)]), io.accepted)
  }

  function Fail(s: State): Outcome
  {
    Outcome(s, false)
  }

  /** The relative address the card published. */
  function PublishedRca(io: Io): bv32
  {
    io.resp.r0 >> 16
  }

  /** A relative card address as a command argument. */
  function CardAddress(rca: bv32): bv32
  {
    rca << 16
  }

  /** The card reports that it has powered up. */
  predicate PoweredUp(io: Io)
  {
    io.resp.r0 & 0x8000_0000 != 0
  }

  predicate HighCapacity(io: Io)
  {
    io.resp.r0 & 0x4000_0000 != 0
  }

  /** The voltage window to ask for; the first query asks for none. */
  function OcrFor(first: bool, version: Version): bv32
  {
    WithCapacity(if first then 0 else OCR, version == Sd2)
  }

  /** Adds the high-capacity bit. */
  function WithCapacity(ocr: bv32, hcs: bool): bv32
  {
    if hcs then ocr | 0x4000_0000 else ocr
  }

  function StartNext(s: State, io: Io): Outcome
  {
    var s1 := if s.count == 0 then s.(wp := false, hs := false, hc := false, ppl := true) else s;
    if !io.detect || !io.powerup then Fail(s1)
    else Send(if s1.count + 1 > 3 then s1.(stage := GoIdle, count := 0) else s1.(count := s1.count + 1),
              io, GO_IDLE_STATE, 0)
  }

  function SdPowerupNext(s: State, io: Io): Outcome
  {
    if s.istage > MAX_STAGE then Fail(s)
    else if s.istage % 3 == 0 then Send(s.(istage := s.istage + 1), io, APP_CMD, 0)
    else if s.istage == 1 && s.version == Sd1 && io.timeout then
      Send(s.(stage := MmcPowerup, istage := 0, ppl := false), io, GO_IDLE_STATE, 0)
    else if io.error then Fail(s)
    else if s.istage % 3 == 1 then
      Send(s.(istage := s.istage + 1), io, SD_SEND_OP_COND, OcrFor(s.istage == 1, s.version))
    else SdReplyNext(s, io)
  }

  /** An answer to SD_SEND_OP_COND: on to the next stage once the card has powered up. */
  function SdReplyNext(s: State, io: Io): Outcome
  {
    var s1 := s.(hc := s.hc || HighCapacity(io));
    if PoweredUp(io) then Send(s1.(stage := AllSendCid, istage := 0), io, ALL_SEND_CID, 0)
    else Send(s1.(istage := s.istage + 1), io, APP_CMD, 0)
  }

  function MmcPowerupNext(s: State, io: Io): Outcome
  {
    var s1 := s.(istage := s.istage + 1);
    if s.istage > MAX_STAGE then Fail(s)
    else if s.istage == 0 then Send(s1, io, SEND_OP_COND, 0)
    else if io.error then Fail(s1)
    else if PoweredUp(io) then
      Send(s1.(stage := AllSendCid, istage := 0, version := Mmc), io, ALL_SEND_CID, 0)
    else Send(s1, io, SEND_OP_COND, OCR)
  }

  function CardVersionNext(s: State, io: Io): Outcome
  {
    if io.timeout then SdPowerupNext(s.(version := Sd1, stage := SdPowerup, istage := 0), io)
    else if !io.error && io.resp.r0 & 0x1FFF == 0x1AA then
      SdPowerupNext(s.(version := Sd2, stage := SdPowerup, istage := 0), io)
    else Fail(s)
  }

  /** mmc_ident_sd_clock: the last step for SD cards. */
  function SdClock(h: Host, s: State, io: Io): Outcome
  {
    var clock := if h.forceClock then Clock(h.clock, false)
                 else if s.hs then Clock(HS_CLOCK, true) else Clock(TranSpeed(s.csd.tranSpeed), false);
    Send(s.(clocks := s.clocks + [clock], stage := Final), io, SET_BLOCKLEN, 512)
  }

  function GoIdleNext(s: State, io: Io): Outcome
  {
    if io.error then Fail(s)
    else if io.command then Send(s.(stage := CardVersion, istage := 0), io, IF_COND, 0x1AA)
    else Outcome(s, true)
  }

  function AllSendCidNext(s: State, io: Io): Outcome
  {
    if io.error then Fail(s) else Send(s.(stage := SetAddress), io, SET_RELATIVE_ADDR, 0)
  }

  function SetAddressNext(s: State, io: Io): Outcome
  {
    var rca := PublishedRca(io);
    if io.error then Fail(s)
    else Send(s.(ppl := true, rca := rca, stage := SendCid), io, SEND_CID, CardAddress(rca))
  }

  function SendCidNext(s: State, io: Io): Outcome
  {
    if io.error then Fail(s) else Send(s.(stage := SendCsd), io, SEND_CSD, CardAddress(s.rca))
  }

  function SendCsdNext(s: State, io: Io): Outcome
  {
    var csd := if s.version == Mmc then ParseMmc(io.resp) else ParseSd(io.resp);
    if io.error then Fail(s)
    else
      var wp := s.wp || csd.WriteProtected();
      Send(s.(csd := csd, wp := wp, stage := SelDesCard), io, SELECT_CARD, CardAddress(s.rca))
  }

  function SelDesCardNext(s: State, io: Io): Outcome
  {
    if io.error then Fail(s) else Send(s.(stage := CheckSts), io, SEND_STATUS, CardAddress(s.rca))
  }

  function StatusNext(h: Host, s: State, io: Io): Outcome
  {
    if io.error then Fail(s)
    else if s.version == Mmc then
      var clock := Clock(if h.forceClock then h.clock else TranSpeed(s.csd.tranSpeed), false);
      Send(s.(bus := 1, clocks := s.clocks + [clock], stage := Final), io, SET_BLOCKLEN, 512)
    else
      var width := if h.forceWidth then h.width else if h.bw4 then 4 else 1;
      Send(s.(bus := width, stage := if width == 4 then SetBwApp else SendScr), io, APP_CMD, CardAddress(s.rca))
  }

  function SetBwAppNext(s: State, io: Io): Outcome
  {
    if io.error then Fail(s) else Send(s.(stage := SetBw), io, SET_BUS_WIDTH, WIDTH_4)
  }

  function SetBwNext(h: Host, s: State, io: Io): Outcome
  {
    if io.error then Fail(s)
    else if h.noHs || !h.pio || !io.blksz then SdClock(h, s, io)
    else Send(s.(stage := SendScr), io, APP_CMD, CardAddress(s.rca))
  }

  function SendScrNext(s: State, io: Io): Outcome
  {
    if io.error || !io.setup then Fail(s) else Send(s.(stage := ParseScr), io, SEND_SCR, 0)
  }

  function ParseScrNext(h: Host, s: State, io: Io): Outcome
  {
    if io.error || !io.done then Fail(s)
    else if io.sdSpec < 1 || !io.blksz || !io.setup then SdClock(h, s, io)
    else Send(s.(stage := CheckMode), io, SET_BUS_WIDTH, SWITCH_QUERY)
  }

  /** The card has the SWITCH command, command class 10. */
  predicate HasSwitch(csd: Csd)
  {
    csd.ccc & (1 << 10) != 0
  }

  function CheckModeNext(h: Host, s: State, io: Io): Outcome
  {
    if io.error then SdClock(h, s, io)
    else if !io.done then Fail(s)
    else if !(io.hsSupport && HasSwitch(s.csd) && h.hs) then SdClock(h, s, io)
    else if !io.setup then Fail(s)
    else Send(s.(stage := SwitchMode), io, SET_BUS_WIDTH, SWITCH_SELECT)
  }

  function SwitchModeNext(h: Host, s: State, io: Io): Outcome
  {
    if io.error || !io.done then Fail(s) else SdClock(h, s.(hs := s.hs || io.hsFunction == 1), io)
  }

  /** mmc_card_ident: what one interrupt does in each stage. */
  function Next(h: Host, s: State, io: Io): Outcome
  {
    match s.stage
    case Idle => Fail(s)
    case Start => StartNext(s, io)
    case GoIdle => GoIdleNext(s, io)
    case CardVersion => CardVersionNext(s, io)
    case SdPowerup => SdPowerupNext(s, io)
    case MmcPowerup => MmcPowerupNext(s, io)
    case AllSendCid => AllSendCidNext(s, io)
    case SetAddress => SetAddressNext(s, io)
    case SendCid => SendCidNext(s, io)
    case SendCsd => SendCsdNext(s, io)
    case SelDesCard => SelDesCardNext(s, io)
    case CheckSts => StatusNext(h, s, io)
    case SetBwApp => SetBwAppNext(s, io)
    case SetBw => SetBwNext(h, s, io)
    case SendScr => SendScrNext(s, io)
    case ParseScr => ParseScrNext(h, s, io)
    case CheckMode => CheckModeNext(h, s, io)
    case SwitchMode => SwitchModeNext(h, s, io)
    case Final => Outcome(s.(stage := Idle), !io.error)
  }

  /** Identification ends at the first failure, or when the stage is Idle again. */
  function Run(h: Host, s: State, ios: seq<Io>): Outcome
  {
    if ios == [] then Outcome(s, true)
    else
      var o := Run(h, s, ios[..|ios| - 1]);
      if !o.ok || o.s.stage == Idle then o else Next(h, o.s, ios[|ios| - 1])
  }

  lemma RunSnoc(h: Host, s: State, ios: seq<Io>, io: Io)
    ensures var o := Run(h, s, ios);
      Run(h, s, ios + [io]) == if !o.ok || o.s.stage == Idle then o else Next(h, o.s, io)
  {
    assert (ios + [io])[..|ios + [io]| - 1] == ios;
  }
}
