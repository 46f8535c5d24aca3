/**
 The MMC driver's I/O engine: requests (CCBs) are taken from a queue one at a time, READ and WRITE
 become data commands over DMA or PIO, interrupts drive them on, and each request is posted.
 */
module MmcIo {
  import opened Common
  import opened MmcTrace
  import opened MmcScatter
  import opened MmcJobs
  import MmcCsd
  import MmcIdent
  import MmcIdentRuns

  datatype State = Idle | Ident | Transfer

  /** What an interrupt reports. A card interrupt hides the rest. */
  datatype Interrupt = Interrupt(card: bool, error: bool, command: bool, data: bool, ready: bool)

  /** The answers of the card and the callouts while an interrupt is handled: detect is asked up to twice. */
  datatype World = World(present: bool, again: bool, dmaDone: bool, io: MmcIdent.Io)

  /** What the control thread is told. */
  datatype Notice = Insertion | Removal | CardReady

  /** The length of a list, as mmc_pio_initiate sums it up. */
  method SumOf(sg: seq<Elem>) returns (nbytes: nat)
    ensures nbytes == Total(sg)
  {
    nbytes := 0;
    for sgi := 0 to |sg|
      invariant nbytes == Total(sg[..sgi])
    {
      PrefixStep(sg, sgi);
      nbytes := nbytes + sg[sgi].count;
    }
    assert sg[..|sg|] == sg;
  }

  class Engine {
    const hasPio: bool        // setup_pio is there
    const hasDma: bool        // setup_dma is there
    const board: Board
    const mem: array<Byte>
    const bounce: array<Byte>

    var ident: MmcIdent.State // what identification works on: HC, WP, version, CSD and so on
    var inserted: bool
    var ready: bool
    var invalid: bool         // a card that cannot be used
    var notices: seq<Notice>
    var blksize: nat          // as READ CAPACITY has left it, 0 before
    var reply: Option<Reply>  // what READ CAPACITY has answered
    var state: State
    var nexus: Option<Ccb>
    var status: Status        // of the nexus
    var stop: StopState
    var stopsRetry: nat       // static in mmc_data_irq
    var read: bool            // dir
    var curSg: nat
    var offset: int
    var nbytes: nat
    var paddr: nat
    var blkno: nat
    var queue: seq<Ccb>

    ghost var run: Identification
    ghost var trace: seq<Event>
    ghost var watch: Watch
    ghost var arrived: seq<Ccb>
    ghost var posted: seq<Posted>
    ghost var job: Job
    ghost var xfers: seq<Data>
    ghost var moved: seq<nat>
    ghost var caller: seq<Byte>
    ghost var wire: seq<Byte>

    /** The block size is one READ CAPACITY reports, and what is known of the card its identification has found. */
    ghost predicate Shape()
      reads `blksize, `ident, `run
    {
      && Divides(blksize) && bounce.Length == BOUNCE && mem != bounce
      && ident == Result(board.host, run).s && Identified(run)
    }

    /** While in state IDENT the identification goes on. */
    ghost predicate IdentOk()
      reads `state, `run
    {
      state == Ident ==> MmcIdentRuns.Live(Result(board.host, run))
    }

    /** The card in the slot, as its register was decoded. */
    function Card(): MmcCsd.Geometry
      reads `ident
    {
      MmcCsd.GeometryOf(ident.csd)
    }

    /** The block size is the one the last READ CAPACITY has left; one just completed has set it. */
    ghost predicate Sizing()
      reads `nexus, `status, `blksize, `posted, `ident
    {
      if nexus.Some? && status == Complete && nexus.value.req.Measures() then blksize == CardSize(Card())
      else blksize == LastSize(posted)
    }

    /** The bus trace is in order, and every request is posted, in hand or queued. */
    ghost predicate Books()
      reads `trace, `watch, `posted, `xfers, `arrived, `nexus, `queue
    {
      && watch == Watched(trace) != Bad
      && Sends(trace) == XfersOf(posted) + xfers
      && arrived == Ccbs(posted) + Held(nexus) + queue
      && AllAnswered(board, posted) && SizesUsed(posted)
      && (forall i :: 0 <= i < |queue| ==> queue[i].req.Sane(mem.Length))
      && (nexus.Some? ==> nexus.value.req.Sane(mem.Length))
    }

    /** The job is the nexus's, on this host and card. */
    ghost predicate Assigned()
      reads `nexus, `job, `read, `ident, `run, `blksize, `nbytes
    {
      && nexus.Some? && JobFor(board, job, nexus.value.req)
      && job.read == read && job.pio == board.pio && job.auto == board.auto && job.blksize == blksize
      && job.hc == ident.hc && OnCard() && nbytes == Total(job.sg)
    }

    /** The job takes the card for what its identification has found. */
    ghost predicate OnCard()
      reads `job, `ident, `run
    {
      && job.hc == ident.hc && job.wp == ident.wp && job.run == run
      && job.geometry == Card()
    }

    /** How far the job has come. */
    ghost predicate Under()
      reads `nexus, `job, `read, `ident, `run, `blksize, `nbytes, `xfers, `curSg, `offset, `moved, `paddr, `blkno,
        `caller, bounce
    {
      && Assigned() && Follows(job, xfers)
      && if board.pio then PioAt() else DmaAt() && (nexus.value.req.scatter ==> Bounced())
    }

    ghost predicate PioAt()
      reads `xfers, `blksize, `nbytes, `job, `curSg, `offset, `moved
    {
      && Size(Sent(xfers), Unit(blksize)) == nbytes && MovedTo(job.sg, curSg, offset, moved)
      && PieceOpen(job.sg, curSg, offset)
      && (EndsOnce(job.sg) ==> (offset == -1 <==> AllMoved(job.sg, moved)))
    }

    ghost predicate DmaAt()
      reads `job, `paddr, `offset, `nbytes, `xfers, `blksize, `blkno
    {
      && job.base == paddr && 0 <= offset <= nbytes
      && offset == Size(Sent(xfers), Unit(blksize)) && blkno == (job.lba + Sent(xfers)) % WORD
    }

    /** The bounce buffer is large enough, and holds what is to be written. */
    ghost predicate Bounced()
      reads `nbytes, `read, `caller, bounce
    {
      nbytes <= BOUNCE == bounce.Length && (!read ==> bounce[..nbytes] == caller)
    }

    /** A transfer between two interrupts. */
    ghost predicate Busy()
      reads `nexus, `job, `read, `ident, `run, `blksize, `nbytes, `xfers, `curSg, `offset, `moved, `paddr, `blkno,
        `caller, bounce, `stop, `stopsRetry, `watch
    {
      && Under() && StopOk(stop, stopsRetry, watch) && (board.pio && stop == Issued ==> offset == -1)
      && (!board.pio ==> 0 < blksize)
    }

    /** A request that waits for the identification of the card. */
    ghost predicate Waiting()
      reads `state, `nexus, `watch, `xfers
    {
      state == Ident && nexus.Some? && nexus.value.req.Scsi? && watch == Free && xfers == []
    }

    /** No request in hand. */
    ghost predicate Rest()
      reads `state, `nexus, `watch, `xfers
    {
      nexus.None? && state != Transfer && watch == Free && xfers == []
    }

    ghost function Answer(): Posted
      requires nexus.Some?
      reads `nexus, `status, `job, `xfers, `moved, `caller, `wire, `ident, `reply
    {
      Posted(nexus.value, status, job, xfers, moved, caller, wire, Card(), reply)
    }

    /** Data commands that have gone out belong to the nexus's job. */
    ghost predicate Sending()
      reads `nexus, `job, `read, `ident, `run, `blksize, `nbytes, `xfers
    {
      xfers != [] ==> Assigned() && Follows(job, xfers)
    }

    /** A DMA transfer traps after the first command of a job, when no block size has been reported. */
    ghost predicate TrapOk()
      reads `status, `blksize, `xfers
    {
      && (status == Trapped ==> !board.pio && blksize == 0 && xfers != [])
      && (!board.pio && xfers != [] && blksize == 0 ==> status == Trapped)
    }

    /** A transfer after a step: under way, complete with all its blocks, or failed. */
    ghost predicate Ran()
      reads `nexus, `job, `read, `ident, `run, `blksize, `nbytes, `xfers, `curSg, `offset, `moved, `paddr, `blkno,
        `caller, bounce, `stop, `stopsRetry, `watch, `status, `wire, `reply
    {
      && nexus.Some? && Sending() && TrapOk()
      && (status == InProgress ==> Busy())
      && (status == Complete ==> watch == Free && Fulfilled(board, Answer()))
    }

    /** The state of the nexus after a step. */
    ghost predicate Outcome()
      reads `nexus, `job, `read, `ident, `run, `blksize, `nbytes, `xfers, `curSg, `offset, `moved, `paddr, `blkno,
        `caller, bounce, `stop, `stopsRetry, `watch, `status, `wire, `reply, `trace, `posted, `arrived, `queue, `state
    {
      && Shape() && Books() && Sizing() && nexus.Some? && Sending() && TrapOk()
      && (status == InProgress ==> Waiting() || (state == Transfer && Busy()))
      && (status == Complete ==> watch == Free && Fulfilled(board, Answer()))
    }

    /** Nothing is in hand. */
    ghost predicate Quiet()
      reads `blksize, `ident, `run, `trace, `watch, `posted, `xfers, `arrived, `nexus, `queue, `state, `status
    {
      Shape() && Books() && Sizing() && Rest()
    }

    /** Between two pulses. */
    ghost predicate Valid()
      reads this, bounce
    {
      IdentOk() && if nexus.None? then Quiet() else status == InProgress && Outcome()
    }

    /** The driver has stopped in a division by zero. */
    predicate Crashed()
      reads `nexus, `status
    {
      nexus.Some? && status == Trapped
    }

    /** After any pulse: as between two pulses, or stopped for good. */
    ghost predicate Sound()
      reads this, bounce
    {
      if Crashed() then Outcome() else Valid()
    }

    /** All requests taken up so far, in order; the last may be in hand. */
    ghost function History(): seq<Posted>
      reads `posted, `nexus, `status, `job, `xfers, `moved, `caller, `wire, `ident, `reply
    {
      posted + if nexus.Some? then [Answer()] else []
    }

    /** The driver starts without a card and without a block size, its flags clear and the counter at 0. */
    constructor (hasPio: bool, hasDma: bool, board: Board, mem: array<Byte>, ident: MmcIdent.State)
      ensures Valid() && nexus.None? && posted == [] && arrived == [] && fresh(bounce) && blksize == 0
    {
      this.hasPio, this.hasDma := hasPio, hasDma;
      this.board, this.mem, blksize := board, mem, 0;
      this.ident := ident.(count := 0, hc := false, wp := false);
      run := Identification(ident.(count := 0, hc := false, wp := false), []);
      bounce := new Byte[BOUNCE];
      inserted, ready, invalid, notices := false, false, false, [];
      state, nexus, status, stop, stopsRetry := Idle, None, InProgress, NoStop, 0;
      read, curSg, offset, nbytes, paddr, blkno, queue, reply := false, 0, 0, 0, 0, 0, [], None;
      trace, watch, arrived, posted, xfers, moved, caller, wire := [], Free, [], [], [], [], [], [];
    }

    /** Every request that arrived is posted exactly once, in order, or still held or queued. */
    lemma EachOnce()
      requires Valid()
      ensures arrived == Ccbs(posted) + Held(nexus) + queue
      ensures forall i :: 0 <= i < |posted| ==> Answered(board, posted[i])
    {
    }

    /**
     The bus as a whole: a multi-block command the host does not stop by itself is followed by a
     CMD12 that ends well, or by the failure of the request, before the next data command and
     before the request completes.
     */
    lemma StopsHonoured(i: nat, j: nat)
      requires Valid() && i < j < |trace|
      requires trace[i].Xfer? && trace[i].d.multi && !trace[i].d.auto
      requires trace[j].Xfer? || trace[j] == Completed
      ensures exists k :: i < k < j && Ends(trace[k])
    {
      StopInBetween(trace, i, j);
    }

    /** At no time have more than seven CMD12s in a row been sent. */
    lemma FewStops(n: nat)
      requires Valid() && n <= |trace|
      ensures Stops(trace[..n]) <= 7
    {
      AcceptedBefore(trace, n);
      StopsBounded(trace[..n]);
    }

    /** Every data command sent belongs to a posted request or to the one in hand. */
    lemma EverySendAccounted()
      requires Valid()
      ensures Sends(trace) == XfersOf(posted) + xfers
      ensures xfers != [] ==> nexus.Some? && Follows(job, xfers)
    {
    }

    /** The request a data command on the bus belongs to, and which of its commands it is. */
    lemma SendOwner(k: nat) returns (i: nat, m: nat)
      requires Sound() && k < |trace| && trace[k].Xfer?
      ensures i < |History()| && m < |History()[i].xfers| && History()[i].xfers[m] == trace[k].d
    {
      hide Fulfilled, Justified, Follows, SizesUsed, AllAnswered, Sizing, Busy, TrapOk, Sending;
      SendsAt(trace, k);
      InBooks();
      hide Sound, XfersOf, Sends;
      var d := trace[k].d;
      if d in XfersOf(posted) {
        i, m := XferOwner(posted, d);
      } else {
        i := |posted|;
        m :| 0 <= m < |xfers| && xfers[m] == d;
      }
    }

    lemma InBooks()
      requires Sound()
      ensures Sends(trace) == XfersOf(posted) + xfers && (xfers != [] ==> nexus.Some?)
    {
      hide Fulfilled, Justified, Follows, SizesUsed, AllAnswered, Sizing, Busy, TrapOk, Sends, XfersOf;
    }

    /**
     Every data command on the bus is one of a READ or WRITE: CMD17 or CMD18 for a READ, CMD24 or CMD25
     for a WRITE; CMD18 or CMD25 exactly when it is not one block, or, before any READ CAPACITY has
     completed, when it is any at all; by DMA that is exactly for more than one block.
     */
    lemma BusCommands(k: nat) returns (i: nat, m: nat)
      requires Sound() && k < |trace| && trace[k].Xfer?
      ensures i < |History()| && m < |History()[i].xfers| && History()[i].xfers[m] == trace[k].d
      ensures History()[i].ccb.req.Scsi?
      ensures var p, d := History()[i], trace[k].d;
        && (p.ccb.req.op == Read10 || p.ccb.req.op == Write10)
        && (p.ccb.req.op == Read10 ==> d.opcode == 17 || d.opcode == 18)
        && (p.ccb.req.op == Write10 ==> d.opcode == 24 || d.opcode == 25)
        && (d.opcode == 18 || d.opcode == 25 <==> if MeasuredBefore(History(), i) then d.blocks != 1 else d.blocks != 0)
        && (!p.job.pio && MeasuredBefore(History(), i) ==> (d.opcode == 18 || d.opcode == 25 <==> 1 < d.blocks))
        && (d.multi <==> d.opcode == 18 || d.opcode == 25) && (d.auto <==> d.multi && board.auto)
    {
      i, m := SendOwner(k);
      HistoryOk(i);
      HistorySizes();
      hide Sound, Justified, LastSize, MeasuredBefore;
      SizeKnownAt(History(), i);
      OpcodesSent(board, History()[i], m);
    }

    /** There is a block size exactly after a READ CAPACITY has completed. */
    lemma SizeAfterCapacity()
      requires Valid()
      ensures 0 < blksize <==> MeasuredBefore(posted, |posted|)
    {
      SizeKnown(posted);
    }

    /** Every transfer used the block size known when its request was taken up. */
    lemma HistorySizes()
      requires Sound()
      ensures SizesUsed(History())
    {
      hide LastSize, Fulfilled, Justified, CardOk, OnCard, Result, Watched, Sends, Follows, Under;
      if nexus.Some? {
        NexusSized();
        SizesSnoc(posted, Answer());
      } else {
        assert History() == posted;
      }
    }

    lemma NexusSized()
      requires Outcome()
      ensures xfers != [] ==> job.blksize == LastSize(posted)
    {
      hide LastSize, Fulfilled, OnCard, Result, Watched, Sends, Follows, Under;
    }

    /** All data commands are those of their job; only the last request can have trapped. */
    lemma HistoryOk(i: nat)
      requires Sound() && i < |History()|
      ensures Justified(board, History()[i])
      ensures History()[i].status == Trapped <==> Crashed() && i == |History()| - 1
      ensures History()[i].status == Trapped ==> !History()[i].job.pio
    {
      hide LastSize, Fulfilled, Watched, Sends, Follows, Under, SizesUsed;
      if i < |posted| {
        assert History()[i] == posted[i] && Answered(board, posted[i]);
      } else {
        NexusJustified();
      }
    }

    lemma NexusJustified()
      requires Outcome()
      ensures Justified(board, Answer())
    {
      hide LastSize, Fulfilled, Watched, Sends, Follows, Under, SizesUsed, AllAnswered;
    }

    /**
     In every run, a transfer that has reached the controller neither traps nor goes to a wrong
     place exactly if, for DMA, a READ CAPACITY has completed before it, and the last one was
     answered for a card of the same block size, or, on a card addressed by blocks, the transfer is
     a single command, or, by bytes, it begins at address 0.
     */
    lemma CapacityFirst(i: nat)
      requires Sound() && i < |History()| && History()[i].xfers != []
      ensures Unharmed(History()[i]) <==>
              && (History()[i].job.pio || MeasuredBefore(History(), i))
              && (SameSize(History(), i) || Immune(History()[i]))
    {
      HistoryOk(i);
      HistorySizes();
      hide Sound;
      UnharmedIff(board, History(), i);
    }

    /** A completed transfer has had exactly the card's blocks it asks for, when the block size is the card's. */
    lemma CardCovered(i: nat)
      requires Valid() && i < |posted| && posted[i].status == Complete && posted[i].xfers != []
      requires SameSize(posted, i) && OnTheCard(posted[i].job, Sent(posted[i].xfers))
      ensures CoversCard(posted[i])
    {
      var p := posted[i];
      assert Answered(board, p) && p.job.blksize == LastSize(posted[..i]);
      hide Valid, OnTheCard, LastCard, CardSize, CardOk, Follows, Total, Sent, CoversCard;
      MmcCsd.DivMod(Total(p.job.sg), Unit(p.job.blksize), Sent(p.xfers));
      CompletedCovers(board, p);
    }

    /**
     What the identification begun last has found out decides, however often identifications have
     been cut short before: if its answers had a write-protect bit, no CMD24 or CMD25 is sent, and
     the arguments of data commands are block numbers exactly if an answer to ACMD41 had the
     capacity bit, else byte addresses.
     */
    lemma CardDecides(i: nat)
      requires Sound() && i < |History()| && History()[i].xfers != []
      ensures var p := History()[i];
        MmcIdentRuns.ProtectionHeard(board.host, p.job.run.begun, p.job.run.ios) ==>
          && p.ccb.req.Scsi? && p.ccb.req.op == Read10
          && forall k :: 0 <= k < |p.xfers| ==> p.xfers[k].opcode != 24 && p.xfers[k].opcode != 25
      ensures var p := History()[i];
        forall k :: 0 <= k < |p.xfers| ==>
          var d := p.xfers[k];
          d.arg == (if MmcIdentRuns.CapacityHeard(board.host, p.job.run.begun, p.job.run.ios) then d.block
                    else d.block * p.job.blksize % 0x1_0000_0000)
    {
      HistoryOk(i);
      var p := History()[i];
      hide Sound, Identified, MmcIdent.Run, MmcIdentRuns.CapacityHeard, MmcIdentRuns.ProtectionHeard;
      FlagsHeard(board.host, p.job.run);
      forall k | 0 <= k < |p.xfers|
        ensures p.xfers[k].arg == if p.job.hc then p.xfers[k].block else p.xfers[k].block * p.job.blksize % WORD
        ensures p.ccb.req.Scsi? && p.ccb.req.op == (if p.job.read then Read10 else Write10)
        ensures p.job.read ==> p.xfers[k].opcode != 24 && p.xfers[k].opcode != 25
      {
        FollowsAt(p.job, p.xfers, k);
        OpcodesSent(board, p, k);
      }
    }

    /** A multi-block command is followed directly by CMD12, or by the failure of its request and then no CMD12. */
    lemma StopOrFails(i: nat)
      requires Valid() && i + 1 < |trace| && trace[i].Xfer? && trace[i].d.multi && !trace[i].d.auto
      ensures trace[i + 1] == Stop || trace[i + 1] == Failed
      ensures trace[i + 1] == Failed && i + 2 < |trace| ==> trace[i + 2] != Stop && trace[i + 2] != StopDone
    {
      StopOrFailure(trace, i);
    }

    /** With DMA the driver stops for want of a block size exactly if some transfer came before any READ CAPACITY. */
    lemma CrashIff()
      requires Sound() && !board.pio
      ensures Crashed() <==>
              exists i :: 0 <= i < |History()| && History()[i].xfers != [] && !MeasuredBefore(History(), i)
    {
      var hist := History();
      forall i | 0 <= i < |hist| && hist[i].xfers != []
        ensures hist[i].status == Trapped <==> !MeasuredBefore(hist, i)
        ensures hist[i].status == Trapped <==> Crashed() && i == |hist| - 1
      {
        HistoryOk(i);
        TrapIff(i);
        DmaJob(i);
      }
      if Crashed() {
        assert hist[|hist| - 1].xfers != [];
      }
    }

    lemma TrapIff(i: nat)
      requires Sound() && !board.pio && i < |History()| && History()[i].xfers != []
      ensures History()[i].status == Trapped <==> !MeasuredBefore(History(), i)
    {
      HistoryOk(i);
      HistorySizes();
      DmaJob(i);
      SizeKnownAt(History(), i);
      hide Sound, LastSize, CardOk, Follows;
    }

    /** On a host with DMA every transfer is by DMA. */
    lemma DmaJob(i: nat)
      requires Sound() && !board.pio && i < |History()| && History()[i].xfers != []
      ensures !History()[i].job.pio
    {
    }

    lemma NexusBusy()
      requires Valid()
      ensures nexus.Some? ==> status == InProgress && (state == Transfer || state == Ident)
      ensures state == Transfer ==> nexus.Some?
    {
    }

    lemma SaneNexus()
      requires Books() && nexus.Some?
      ensures var r := nexus.value.req; r.Scsi? ==>
        r.lba < WORD && Total(r.Pieces()) < LIMIT && (r.scatter ==> Inside(r.sg, mem.Length))
    {
    }

    lemma AssignedPieces()
      requires Assigned()
      ensures nexus.Some? && nexus.value.req.Moves()
      ensures job.sg == nexus.value.req.Pieces() && nbytes == Total(job.sg)
    {
    }

    ghost method Record(e: Event)
      requires watch == Watched(trace)
      modifies `trace, `watch
      ensures trace == old(trace) + [e]
      ensures watch == After(old(watch), e) == Watched(trace)
      ensures Sends(trace) == Sends(old(trace)) + if e.Xfer? then [e.d] else []
    {
      WatchedSnoc(trace, e);
      SendsSnoc(trace, e);
      trace, watch := trace + [e], After(watch, e);
    }

    /** The command callout: the controller takes a command or not. */
    method Accepted() returns (ok: bool)
    {
      ok := *;
    }

    /** A data command goes out. */
    ghost method Issue(d: Data)
      requires Books() && watch == Free
      modifies `trace, `watch, `xfers
      ensures Books() && xfers == old(xfers) + [d] && watch == After(Free, Xfer(d))
      ensures trace == old(trace) + [Xfer(d)]
    {
      hide Watched, Sends, XfersOf, Ccbs, AllAnswered, SizesUsed;
      Assoc(XfersOf(posted), xfers, [d]);
      Record(Xfer(d));
      xfers := xfers + [d];
    }

    /** mmc_send_rwcmd for n blocks, count bytes. */
    method SendRwCmd(count: nat, ghost n: nat, buf: nat) returns (ok: bool)
      requires Shape() && Books() && Assigned() && Follows(job, xfers) && watch == Free
      requires count == Size(n, Unit(blksize)) && blkno == (job.lba + Sent(xfers)) % WORD
      requires buf == if board.pio then 0 else job.base + Size(Sent(xfers), Unit(blksize))
      requires Size(Sent(xfers), Unit(blksize)) + count <= nbytes && (board.pio || 0 < count)
      requires xfers != [] ==> !board.pio && 0 < blksize
      modifies `stop, `trace, `watch, `xfers
      ensures Shape() && Books()
      ensures Follows(job, xfers)
      ensures ok ==> xfers != [] && Sent(xfers) == Sent(old(xfers)) + n && trace != old(trace)
      ensures ok ==> stop != Issued && StopOk(stop, 0, watch)
      ensures !ok ==> trace == old(trace) && watch == old(watch) && xfers == old(xfers)
      ensures old(trace) <= trace
      ensures ok ==>
        var one := count == blksize;
        var d := Data(if read then if one then 17 else 18 else if one then 24 else 25,
                      if ident.hc then blkno else blkno * blksize % 0x1_0000_0000,
                      blkno, n, buf, !one, !one && board.auto);
        xfers == old(xfers) + [d] && trace == old(trace) + [Xfer(d)]
      ensures ok && count == blksize ==> stop == NoStop
      ensures ok && count != blksize ==> stop == if board.auto then AutoStop else Pending
    {
      hide Books, Shape, Follows, Sent, Total, JobFor, Size, Unit, OnCard, Command;
      var opcode, multi := 0, false;
      CommandIs(job, Sent(xfers), n, count, blkno, buf);
      if count == blksize {
        opcode := if read then 17 else 24;
        stop := NoStop;
      } else {
        opcode := if read then 18 else 25;
        stop := if board.auto then AutoStop else Pending;
        multi := true;
      }
      var arg := if ident.hc then blkno else blkno * blksize % WORD;
      ok := Accepted();
      if ok {
        ghost var d := Data(opcode, arg, blkno, n, buf, multi, multi && board.auto);
        assert d == Command(job, Sent(xfers), n);
        SomeBlocks(n, Unit(blksize));
        FollowsSnoc(job, xfers, n);
        SentSnoc(xfers, d);
        Issue(d);
      }
    }

    /** mmc_stop_xfer */
    method StopXfer() returns (ok: bool)
      requires Shape() && Books()
      requires watch == NeedStop || (watch.Stopping? && watch.k < MAX_STOPS)
      modifies `trace, `watch
      ensures Shape() && Books()
      ensures ok ==> watch == Stopping(if old(watch) == NeedStop then 1 else old(watch).k + 1)
      ensures !ok ==> watch == old(watch)
      ensures trace == if ok then old(trace) + [Stop] else old(trace)
    {
      hide Watched, Sends, XfersOf, Ccbs, AllAnswered, SizesUsed;
      ok := Accepted();
      if ok {
        Record(Stop);
        assert Sends(trace) == Sends(old(trace)) + [];
      }
    }

    /** The setup_dma and setup_pio callouts: how much can be moved at once, in the controller's blocks. */
    method Setup(limit: nat) returns (count: nat, ghost n: nat)
      requires Divides(blksize)
      ensures count == Size(n, Unit(blksize)) <= limit
    {
      var k: nat := *;
      if limit < k * MmcCsd.DEFAULT_BLOCK {
        k := 0;
      }
      WholeBlocks(k, blksize);
      return k * MmcCsd.DEFAULT_BLOCK, k * (MmcCsd.DEFAULT_BLOCK / Unit(blksize));
    }

    lemma SizeDivides()
      requires Shape()
      ensures Divides(blksize)
    {
    }

    /** mmc_dma_xfer */
    method DmaXfer(buf: nat, limit: nat) returns (count: nat, ghost n: nat)
      requires Shape() && Books() && Assigned() && Follows(job, xfers) && watch == Free && !board.pio
      requires blkno == (job.lba + Sent(xfers)) % WORD && buf == job.base + Size(Sent(xfers), Unit(blksize))
      requires Size(Sent(xfers), Unit(blksize)) + limit <= nbytes && (xfers != [] ==> 0 < blksize)
      modifies `stop, `trace, `watch, `xfers
      ensures Shape() && Books() && count <= limit
      ensures Follows(job, xfers)
      ensures 0 < count ==> count == Size(n, Unit(blksize)) && Sent(xfers) == Sent(old(xfers)) + n
      ensures 0 < count ==> xfers != [] && stop != Issued && StopOk(stop, 0, watch)
      ensures 0 < count <==> trace != old(trace)
      ensures count == 0 ==> xfers == old(xfers) && watch == old(watch)
      ensures old(trace) <= trace
    {
      SizeDivides();
      hide Books, Shape, Follows, Sent, Assigned, Size, StopOk, Unit;
      count, n := Setup(limit);
      if count > 0 {
        var ok := SendRwCmd(count, n, buf);
        if !ok {
          count := 0;
        }
      }
    }

    /** The end of a DMA transfer: what a read brought in is handed to the caller's pieces. */
    method FinishDma()
      requires Shape() && Books() && Under() && status == InProgress && watch == Free && !board.pio && nbytes == offset
      modifies `status, `caller, `wire, mem
      ensures Shape() && Books() && Under() && status == Complete && Fulfilled(board, Answer())
      ensures if read && nexus.value.req.scatter then mem[..] == Scattered(old(mem[..]), job.sg, bounce[..nbytes])
              else mem[..] == old(mem[..])
      ensures nexus.value.req.scatter ==>
        wire == bounce[..nbytes] && (if read then caller == Bytes(mem[..], job.sg) else caller == old(caller))
    {
      hide Books, Follows, Sent, Addresses, Total, Bytes, Scattered, Size, Unit, OnCard;
      SaneNexus();
      if nexus.value.req.scatter {
        wire := bounce[..nbytes];
        if read {
          ghost var before := mem[..];
          Scatter(mem, nexus.value.req.sg, bounce);
          if Distinct(Addresses(job.sg)) {
            ScatterExact(before, job.sg, wire);
          }
          caller := Bytes(mem[..], job.sg);
        }
      }
      status := Complete;
    }

    /**
     One more chunk of a DMA transfer, as large as the controller can take. Once the command is out,
     the driver divides by the block size.
     */
    method DmaChunk()
      requires Shape() && Books() && Assigned() && Follows(job, xfers) && DmaAt()
      requires status == InProgress && watch == Free && !board.pio && (xfers != [] ==> 0 < blksize)
      modifies `stop, `trace, `watch, `xfers, `offset, `blkno, `status
      ensures Shape() && Books() && Assigned() && Follows(job, xfers) && status != Complete
      ensures status == InProgress ==> DmaAt() && stop != Issued && 0 < blksize
      ensures status == InProgress ==> StopOk(stop, 0, watch) && old(offset) < offset
      ensures status == Trapped <==> blksize == 0 && trace != old(trace)
      ensures status == Failure ==> xfers == old(xfers)
      ensures status == Trapped ==> xfers != []
      ensures old(trace) <= trace
    {
      hide Books, Shape, Assigned, Follows, Sent, Size, StopOk, Unit;
      ghost var done := Sent(xfers);
      var count, n := DmaXfer(paddr + offset, nbytes - offset);
      if count > 0 {
        if blksize == 0 {
          offset := offset + count;
          status := Trapped;
        } else {
          Advance(count, done, n);
        }
      } else {
        status := Failure;
      }
    }

    /** Offset and block number after a chunk. */
    method Advance(count: nat, ghost done: nat, ghost n: nat)
      requires 0 < blksize && job.base == paddr && 0 <= offset && offset + count <= nbytes
      requires offset == Size(done, Unit(blksize)) && blkno == (job.lba + done) % WORD
      requires count == Size(n, Unit(blksize)) && Sent(xfers) == done + n
      modifies `offset, `blkno
      ensures DmaAt() && offset == old(offset) + count
    {
      hide Sent, Size;
      NextChunk(job.lba, done, n, blksize);
      offset := offset + count;
      blkno := (blkno + count / blksize) % WORD;
    }

    /** mmc_dma_rw: the next chunk, or the end. */
    method DmaRw()
      requires Shape() && Books() && Under() && status == InProgress && watch == Free && !board.pio
      requires xfers != [] ==> 0 < blksize
      modifies `stop, `trace, `watch, `xfers, `offset, `blkno, `status, `caller, `wire, mem
      ensures Shape() && Books() && Ran()
      ensures status == Complete <==> old(offset) == nbytes
      ensures status == InProgress ==> old(offset) < offset
      ensures status == Trapped <==> blksize == 0 && trace != old(trace)
      ensures old(trace) <= trace
    {
      hide Books, Shape, Assigned, DmaAt, Follows, Fulfilled, Command;
      AssignedPieces();
      if nbytes == offset {
        FinishDma();
      } else {
        DmaChunk();
      }
    }

    lemma Separate()
      requires Shape()
      ensures bounce.Length == BOUNCE && mem != bounce
    {
    }

    /** The buffer of a DMA transfer: a list goes through the bounce buffer, when it fits. */
    method DmaBuffer() returns (ok: bool)
      requires Shape() && Books() && nexus.Some? && nexus.value.req.Moves()
      requires read == (nexus.value.req.op == Read10) && blkno == nexus.value.req.lba && offset == 0
      requires (read || !ident.wp) && xfers == [] && !board.pio
      modifies `caller, `nbytes, `paddr, `job, bounce
      ensures ok ==> Under() && job.base == board.Base(nexus.value.req)
      ensures ok ==> nexus.value.req.scatter && !read ==>
        bounce[..nbytes] == caller == Bytes(mem[..], nexus.value.req.sg)
      ensures ok <==> (nexus.value.req.scatter ==> Total(nexus.value.req.sg) <= 65536)
    {
      hide Books, Shape, Sent, Total, Size, Bytes, Addresses, Inside, MmcCsd.GeometryOf;
      SaneNexus();
      Separate();
      FollowsNone(job);
      var r := nexus.value.req;
      ok := true;
      if r.scatter {
        ok, nbytes := Gather(mem, r.sg, !read, bounce);
        if !ok {
          return;
        }
        if !read {
          caller := Bytes(mem[..], r.sg);
        }
        paddr := board.pbounce;
      } else {
        OnePiece(r.addr, r.len);
        nbytes := r.len;
        paddr := if r.phys then r.addr else board.physical(r.addr);
      }
      job := Job(read, ident.hc, ident.wp, Card(), run, board.auto, board.pio, blksize, blkno,
                 paddr, r.Pieces());
      NothingSent(Unit(blksize), job.lba);
    }

    /** mmc_dma_initiate, for a nexus whose direction and first block are set. */
    method DmaInitiate()
      requires Shape() && Books() && nexus.Some? && nexus.value.req.Moves() && status == InProgress && !board.pio
      requires state == Idle && watch == Free && xfers == []
      requires read == (nexus.value.req.op == Read10) && blkno == nexus.value.req.lba && offset == 0
      requires Sizing() && (read || !ident.wp)
      modifies `stop, `trace, `watch, `xfers, `offset, `blkno, `status, `caller, `wire, `nbytes, `paddr, `job, `state,
        mem, bounce
      ensures Outcome() && (status == InProgress <==> state == Transfer) && state != Ident
      ensures status == Trapped <==> blksize == 0 && trace != old(trace)
      ensures old(trace) <= trace
    {
      hide Books, Shape, Under, Fulfilled, Size, StopOk, Bytes, Total, Assigned, Follows, LastSize, Sending;
      var ok := DmaBuffer();
      if !ok {
        status := Failure;
        NothingOut();
        return;
      }
      DmaRw();
      if status == InProgress {
        state := Transfer;
      }
    }

    /** mmc_pio_xfer: one command for all of it, if the controller can take it at once. */
    method PioXfer() returns (count: nat)
      requires Shape() && Books() && Assigned() && watch == Free && board.pio && xfers == [] && blkno == job.lba < WORD
      modifies `stop, `trace, `watch, `xfers
      ensures Shape() && Books() && count <= nbytes && Follows(job, xfers)
      ensures 0 < count ==> count == nbytes && xfers != [] && Size(Sent(xfers), Unit(blksize)) == nbytes
      ensures 0 < count ==> stop != Issued && StopOk(stop, 0, watch)
      ensures old(trace) <= trace
    {
      SizeDivides();
      hide Books, Shape, Assigned, Sent, Size, Follows, StopOk, Unit, OnCard;
      FollowsNone(job);
      NothingSent(Unit(blksize), job.lba);
      ghost var n;
      count, n := Setup(nbytes);
      if count != nbytes {
        return 0;
      }
      var ok := SendRwCmd(count, n, 0);
      if !ok {
        count := 0;
      }
    }

    /** The length of the nexus's buffer, and the job at its beginning. */
    method PioBuffer()
      requires Shape() && Books() && nexus.Some? && nexus.value.req.Moves() && board.pio
      requires read == (nexus.value.req.op == Read10) && blkno == nexus.value.req.lba && offset == 0 && curSg == 0
      requires read || !ident.wp
      modifies `nbytes, `job, `moved
      ensures Assigned() && job.lba == blkno < WORD
      ensures 0 < nbytes ==> MovedTo(job.sg, 0, 0, moved) && PieceOpen(job.sg, 0, 0) && !AllMoved(job.sg, moved)
    {
      hide Books, Shape, Total, Inside, MovedTo, MmcCsd.GeometryOf;
      SaneNexus();
      var r := nexus.value.req;
      if r.scatter {
        nbytes := SumOf(r.sg);
      } else {
        OnePiece(r.addr, r.len);
        nbytes := r.len;
      }
      job := Job(read, ident.hc, ident.wp, Card(), run, board.auto, board.pio, blksize, blkno, 0,
                 r.Pieces());
      moved := [];
      if 0 < nbytes {
        MovedNothing(job.sg);
      }
    }

    /** mmc_pio_initiate */
    method PioInitiate()
      requires Shape() && Books() && nexus.Some? && nexus.value.req.Moves() && status == InProgress && board.pio
      requires state == Idle && watch == Free && xfers == []
      requires read == (nexus.value.req.op == Read10) && blkno == nexus.value.req.lba && offset == 0 && curSg == 0
      requires Sizing() && (read || !ident.wp)
      modifies `stop, `trace, `watch, `xfers, `status, `nbytes, `job, `moved, `state
      ensures status != Trapped
      ensures Outcome() && (status == InProgress <==> state == Transfer) && state != Ident
      ensures old(trace) <= trace
    {
      hide Books, Shape, Assigned, Sent, Size, Follows, MovedTo, Fulfilled, LastSize, Sizing, Outcome;
      SizeStands();
      if nexus.value.req.phys {
        status := Failure;
        Refused();
        return;
      }
      PioBuffer();
      var count := PioXfer();
      if count > 0 {
        state := Transfer;
        Launched();
      } else {
        status := Failure;
        NotLaunched();
      }
    }

    /** The first command of a PIO transfer is out. */
    lemma Launched()
      requires Shape() && Books() && Sizing() && Assigned() && Follows(job, xfers) && xfers != []
      requires board.pio && status == InProgress && state == Transfer && PioAt()
      requires stop != Issued && StopOk(stop, 0, watch)
      ensures Outcome()
    {
      hide Books, Shape, Sizing, Assigned, Follows, PioAt, Fulfilled;
      AssignedPieces();
    }

    /** A PIO transfer that has not begun, or only with an empty command. */
    lemma NotLaunched()
      requires Shape() && Books() && Assigned() && Follows(job, xfers) && blksize == LastSize(posted)
      requires board.pio && status == Failure
      ensures Outcome()
    {
      hide Books, Shape, LastSize, Assigned, Follows, Fulfilled;
      AssignedPieces();
    }

    /** The pio_done callout: moves some of the bytes asked for, through the controller's data port. */
    method PioDone(addr: nat, limit: nat) returns (count: nat)
      modifies `moved
      ensures count <= limit && moved == old(moved) + Span(addr, count)
    {
      count := *;
      if count > limit {
        count := 0;
      }
      moved := moved + Span(addr, count);
    }

    /**
     The loop of mmc_pio_rw over a list. When it moves the last byte, it reaches the end exactly if
     the list does not end in two empty pieces. It stops short only in a piece that is not finished,
     or behind an empty one.
     */
    method PioPieces()
      requires Assigned() && nexus.value.req.scatter && PioAt() && offset != -1
      modifies `moved, `offset, `curSg
      ensures PioAt()
      ensures !AllMoved(job.sg, old(moved)) && AllMoved(job.sg, moved) ==> (offset == -1 <==> EndsOnce(job.sg))
      ensures offset != -1 ==> curSg < |job.sg|
      ensures offset != -1 ==>
        || offset < job.sg[curSg].count
        || (offset == 0 && 0 < curSg && job.sg[curSg - 1].count == 0)
    {
      hide Assigned, MovedTo, Total, Addresses;
      AssignedPieces();
      ghost var sg := job.sg;
      var list := nexus.value.req.sg;
      var sgi: nat := curSg;
      while true
        modifies `moved, `offset
        invariant MovedTo(sg, sgi, offset, moved) && offset != -1 && PieceOpen(sg, sgi, offset)
        invariant AllMoved(sg, moved) && !AllMoved(sg, old(moved)) ==>
          offset == 0 && 0 < sgi && 0 < sg[sgi - 1].count
        decreases Total(sg) - |moved|
      {
        MovedWithin(sg, sgi, offset, moved);
        ghost var was, piece, from := moved, sgi, offset;
        var count := PioDone(list[sgi].addr + offset, list[sgi].count - offset);
        MovedMore(sg, sgi, offset, was, count);
        offset := offset + count;
        MovedCount(sg, sgi, offset, moved);
        if offset == list[sgi].count {
          MovedPiece(sg, sgi, moved);
          sgi := sgi + 1;
          offset := if sgi >= |list| then -1 else 0;
        }
        if count == 0 || offset == -1 {
          if !AllMoved(sg, old(moved)) {
            LastPiece(sg, piece, from, was, count);
          }
          MovedCount(sg, sgi, offset, moved);
          break;
        }
        MovedBound(sg, sgi, offset, moved);
      }
      curSg := sgi;
    }

    /** The loop of mmc_pio_rw over a single buffer, which ends with its last byte. */
    method PioWhole()
      requires Assigned() && !nexus.value.req.scatter && PioAt() && offset != -1
      modifies `moved, `offset
      ensures PioAt() && (offset == -1 <==> AllMoved(job.sg, moved))
    {
      hide Assigned, MovedTo, Total, Addresses;
      AssignedPieces();
      ghost var sg := job.sg;
      var r := nexus.value.req;
      MovedWithin(sg, curSg, offset, moved);
      OnePiece(r.addr, r.len);
      while true
        modifies `moved, `offset
        invariant MovedTo(sg, curSg, offset, moved) && offset != -1 && PieceOpen(sg, curSg, offset)
        decreases Total(sg) - |moved|
      {
        MovedWithin(sg, curSg, offset, moved);
        ghost var was := moved;
        var count := PioDone(r.addr + offset, r.len - offset);
        MovedMore(sg, curSg, offset, was, count);
        offset := offset + count;
        MovedCount(sg, curSg, offset, moved);
        if offset == nbytes {
          MovedPiece(sg, curSg, moved);
          MovedAll(sg, curSg + 1, curSg, moved);
          offset := -1;
        }
        if count == 0 || offset == -1 {
          MovedCount(sg, curSg, offset, moved);
          break;
        }
        MovedBound(sg, curSg, offset, moved);
      }
    }

    /** A PIO transfer whose bytes have all been moved. */
    lemma PioDelivered()
      requires Under() && board.pio && offset == -1
      ensures Fulfilled(board, Answer())
    {
    }

    /** CMD12 goes out, or, if the controller does not take it, the request fails. */
    twostate predicate StopOrFail()
      reads `stop, `status, `trace
    {
      || (status == InProgress && stop == Issued && trace == old(trace) + [Stop])
      || (status == Failure && trace == old(trace))
    }

    /** mmc_pio_stop, at the end of the data, for the direction that ends here. */
    method PioStop(dir: bool)
      requires Shape() && Books() && Under() && board.pio && offset == -1 && status == InProgress
      requires stop != Issued && stopsRetry == 0 && StopOk(stop, 0, watch)
      modifies `stop, `status, `trace, `watch
      ensures Shape() && Books() && Ran()
      ensures read != dir ==> status == InProgress && stop == old(stop)
      ensures read == dir && old(stop) == Pending ==> StopOrFail()
      ensures read == dir && old(stop) != Pending ==> status == Complete && trace == old(trace)
      ensures read != dir ==> trace == old(trace)
    {
      hide Books, Shape, Under, Fulfilled, Sending;
      Holds();
      if read == dir {
        if stop == Pending {
          var ok := StopXfer();
          if !ok {
            status := Failure;
            stop := NoStop;
            return;
          }
          stop := Issued;
        } else {
          status := Complete;
          PioDelivered();
        }
      }
    }

    /** At this interrupt the data ends, for the direction of the transfer: reads at once, writes at the next one. */
    twostate predicate PioEnds()
      reads `read, `offset
    {
      if read then old(offset) != -1 && offset == -1 else old(offset) == -1
    }

    lemma PioSense()
      requires PioAt()
      ensures offset == -1 ==> AllMoved(job.sg, moved)
      ensures EndsOnce(job.sg) ==> (offset == -1 <==> AllMoved(job.sg, moved))
    {
    }

    /** mmc_pio_rw */
    method PioRw()
      requires Shape() && Books() && Under() && board.pio && status == InProgress
      requires stop != Issued && stopsRetry == 0 && StopOk(stop, 0, watch)
      modifies `stop, `status, `trace, `watch, `moved, `offset, `curSg
      ensures Shape() && Books() && Ran()
      ensures if PioEnds() then if old(stop) == Pending then StopOrFail() else status == Complete && trace == old(trace)
              else status == InProgress && stop == old(stop) && trace == old(trace)
      ensures !AllMoved(job.sg, old(moved)) ==>
        (PioEnds() <==> read && AllMoved(job.sg, moved) && EndsOnce(job.sg))
      ensures AllMoved(job.sg, old(moved)) && EndsOnce(job.sg) ==> (PioEnds() <==> !read)
    {
      hide Books, Shape, PioAt, Fulfilled, Follows, JobFor, Sent, Size, Sending, Total, EndsOnce, AllMoved;
      Holds();
      PioSense();
      if offset == -1 {
        PioStop(false);
        return;
      }
      AssignedPieces();
      if nexus.value.req.scatter {
        PioPieces();
      } else {
        PioWhole();
        OneEnds();
      }
      PioSense();
      if offset == -1 {
        PioStop(true);
      }
    }

    lemma OneEnds()
      requires Assigned() && !nexus.value.req.scatter
      ensures EndsOnce(job.sg)
    {
    }

    /** mmc_dma_irq */
    method DmaIrq()
      requires Shape() && Books() && Under() && !board.pio && status == InProgress && 0 < blksize
      requires stop != Issued && stopsRetry == 0 && StopOk(stop, 0, watch)
      modifies `stop, `trace, `watch, `xfers, `offset, `blkno, `status, `caller, `wire, mem
      ensures Shape() && Books() && Ran()
      ensures old(stop) == Pending ==> StopOrFail() && offset == old(offset)
      ensures status != Trapped
      ensures old(stop) != Pending ==> (status == Complete <==> old(offset) == nbytes)
      ensures old(stop) != Pending && status == InProgress ==> old(offset) < offset
      ensures old(trace) <= trace
    {
      hide Books, Shape, Under, Fulfilled, Sending;
      Holds();
      if stop == Pending {
        var ok := StopXfer();
        if !ok {
          status := Failure;
          stop := NoStop;
          return;
        }
        stop := Issued;
        return;
      }
      DmaRw();
    }

    /** CMD12 has ended without an error. */
    ghost method StopEnds()
      requires Books() && watch.Stopping?
      modifies `trace, `watch
      ensures Books() && watch == Free
      ensures old(trace) <= trace
    {
      hide Watched, Sends, XfersOf, Ccbs, AllAnswered, SizesUsed;
      Record(StopDone);
      assert Sends(trace) == Sends(old(trace)) + [];
    }

    /** CMD12 has ended with an error: up to six times it is sent again. */
    method StopRetry()
      requires Shape() && Books() && Busy() && status == InProgress && stop == Issued
      modifies `stop, `stopsRetry, `trace, `watch, `status
      ensures Shape() && Books() && Ran()
      ensures status == Failure || (status == InProgress && stop == Issued && stopsRetry == old(stopsRetry) + 1)
      ensures old(stopsRetry) == 6 ==> status == Failure && trace == old(trace)
      ensures old(trace) <= trace
    {
      hide Books, Shape, Under, Fulfilled, Sending;
      Holds();
      stopsRetry := stopsRetry + 1;
      if stopsRetry - 1 > 5 {
        status := Failure;
        stop := NoStop;
        return;
      }
      var ok := StopXfer();
      if !ok {
        status := Failure;
        stop := NoStop;
      }
    }

    /** CMD12 has ended well. */
    method StopComplete()
      requires Shape() && Books() && Busy() && status == InProgress && stop == Issued
      modifies `stop, `stopsRetry, `trace, `watch, `xfers, `offset, `blkno, `status, `caller, `wire, mem
      ensures Shape() && Books() && Ran() && stopsRetry == 0
      ensures status == Complete <==> board.pio || old(offset) == nbytes
      ensures status == InProgress ==> old(offset) < offset
      ensures old(trace) <= trace
    {
      hide Books, Shape, Under, Fulfilled, Sending;
      Holds();
      StopEnds();
      stopsRetry := 0;
      stop := NoStop;
      if board.pio {
        status := Complete;
        PioDelivered();
      } else {
        DmaIrq();
      }
    }

    /** A CMD12 that is due goes out: the data has ended well, for PIO in the direction of the transfer. */
    twostate predicate StopDue(intr: Interrupt, done: bool)
      reads `read, `offset
    {
      !intr.error && if board.pio then (intr.data || intr.ready) && PioEnds() else intr.data && done
    }

    /** The transfer has failed. */
    predicate Broken(intr: Interrupt, done: bool)
    {
      intr.error || (!board.pio && intr.data && !done)
    }

    /** mmc_data_irq. done: what the dma_done callout reports. */
    method DataIrq(intr: Interrupt, done: bool)
      requires Shape() && Books() && Busy() && status == InProgress && (intr.ready ==> board.pio)
      modifies `stop, `stopsRetry, `trace, `watch, `xfers, `offset, `blkno, `status, `caller, `wire, `moved, `curSg,
        mem
      ensures Shape() && Books() && Ran()
      ensures intr.error && (old(stop) != Issued || old(stopsRetry) == 6) ==> status == Failure
      ensures intr.error && status == InProgress ==> stop == Issued && stopsRetry == old(stopsRetry) + 1
      ensures intr.command && !intr.error && old(stop) == Issued ==>
        (status == Complete <==> board.pio || old(offset) == nbytes)
      ensures status != Trapped
      ensures !board.pio && intr.data && !intr.error && old(stop) != Issued && !done ==> status == Failure
      ensures old(stop) == Pending ==>
        if StopDue(intr, done) then StopOrFail()
        else trace == old(trace) && if Broken(intr, done) then status == Failure
                                    else status == InProgress && stop == Pending
      ensures !intr.error && !intr.command && !intr.data && !intr.ready ==> status == InProgress && stop == old(stop)
      ensures old(trace) <= trace
    {
      hide Books, Shape, Under, Fulfilled, Sending;
      Holds();
      if stop == Issued {
        if intr.error {
          StopRetry();
        } else if intr.command {
          StopComplete();
        }
        return;
      }
      stopsRetry := 0;
      if intr.error {
        status := Failure;
      } else if intr.data {
        if board.pio {
          PioRw();
        } else if done {
          DmaIrq();
        } else {
          status := Failure;
        }
      } else if intr.ready {
        PioRw();
      }
    }

    lemma Holds()
      requires Under()
      ensures nexus.Some? && nexus.value.req.Moves() && Sending()
    {
    }

    // ----- Requests

    lemma NotMoving()
      requires nexus.Some? && !nexus.value.req.Moves() && !nexus.value.req.Measures()
      ensures Fulfilled(board, Answer())
    {
    }

    /** INQUIRY, MODE SENSE and the like: carried out or refused at once. */
    method Immediate()
      requires nexus.Some? && !nexus.value.req.Moves() && !nexus.value.req.Measures()
      modifies `status
      ensures (status == Complete || status == Failure) && Fulfilled(board, Answer())
    {
      var ok: bool := *;
      status := if ok then Complete else Failure;
      NotMoving();
    }

    /** mmc_media_check: a card that has gone is neither ready nor known to be unusable. */
    method MediaCheck(present: bool)
      modifies `inserted, `ready, `invalid, `notices
      ensures inserted == present
      ensures ready == (old(ready) && (present || !old(inserted)))
      ensures invalid == (old(invalid) && (present || !old(inserted)))
      ensures present == old(inserted) ==> notices == old(notices)
      ensures present != old(inserted) ==> notices == old(notices) + [if present then Insertion else Removal]
    {
      if present {
        if !inserted {
          inserted := true;
          notices := notices + [Insertion];
        }
      } else if inserted {
        inserted, ready, invalid := false, false, false;
        notices := notices + [Removal];
      }
    }

    /** mmc_unit_ready: a ready card is looked for again; if it has gone, the media check follows. */
    method TestUnitReady(present: bool, again: bool)
      requires nexus.Some? && !nexus.value.req.Moves() && !nexus.value.req.Measures()
      modifies `status, `inserted, `ready, `invalid, `notices
      ensures (status == Complete || status == Failure) && Fulfilled(board, Answer())
      ensures status == Complete <==> old(ready) && present
      ensures old(ready) && !present && !again && old(inserted) ==> !ready && notices == old(notices) + [Removal]
      ensures !old(ready) || present ==> ready == old(ready) && notices == old(notices)
    {
      if ready {
        if present {
          status := Complete;
        } else {
          MediaCheck(again);
          status := Failure;
        }
      } else {
        status := Failure;
      }
      NotMoving();
    }

    /** mmc_capacity: READ CAPACITY also settles the block size of later transfers. */
    method ReadCapacity() returns (lba: nat, size: nat)
      requires Shape() && nexus.Some? && nexus.value.req.Measures() && blksize == LastSize(posted)
      modifies `status, `blksize, `reply
      ensures reply == if status == Complete then Some(Reply(lba, size)) else old(reply)
      ensures Shape() && Sizing() && (status == Complete || status == Failure) && Fulfilled(board, Answer())
      ensures status == Complete <==> !nexus.value.req.phys && ready
      ensures status == Complete ==>
        && size == blksize && lba < WORD && (lba + 1) * size == MmcCsd.CapacityBytes(Card())
      ensures status != Complete ==> blksize == old(blksize)
    {
      hide MmcCsd.CapacityBytes, MmcCsd.GeometryOf, MmcCsd.Pow2, MmcCsd.BlockBits, MmcCsd.Blocks, Result;
      lba, size := 0, 0;
      if nexus.value.req.phys || !ready {
        status := Failure;
      } else {
        lba, size := MmcCsd.ReadCapacity(Card());
        MmcCsd.BlockDivides(Card());
        blksize, reply := size, Some(Reply(lba, size));
        status := Complete;
      }
    }

    /** READ and WRITE, on a card that is ready and, for a write, not protected. */
    method StartTransfer()
      requires Shape() && Books() && Sizing() && nexus.Some? && nexus.value.req.Moves() && status == InProgress
      requires state == Idle && watch == Free && xfers == []
      modifies `stop, `trace, `watch, `xfers, `offset, `curSg, `blkno, `status, `caller, `wire, `nbytes, `paddr, `job,
        `state, `moved, `read, mem, bounce
      ensures Outcome() && (status == InProgress <==> state == Transfer) && state != Ident
      ensures !ready || (nexus.value.req.op == Write10 && ident.wp) || !(if board.pio then hasPio else hasDma) ==>
        status == Failure && trace == old(trace)
      ensures status == Trapped <==> !board.pio && blksize == 0 && trace != old(trace)
      ensures old(trace) <= trace
    {
      hide Fulfilled, Books, Shape, Sizing, LastSize, Outcome;
      SizeStands();
      var op := nexus.value.req.op;
      if (op == Write10 && ident.wp) || !ready {
        status := Failure;
        Refused();
        return;
      }
      offset, curSg, read, blkno := 0, 0, op == Read10, nexus.value.req.lba;
      if board.pio && hasPio {
        PioInitiate();
      } else if !board.pio && hasDma {
        DmaInitiate();
      } else {
        status := Failure;
        Refused();
      }
    }

    lemma SizeStands()
      requires Sizing() && status == InProgress
      ensures blksize == LastSize(posted)
    {
    }

    lemma Refused()
      requires Shape() && Books() && nexus.Some? && watch == Free && xfers == []
      requires status == Failure && blksize == LastSize(posted)
      ensures Outcome()
    {
      hide Books, Shape, LastSize, Fulfilled;
    }

    /** A request answered before any data command went out. */
    lemma AtOnce()
      requires Shape() && Books() && Sizing() && nexus.Some? && watch == Free && xfers == []
      requires status == Failure || (status == Complete && Fulfilled(board, Answer()))
      ensures Outcome()
    {
      hide Books, Shape, Sizing, Fulfilled;
    }

    lemma NothingOut()
      ensures xfers == [] ==> Sending()
    {
    }

    /** The commands that move no data are answered at once. */
    method Respond()
      requires Shape() && Books() && Sizing() && nexus.Some? && nexus.value.req.Scsi? && !nexus.value.req.Moves()
      requires status == InProgress && watch == Free && xfers == []
      modifies `status, `blksize, `reply, `inserted, `ready, `invalid, `notices
      ensures Outcome() && (status == Complete || status == Failure)
    {
      hide Books, Shape, LastSize, Outcome, Fulfilled, CardSize, MmcCsd.GeometryOf, MmcCsd.CapacityBytes;
      SizeStands();
      match nexus.value.req.op {
        case Capacity =>
          var lba, size := ReadCapacity();
        case UnitReady =>
          var present: bool, again: bool := *, *;
          TestUnitReady(present, again);
        case OtherCommand => Immediate();
      }
      AtOnce();
    }

    /** mmc_io_cmds */
    method IoCmds()
      requires Shape() && Books() && Sizing() && IdentOk()
      requires nexus.Some? && nexus.value.req.Scsi? && status == InProgress
      requires state != Transfer && watch == Free && xfers == []
      modifies `stop, `trace, `watch, `xfers, `offset, `curSg, `blkno, `status, `caller, `wire, `nbytes, `paddr, `job,
        `state, `moved, `read, `blksize, `reply, `inserted, `ready, `invalid, `notices, mem, bounce
      ensures Outcome() && (status != InProgress ==> state == old(state))
      ensures status == InProgress <==> state != Idle
      ensures state == Ident <==> old(state) == Ident
      ensures old(state) == Idle && nexus.value.req.Moves() && !old(ready) ==> status == Failure
      ensures old(state) == Idle && nexus.value.req.Moves() && nexus.value.req.op == Write10 && ident.wp ==>
        status == Failure
      ensures status == Trapped <==> !board.pio && blksize == 0 && trace != old(trace)
      ensures old(trace) <= trace && (!nexus.value.req.Moves() ==> trace == old(trace))
    {
      hide Books, Shape, LastSize, IdentOk, Outcome, Fulfilled;
      if state == Ident {
        StillWaiting();
        return;
      }
      if nexus.value.req.Moves() {
        StartTransfer();
      } else {
        Respond();
      }
    }

    /** simq_post_ccb, for a request that is no longer in progress. */
    method Post()
      requires Outcome() && (status == Complete || status == Failure)
      modifies `nexus, `posted, `trace, `watch, `xfers
      ensures Shape() && Books() && Sizing() && nexus.None? && watch == Free && xfers == []
      ensures queue == old(queue) && arrived == old(arrived) && posted == old(posted) + [old(Answer())]
      ensures trace == old(trace) + [if status == Complete then Completed else Failed]
      ensures old(trace) <= trace
    {
      hide Watched, Sends, XfersOf, Ccbs, Follows, Sent, Total, Addresses, Distinct, SizesUsed, LastSize, Result;
      hide Fulfilled, Justified, Busy, Assigned, TrapOk, CardSize, LastCard, Reported, MmcCsd.GeometryOf;
      ghost var p := Answer();
      AnswerOk();
      Record(if status == Complete then Completed else Failed);
      PostedSnoc(posted, p);
      AnsweredSnoc(posted, p);
      SizesSnoc(posted, p);
      assert Sends(trace) == Sends(old(trace)) + [];
      assert Ccbs(posted) + Held(nexus) + queue == Ccbs(posted) + [p.ccb] + Held(None) + queue;
      assert XfersOf(posted) + p.xfers == XfersOf(posted + [p]) + [];
      posted := posted + [p];
      nexus, xfers := None, [];
    }

    lemma AnsweredSnoc(posted: seq<Posted>, p: Posted)
      requires AllAnswered(board, posted) && Answered(board, p)
      ensures AllAnswered(board, posted + [p])
    {
    }

    /** A finished nexus may be posted. */
    lemma AnswerOk()
      requires Outcome() && (status == Complete || status == Failure)
      ensures Answered(board, Answer()) && (xfers != [] ==> job.blksize == LastSize(posted))
      ensures blksize == if Measured(Answer()) then CardSize(Answer().card) else LastSize(posted)
    {
    }

    /** The next request becomes the nexus. */
    method Dequeue()
      requires Valid() && nexus.None? && queue != []
      modifies `nexus, `queue, `status, `reply
      ensures Shape() && Books() && Sizing() && IdentOk() && state != Transfer && watch == Free && xfers == []
      ensures nexus == Some(old(queue)[0]) && status == InProgress && queue == old(queue)[1..]
    {
      hide Watched, Sends, XfersOf, Ccbs, AllAnswered, SizesUsed, LastSize, Request.Sane;
      assert queue == [queue[0]] + queue[1..];
      Assoc(Ccbs(posted), [queue[0]], queue[1..]);
      nexus, queue, status, reply := Some(queue[0]), queue[1..], InProgress, None;
    }

    /** A new nexus is carried out by its function code. */
    method Begin()
      requires Shape() && Books() && Sizing() && IdentOk() && state != Transfer && watch == Free && xfers == []
      requires nexus.Some? && status == InProgress
      modifies `stop, `trace, `watch, `xfers, `offset, `curSg, `blkno, `status, `caller, `wire, `nbytes, `paddr, `job,
        `state, `moved, `read, `blksize, `reply, `inserted, `ready, `invalid, `notices, mem, bounce
      ensures Outcome() && IdentOk() && (status != InProgress ==> state == old(state))
      ensures nexus.value.req.Devctl? ==> status == Complete
      ensures nexus.value.req.Unsupported? ==> status == Failure
      ensures status == Trapped <==> !board.pio && blksize == 0 && trace != old(trace)
      ensures old(trace) <= trace
    {
      hide Books, Shape, LastSize, Outcome, Fulfilled;
      match nexus.value.req {
        case Scsi(_, _, _, _, _, _, _) => IoCmds();
        case Devctl =>
          status := Complete;
          NotMoving();
          AtOnce();
        case Unsupported =>
          status := Failure;
          AtOnce();
      }
    }

    /** mmc_start_ccb, when no request is being aborted. */
    method StartCcb()
      requires Valid()
      modifies this, mem, bounce
      ensures Sound() && arrived == old(arrived)
      ensures old(nexus).Some? || old(queue) == [] ==> nexus == old(nexus) && queue == old(queue) && !Crashed()
      ensures old(nexus).None? && old(queue) != [] ==> queue == old(queue)[1..]
      ensures Crashed() ==> !board.pio && blksize == 0 && trace != old(trace)
      ensures old(trace) <= trace && old(posted) <= posted
    {
      hide Books, Shape, Sizing, IdentOk, Outcome;
      if nexus.None? && queue != [] {
        Dequeue();
        Begin();
        if status == Complete || status == Failure {
          Post();
        }
      }
    }

    // ----- Identification

    /** The card is ready; a request that has waited for it is carried out. */
    method IdentDone()
      requires Shape() && Books() && Sizing() && state == Ident && watch == Free && xfers == []
      requires nexus.Some? ==> status == InProgress && nexus.value.req.Scsi?
      modifies `stop, `trace, `watch, `xfers, `offset, `curSg, `blkno, `status, `caller, `wire, `nbytes, `paddr, `job,
        `state, `moved, `read, `blksize, `reply, `inserted, `ready, `invalid, `notices, mem, bounce
      ensures if nexus.Some? then Outcome() else Quiet()
      ensures state != Ident && (nexus.None? ==> ready && !Crashed())
      ensures nexus.Some? && status == Trapped ==> trace != old(trace)
      ensures old(trace) <= trace
    {
      hide Books, Shape, Sizing, Outcome, LastSize;
      state := Idle;
      if !ready {
        ready := true;
        notices := notices + [CardReady];
      }
      if nexus.Some? {
        IoCmds();
      }
    }

    /** The card cannot be used, or has gone; a request that has waited for it fails. */
    method IdentBroken(present: bool, again: bool)
      requires Shape() && Books() && Sizing() && state == Ident && watch == Free && xfers == []
      requires nexus.Some? ==> status == InProgress && nexus.value.req.Scsi?
      modifies `state, `inserted, `ready, `invalid, `notices, `status
      ensures if nexus.Some? then Outcome() else Quiet()
      ensures state == Idle && (nexus.Some? ==> status == Failure)
      ensures present ==> invalid && ready == old(ready) && inserted == old(inserted)
      ensures !present && !again && old(inserted) ==> !ready
    {
      hide Books, Shape, Outcome, Fulfilled, LastSize;
      state := Idle;
      if present {
        invalid := true;
      } else {
        MediaCheck(again);
      }
      if nexus.Some? {
        status := Failure;
        AtOnce();
      }
    }

    /** mmc_card_ident takes one more step, and the run one more answer. */
    method Identify(io: MmcIdent.Io) returns (ok: bool)
      requires Shape() && IdentOk() && state == Ident && Sizing() && (nexus.Some? ==> status == InProgress)
      modifies `ident, `run
      ensures Sizing()
      ensures Shape() && run == Identification(old(run).begun, old(run).ios + [io])
      ensures MmcIdent.Outcome(ident, ok) == MmcIdent.Next(board.host, old(ident), io) == Result(board.host, run)
    {
      hide MmcIdent.Next, MmcIdent.Run, LastSize, CardSize;
      MmcIdent.RunSnoc(board.host, run.begun, run.ios, io);
      var o := MmcIdent.Next(board.host, ident, io);
      ident, ok := o.s, o.ok;
      run := Identification(run.begun, run.ios + [io]);
    }

    /** mmc_ident_irq */
    method IdentIrq(w: World)
      requires Valid() && state == Ident
      modifies `stop, `trace, `watch, `xfers, `offset, `curSg, `blkno, `status, `caller, `wire, `nbytes, `paddr, `job,
        `state, `moved, `read, `blksize, `reply, `ident, `run, `inserted, `ready, `invalid, `notices, mem, bounce
      ensures IdentOk() && if nexus.Some? then Outcome() else Quiet()
      ensures run == Identification(old(run).begun, old(run).ios + [w.io])
      ensures state == Ident <==> MmcIdentRuns.Live(Result(board.host, run))
      ensures state == Ident ==> status == old(status) && trace == old(trace)
      ensures !Result(board.host, run).ok ==> state == Idle && (nexus.Some? ==> status == Failure)
      ensures nexus.Some? && status == Trapped ==> trace != old(trace)
      ensures old(trace) <= trace
    {
      hide Books, Sizing, Busy, Sending, Fulfilled, LastSize, Result, MmcIdent.Next;
      IdentRests();
      var ok := Identify(w.io);
      NothingOut();
      hide Shape, Outcome, Quiet;
      if ok {
        if ident.stage == MmcIdent.Stage.Idle {
          IdentDone();
        } else {
          StillWaiting();
        }
      } else {
        IdentBroken(w.present, w.again);
      }
    }

    lemma IdentRests()
      requires Valid() && state == Ident
      ensures Shape() && Books() && Sizing() && IdentOk() && watch == Free && xfers == []
      ensures nexus.Some? ==> status == InProgress && nexus.value.req.Scsi?
    {
    }

    lemma StillWaiting()
      requires Shape() && Books() && Sizing() && state == Ident && watch == Free && xfers == []
      requires nexus.Some? ==> status == InProgress && nexus.value.req.Scsi?
      ensures if nexus.Some? then Outcome() else Quiet()
    {
    }

    // ----- Interrupts and pulses

    /** A card interrupt fails whatever is in hand. */
    method CardIrq(w: World)
      requires Valid()
      modifies `inserted, `ready, `invalid, `notices, `status
      ensures IdentOk() && if nexus.Some? then Outcome() else Quiet()
      ensures nexus.Some? ==> status == Failure
    {
      hide Books, Shape, Sizing, Outcome, Quiet, IdentOk, Sending, LastSize;
      MediaCheck(w.present);
      if nexus.Some? {
        BusySized();
        status := Failure;
        Breaks();
      }
    }

    /** A transfer under way by DMA has a block size. */
    lemma BusySized()
      requires Outcome() && status == InProgress
      ensures Shape() && Books() && nexus.Some? && Sending() && blksize == LastSize(posted)
      ensures !board.pio && xfers != [] ==> 0 < blksize
    {
    }

    /** So a request in progress can fail at any time. */
    lemma Breaks()
      requires Shape() && Books() && nexus.Some? && Sending() && blksize == LastSize(posted)
      requires !board.pio && xfers != [] ==> 0 < blksize
      requires status == Failure
      ensures Outcome()
    {
      hide Books, Shape, Sending, LastSize, Busy;
    }

    lemma TransferBusy()
      requires Valid() && state == Transfer
      ensures Shape() && Books() && Sizing() && Busy() && status == InProgress && nexus.Some? && nexus.value.req.Moves()
    {
    }

    /** The interrupt is dealt with according to the state; the nexus stays the nexus. */
    method Handle(intr: Interrupt, w: World)
      requires Valid() && (intr.ready ==> board.pio)
      modifies `stop, `stopsRetry, `trace, `watch, `xfers, `offset, `curSg, `blkno, `status, `caller, `wire, `nbytes,
        `paddr, `job, `state, `moved, `read, `blksize, `reply, `ident, `run, `inserted, `ready, `invalid, `notices,
        mem, bounce
      ensures IdentOk() && if nexus.Some? then Outcome() else Quiet()
      ensures intr.card && nexus.Some? ==> status == Failure
      ensures !intr.card && intr.error && old(state) == Transfer && old(stop) != Issued ==> status == Failure
      ensures nexus.Some? && status == Trapped ==> !intr.card && old(state) == Ident && trace != old(trace)
      ensures old(state) == Transfer && old(stop) == Pending ==>
        && nexus.Some?
        && if !intr.card && StopDue(intr, w.dmaDone) then StopOrFail()
           else trace == old(trace) && if intr.card || Broken(intr, w.dmaDone) then status == Failure
                                       else status == InProgress && stop == Pending
      ensures run == if intr.card || old(state) != Ident then old(run)
                     else Identification(old(run).begun,
                                         old(run).ios + [w.io.(command := intr.command, error := intr.error)])
      ensures old(trace) <= trace
    {
      hide Books, Shape, Outcome, Quiet, IdentOk, Sizing, Busy, Ran, StopDue, Broken, StopOrFail, PioEnds;
      if state == Transfer {
        TransferBusy();
      }
      if intr.card {
        CardIrq(w);
      } else {
        match state {
          case Ident => IdentIrq(w.(io := w.io.(command := intr.command, error := intr.error)));
          case Transfer => TransferIrq(intr, w.dmaDone);
          case Idle => NothingInHand();
        }
      }
    }

    lemma NothingInHand()
      requires Valid() && state == Idle
      ensures IdentOk() && nexus.None? && Quiet()
    {
    }

    /** mmc_data_irq for the nexus. */
    method TransferIrq(intr: Interrupt, done: bool)
      requires Valid() && state == Transfer && (intr.ready ==> board.pio)
      modifies `stop, `stopsRetry, `trace, `watch, `xfers, `offset, `blkno, `status, `caller, `wire, `moved, `curSg,
        mem
      ensures IdentOk() && nexus.Some? && Outcome() && status != Trapped
      ensures intr.error && old(stop) != Issued ==> status == Failure
      ensures old(stop) == Pending ==>
        if StopDue(intr, done) then StopOrFail()
        else trace == old(trace) && if Broken(intr, done) then status == Failure
                                    else status == InProgress && stop == Pending
      ensures old(trace) <= trace
    {
      hide Books, Shape, Busy, Fulfilled, LastSize, Sending, TrapOk;
      TransferBusy();
      DataIrq(intr, done);
    }

    /** A request that is no longer in progress is posted. */
    method Conclude()
      requires IdentOk() && if nexus.Some? then Outcome() else Quiet()
      modifies `nexus, `posted, `trace, `watch, `xfers, `state
      ensures Sound()
      ensures if old(nexus).Some? && (status == Complete || status == Failure) then
                && nexus.None? && state == Idle && posted == old(posted) + [old(Answer())]
                && trace == old(trace) + [if status == Complete then Completed else Failed]
              else nexus == old(nexus) && posted == old(posted) && trace == old(trace)
    {
      hide Books, Shape, Sizing, Outcome, LastSize, IdentOk, Quiet;
      if nexus.Some? {
        if status == Complete || status == Failure {
          Post();
          state := Idle;
          Rested();
        }
      }
    }

    /** mmc_process_interrupt */
    method ProcessInterrupt(intr: Interrupt, w: World)
      requires Valid() && (intr.ready ==> board.pio)
      modifies this, mem, bounce
      ensures Sound() && arrived == old(arrived) && queue == old(queue)
      ensures if nexus.Some? then nexus == old(nexus) && posted == old(posted)
              else old(nexus).None? || (|posted| == |old(posted)| + 1 && state == Idle)
      ensures nexus.None? && old(nexus).Some? ==> posted[|old(posted)|].ccb == old(nexus).value
      ensures intr.card ==> nexus.None?
      ensures old(state) == Transfer && old(stop) == Pending ==>
        if !intr.card && StopDue(intr, w.dmaDone) then
          || (nexus == old(nexus) && stop == Issued && trace == old(trace) + [Stop])
          || (nexus.None? && trace == old(trace) + [Failed])
        else if intr.card || Broken(intr, w.dmaDone) then nexus.None? && trace == old(trace) + [Failed]
        else nexus == old(nexus) && stop == Pending && trace == old(trace)
      ensures run == if intr.card || old(state) != Ident then old(run)
                     else Identification(old(run).begun,
                                         old(run).ios + [w.io.(command := intr.command, error := intr.error)])
      ensures old(trace) <= trace && old(posted) <= posted
    {
      hide Shape, Books, Sizing, Outcome, LastSize, StopDue, Broken, PioEnds, IdentOk, Quiet;
      Handle(intr, w);
      Conclude();
    }

    lemma Rested()
      requires Shape() && Books() && Sizing() && nexus.None? && watch == Free && xfers == [] && state == Idle
      ensures Valid()
    {
    }

    /** A request is queued. */
    method Enqueue(ccb: Ccb)
      requires Valid() && ccb.req.Sane(mem.Length)
      modifies `queue, `arrived
      ensures Valid() && arrived == old(arrived) + [ccb] && queue == old(queue) + [ccb]
    {
      hide Watched, Sends, XfersOf, Ccbs, AllAnswered, SizesUsed, LastSize, Request.Sane, Busy, Fulfilled;
      hide Shape, Sizing, Sending, TrapOk, Waiting, Rest, IdentOk;
      Assoc(Ccbs(posted) + Held(nexus), queue, [ccb]);
      queue, arrived := queue + [ccb], arrived + [ccb];
    }

    /** A new identification takes its first step. */
    method Restart(io: MmcIdent.Io) returns (ok: bool)
      requires Shape() && Sizing() && nexus.None?
      modifies `ident, `run
      ensures Shape() && Sizing() && MmcIdentRuns.Live(Result(board.host, run))
    {
      hide MmcIdent.Next, LastSize, CardSize;
      var begun := ident.(stage := MmcIdent.Start, sent := [], clocks := []);
      MmcIdentRuns.RunKeepsCleared(board.host, run.begun, run.ios);
      MmcIdentRuns.StartClears(board.host, begun, io);
      var o := MmcIdent.Next(board.host, begun, io);
      MmcIdent.RunSnoc(board.host, begun, [], io);
      Started(begun, io);
      assert [] + [io] == [io];
      ident, ok := o.s, o.ok;
      run := if ok then Identification(begun, [io]) else Identification(o.s, []);
    }

    /**
     A card has been inserted and the control thread begins its identification, while no request is
     in hand. If that fails at once, the state stays what it was.
     */
    method BeginIdent(answer: MmcIdent.Io)
      requires Valid() && nexus.None?
      modifies `state, `ident, `run, `inserted
      ensures Valid() && inserted && (old(state) == Ident ==> state == Ident)
    {
      hide Books, Shape, Sizing, Result;
      inserted := true;
      var ok := Restart(answer.(command := false, error := false, timeout := false));
      if ok {
        state := Ident;
      }
    }

    /** The card has been removed: the control thread gives up its identification, while no request is in hand. */
    method CardGone()
      requires Valid() && nexus.None?
      modifies `state, `ready, `inserted
      ensures Valid() && state == Idle && !ready && !inserted
    {
      hide Books, Shape, Sizing;
      ready, inserted, state := false, false, Idle;
    }

    lemma Started(s: MmcIdent.State, io: MmcIdent.Io)
      requires s.stage == MmcIdent.Start
      ensures MmcIdent.Next(board.host, s, io).s.stage != MmcIdent.Stage.Idle
    {
    }

    /** The DMA engine stores what a read brings in. */
    method DeviceStores(data: seq<Byte>)
      requires Valid() && state == Transfer && read && !board.pio && |data| <= BOUNCE
      modifies bounce
      ensures Valid() && bounce[..|data|] == data
    {
      hide Books, Fulfilled, Assigned, DmaAt, StopOk, Sizing, Result;
      forall i | 0 <= i < |data| {
        bounce[i] := data[i];
      }
    }

    method Interrupted()
      requires Valid()
      modifies this, mem, bounce
      ensures Sound() && arrived == old(arrived)
      ensures old(trace) <= trace && old(posted) <= posted
    {
      hide Valid, Sound;
      var intr: Interrupt, w: World := *, *;
      if intr.ready && !board.pio {
        intr := intr.(ready := false);
      }
      ProcessInterrupt(intr, w);
    }

    /** The timer pulse. */
    method Polled(present: bool)
      requires Valid()
      modifies `inserted, `ready, `invalid, `notices
      ensures Valid()
    {
      hide IdentOk, Quiet, Outcome;
      MediaCheck(present);
    }

    /** What happens outside the driver thread: requests arrive, cards come and go, DMA brings in data. */
    method Elsewhere()
      requires Valid()
      modifies `queue, `arrived, `state, `ident, `run, `inserted, `ready, bounce
      ensures Valid() && old(arrived) <= arrived
    {
      hide Valid, Request.Sane;
      var ccb: Ccb, begin: bool, gone: bool, data: seq<Byte>, io: MmcIdent.Io := *, *, *, *, *;
      if ccb.req.Sane(mem.Length) {
        Enqueue(ccb);
      }
      if gone && nexus.None? {
        CardGone();
      }
      if begin && nexus.None? {
        BeginIdent(io);
      }
      if state == Transfer && read && !board.pio && |data| <= BOUNCE {
        DeviceStores(data);
      }
    }

    /** One pulse of any kind. */
    method Pulse()
      requires Valid()
      modifies this, mem, bounce
      ensures Sound()
      ensures old(trace) <= trace && old(posted) <= posted && old(arrived) <= arrived
    {
      hide Valid, Sound;
      Elsewhere();
      var kind: nat := *;
      if kind == 1 {
        Interrupted();
        return;
      }
      if kind == 0 {
        StartCcb();
      } else if kind == 2 {
        var present: bool := *;
        Polled(present);
        ValidIsSound();
      } else {
        ValidIsSound();
      }
      SoundIsValid();
      if nexus.None? {
        StartCcb();
      }
    }

    lemma ValidIsSound()
      requires Valid()
      ensures Sound()
    {
    }

    lemma SoundIsValid()
      requires Sound()
      ensures !Crashed() ==> Valid()
    {
    }

    /** mmc_pulse_handler, for any number of pulses of any kind in any order, or until the driver stops. */
    method PulseHandler(pulses: nat)
      requires Valid()
      modifies this, mem, bounce
      ensures Sound()
      ensures old(trace) <= trace && old(posted) <= posted && old(arrived) <= arrived
    {
      hide Valid, Sound;
      ValidIsSound();
      var k := 0;
      while k < pulses && !Crashed()
        invariant Sound() && old(trace) <= trace && old(posted) <= posted && old(arrived) <= arrived
      {
        SoundIsValid();
        Pulse();
        k := k + 1;
      }
    }

    /**
     An error, or a card interrupt, while CMD12 is pending fails the request without it, and
     whatever happens after that, CMD12 is never sent for that transfer.
     */
    method ErrorUnstopped(intr: Interrupt, w: World, pulses: nat)
      requires Valid() && state == Transfer && stop == Pending
      requires (intr.card || intr.error) && (intr.ready ==> board.pio)
      modifies this, mem, bounce
      ensures Sound() && old(trace) + [Failed] <= trace
      ensures |old(trace)| + 1 < |trace| ==> trace[|old(trace)| + 1] != Stop && trace[|old(trace)| + 1] != StopDone
    {
      hide Valid, Sound, PioEnds;
      ProcessInterrupt(intr, w);
      SoundIsValid();
      ghost var failed := trace;
      PulseHandler(pulses);
      if |failed| < |trace| {
        assert trace[..|failed|] == failed && failed[|failed| - 1] == Failed;
        InOrder();
        AcceptedAt(trace, |failed|);
        AcceptedAt(trace, |failed| - 1);
      }
    }

    lemma InOrder()
      requires Sound()
      ensures Watched(trace) != Bad
    {
    }
  }
}
