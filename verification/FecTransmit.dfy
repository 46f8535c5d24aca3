/**
 The i.MX35 FEC transmit ring: descriptors shared with the DMA engine.

 Every access of the driver to a descriptor is a separate step, and Engine() stands between
 any two of them: it lets the DMA engine run for an arbitrary while. What the methods ensure
 therefore holds in every interleaving. Valid() ties the arrays to the queue of FecTxQueue,
 whose theorems speak about whole runs.
 */
module FecTransmit {
  import opened Common
  import opened FecRing
  import opened FecTxQueue

  /** The flags the driver uses: R (ready), W (wrap), L (last), TC (append CRC). */
  datatype Status = Status(r: bool, w: bool, l: bool, tc: bool)

  datatype Descriptor = Descriptor(buffer: nat, length: nat, status: Status)

  /** NullStart: the driver has stopped at a null descriptor. */
  datatype Rc = EOK | DownFailed | NotCopied | NullStart

  // ----- The ring as a value

  /** The slots after c hold the ring, then the fragments being written, then free descriptors. */
  ghost predicate SlotOk(d: Descriptor, i: nat, wrap: bool, ring: seq<Entry>, taken: nat, part: seq<Frag>)
  {
    if i < |ring| then
      && d.buffer == ring[i].frag.buffer && d.length == ring[i].frag.length
      && d.status == Status(taken <= i, wrap, ring[i].frag.last, true)
    else if i < |ring| + |part| then
      var f := part[i - |ring|];
      && d.buffer == f.buffer && d.length == f.length
      && d.status == Status(|ring| < i, wrap, f.last, |ring| < i)
    else
      d.status == Status(false, wrap, false, false)
  }

  ghost predicate DescOk(n: nat, bd: seq<Descriptor>, c: nat, e: nat, ring: seq<Entry>, taken: nat, part: seq<Frag>)
  {
    && |bd| == n && c < n && taken <= |ring| && |ring| + |part| < n
    && e == Slot(n, c, taken)
    && forall s :: 0 <= s < n ==> SlotOk(bd[s], Off(n, c, s), s == n - 1, ring, taken, part)
  }

  ghost predicate PktqOk(n: nat, pktq: seq<Option<Job>>, c: nat, ring: seq<Entry>)
  {
    && |pktq| == n && c < n && |ring| < n
    && forall s :: 0 <= s < n ==> pktq[s] == if Off(n, c, s) < |ring| then ring[Off(n, c, s)].job else None
  }

  /** How many slots hold a packet. */
  function Queued(pktq: seq<Option<Job>>): nat
  {
    if pktq == [] then 0 else (if pktq[0].Some? then 1 else 0) + Queued(pktq[1..])
  }

  lemma {:induction false} QueuedUpdate(pktq: seq<Option<Job>>, s: nat, x: Option<Job>)
    requires s < |pktq|
    ensures Queued(pktq[s := x]) == Queued(pktq) - (if pktq[s].Some? then 1 else 0) + (if x.Some? then 1 else 0)
  {
    if s == 0 {
      assert pktq[s := x][1..] == pktq[1..];
    } else {
      assert pktq[s := x][1..] == pktq[1..][s - 1 := x];
      QueuedUpdate(pktq[1..], s - 1, x);
    }
  }

  lemma {:induction false} NoneQueued(pktq: seq<Option<Job>>)
    requires forall s :: 0 <= s < |pktq| ==> pktq[s] == None
    ensures Queued(pktq) == 0
  {
    if pktq != [] {
      NoneQueued(pktq[1..]);
    }
  }

  // ----- What single writes do to the ring

  /** The engine only ever finds R set on an untransmitted descriptor of an accepted frame. */
  lemma EngineTakes(n: nat, bd: seq<Descriptor>, c: nat, e: nat, tx: Tx, part: seq<Frag>)
    requires DescOk(n, bd, c, e, tx.ring, tx.taken, part) && bd[e].status.r
    ensures Enabled(n, tx, Take)
    ensures Frag(bd[e].buffer, bd[e].length, bd[e].status.l) == tx.ring[tx.taken].frag && bd[e].status.tc
    ensures DescOk(n, bd[e := bd[e].(status := bd[e].status.(r := false))], c,
                   if bd[e].status.w then 0 else e + 1, tx.ring, tx.taken + 1, part)
  {
    assert SlotOk(bd[e], Off(n, c, e), e == n - 1, tx.ring, tx.taken, part);
  }

  /** Buffer and length of the first free descriptor may be written at any time. */
  lemma FreeWrite(n: nat, bd: seq<Descriptor>, c: nat, e: nat, tx: Tx, part: seq<Frag>, d: Descriptor)
    requires DescOk(n, bd, c, e, tx.ring, tx.taken, part)
    requires var s := Slot(n, c, |tx.ring| + |part|); d.status == bd[s].status
    ensures DescOk(n, bd[Slot(n, c, |tx.ring| + |part|) := d], c, e, tx.ring, tx.taken, part)
  {
  }

  /** The first free descriptor joins the fragments being written. */
  lemma PartGrows(n: nat, bd: seq<Descriptor>, c: nat, e: nat, tx: Tx, part: seq<Frag>, d: Descriptor)
    requires DescOk(n, bd, c, e, tx.ring, tx.taken, part) && |tx.ring| + |part| + 1 < n
    requires var s := Slot(n, c, |tx.ring| + |part|);
      d.status == if part == [] then bd[s].status else bd[s].status.(r := true, tc := true)
    ensures DescOk(n, bd[Slot(n, c, |tx.ring| + |part|) := d], c, e, tx.ring, tx.taken,
                   part + [Frag(d.buffer, d.length, false)])
  {
  }

  /** The last of several fragments is flagged. */
  lemma PartCloses(n: nat, bd: seq<Descriptor>, c: nat, e: nat, tx: Tx, part: seq<Frag>, d: Descriptor)
    requires DescOk(n, bd, c, e, tx.ring, tx.taken, part) && 1 < |part|
    requires var s := Slot(n, c, |tx.ring| + |part| - 1); d == bd[s].(status := bd[s].status.(l := true))
    ensures DescOk(n, bd[Slot(n, c, |tx.ring| + |part| - 1) := d], c, e, tx.ring, tx.taken,
                   part[|part| - 1 := part[|part| - 1].(last := true)])
  {
  }

  /** Making the first fragment ready hands the whole frame to the engine. */
  lemma PartPublished(n: nat, bd: seq<Descriptor>, c: nat, e: nat, tx: Tx, part: seq<Frag>, d: Descriptor, job: Job)
    requires DescOk(n, bd, c, e, tx.ring, tx.taken, part) && Enabled(n, tx, Enqueue(job))
    requires part != [] && Frame(job.Iovs()) == if |part| == 1 then [part[0].(last := true)] else part
    requires var s := Slot(n, c, |tx.ring|);
      d == bd[s].(status := bd[s].status.(r := true, tc := true, l := bd[s].status.l || |part| == 1))
    ensures DescOk(n, bd[Slot(n, c, |tx.ring|) := d], c, e, tx.ring + Entries(job), tx.taken, [])
  {
    var t := Step(n, tx, Enqueue(job));
    var first := Slot(n, c, |tx.ring|);
    var bd' := bd[first := d];
    var frame := Frame(job.Iovs());
    assert t.ring == tx.ring + Entries(job) && t.taken == tx.taken;
    forall s | 0 <= s < n
      ensures SlotOk(bd'[s], Off(n, c, s), s == n - 1, t.ring, t.taken, [])
    {
      var i := Off(n, c, s);
      assert SlotOk(bd[s], i, s == n - 1, tx.ring, tx.taken, part);
      if |tx.ring| <= i < |tx.ring| + |part| {
        assert t.ring[i].frag == frame[i - |tx.ring|];
        assert s == first <==> i == |tx.ring|;
      }
    }
  }

  /** A transmitted descriptor is cleared, keeping W, and leaves the ring. */
  lemma SlotReclaimed(n: nat, bd: seq<Descriptor>, c: nat, e: nat, tx: Tx, d: Descriptor)
    requires DescOk(n, bd, c, e, tx.ring, tx.taken, []) && Enabled(n, tx, Reap)
    requires d == bd[c].(status := Status(false, c == n - 1, false, false))
    ensures DescOk(n, bd[c := d], (c + 1) % n, e, tx.ring[1..], tx.taken - 1, [])
  {
    var t, c' := Step(n, tx, Reap), (c + 1) % n;
    OffNext(n, c, e);
    assert t.ring == tx.ring[1..] && t.taken == tx.taken - 1;
    forall s | 0 <= s < n
      ensures SlotOk(bd[c := d][s], Off(n, c', s), s == n - 1, t.ring, t.taken, [])
    {
      OffNext(n, c, s);
      assert SlotOk(bd[s], Off(n, c, s), s == n - 1, tx.ring, tx.taken, []);
    }
  }

  lemma PacketStored(n: nat, pktq: seq<Option<Job>>, c: nat, tx: Tx, job: Job)
    requires PktqOk(n, pktq, c, tx.ring) && Enabled(n, tx, Enqueue(job))
    ensures PktqOk(n, pktq[Slot(n, c, |tx.ring|) := Some(job)], c, Step(n, tx, Enqueue(job)).ring)
    ensures pktq[Slot(n, c, |tx.ring|)] == None
  {
  }

  lemma PacketRemoved(n: nat, pktq: seq<Option<Job>>, c: nat, tx: Tx)
    requires PktqOk(n, pktq, c, tx.ring) && Enabled(n, tx, Reap)
    ensures PktqOk(n, pktq[c := None], (c + 1) % n, tx.ring[1..])
    ensures pktq[c] == tx.ring[0].job
  {
    forall s | 0 <= s < n
      ensures (c + 1) % n < n
      ensures Off(n, (c + 1) % n, s) == if s == c then n - 1 else Off(n, c, s) - 1
    {
      OffNext(n, c, s);
    }
    assert pktq[c] == tx.ring[Off(n, c, c)].job;
  }

  lemma NextSlot(n: nat, c: nat, i: nat)
    requires c < n && i + 1 < n
    ensures (Slot(n, c, i) + 1) % n == Slot(n, c, i + 1)
  {
    var s := Slot(n, c, i);
    if s + 1 == n {
      assert (s + 1) % n == 0;
    } else {
      assert (s + 1) % n == s + 1;
    }
  }

  /** Stepping back from the slot after k fragments lands on the last, which is the first only if k is 1. */
  lemma LastSlot(n: nat, c: nat, i: nat, k: nat)
    requires c < n && 0 < k && i + k < n
    ensures var next := Slot(n, c, i + k);
      var last := if next == 0 then n - 1 else next - 1;
      last == Slot(n, c, i + k - 1) && (last == Slot(n, c, i) <==> k == 1)
  {
  }

  // ----- Events by who causes them

  /** The log without the steps of the DMA engine and of the reaper. */
  function Submissions(log: seq<Event>): seq<Event>
  {
    if log == [] then []
    else
      var e := log[|log| - 1];
      Submissions(log[..|log| - 1]) + if e.Take? || e.Reap? then [] else [e]
  }

  lemma SubmissionsSnoc(log: seq<Event>, e: Event)
    ensures Submissions(log + [e]) == Submissions(log) + if e.Take? || e.Reap? then [] else [e]
  {
    assert (log + [e])[..|log + [e]| - 1] == log;
  }

  lemma ReapEffect(n: nat, tx: Tx)
    requires Enabled(n, tx, Reap)
    ensures var t, job := Step(n, tx, Reap), tx.ring[0].job;
      && t.ring == tx.ring[1..] && t.taken == tx.taken - 1 && t.wire == tx.wire
      && t.returned == tx.returned + (if job.Some? && job.value.Own? then [job.value.pkt] else [])
      && t.freed == tx.freed + (if job.Some? && job.value.Copy? then [job.value] else [])
  {
  }

  /** Nothing but the DMA engine has moved. */
  ghost predicate EngineOnly(t: Tx, t': Tx)
  {
    t.taken <= t'.taken && t' == t.(taken := t'.taken, wire := t'.wire)
  }

  /** The engine clears ready flags and writes nothing else. */
  ghost predicate FlagsCleared(before: seq<Descriptor>, after: seq<Descriptor>)
  {
    && |before| == |after|
    && forall s :: 0 <= s < |before| ==>
         (after[s] == before[s]
          || (before[s].status.r && after[s] == before[s].(status := before[s].status.(r := false))))
  }

  class Ring {
    const n: nat                        // num_tx_descriptors
    const bd: array<Descriptor>         // tx_bd
    const pktq: array<Option<Job>>      // tx_pktq
    var pidx: nat                       // tx_pidx
    var cidx: nat                       // tx_cidx
    var qLen: nat                       // tx_q_len
    var pktsQueued: nat                 // tx_pkts_queued

    var engine: nat                     // where the DMA engine looks next
    ghost var wire: seq<Frag>           // what it has transmitted
    ghost var returned: seq<Packet>     // tx_done calls
    ghost var freed: seq<Job>           // copies released

    ghost var log: seq<Event>
    ghost var tx: Tx
    ghost var part: seq<Frag>           // fragments written but not yet published

    ghost predicate Shape()
      reads this
    {
      16 <= n == bd.Length == pktq.Length
    }

    ghost predicate LogOk()
      reads this
    {
      Legal(n, log) && tx == Replay(n, log) && wire == tx.wire && returned == tx.returned && freed == tx.freed
    }

    ghost predicate DescriptorsOk()
      reads this, bd
    {
      Shape() && DescOk(n, bd[..], cidx, engine, tx.ring, tx.taken, part)
    }

    ghost predicate PacketsOk()
      reads this, pktq
    {
      && Shape() && PktqOk(n, pktq[..], cidx, tx.ring)
      && pktsQueued == Queued(pktq[..]) && pidx == Slot(n, cidx, |tx.ring|)
    }

    /** The state between two calls into the driver. */
    ghost predicate Valid()
      reads this, bd, pktq
    {
      Shape() && LogOk() && DescriptorsOk() && PacketsOk() && part == [] && qLen == |tx.ring|
    }

    lemma Bounds()
      requires DescriptorsOk()
      ensures cidx < n && tx.taken <= |tx.ring| && |tx.ring| + |part| < n && engine < n
    {
    }

    /** The oldest descriptor is ready exactly while the engine has not finished it. */
    lemma HeadReady()
      requires DescriptorsOk() && tx.ring != []
      ensures cidx < n && (bd[cidx].status.r <==> tx.taken == 0)
    {
      assert SlotOk(bd[..][cidx], Off(n, cidx, cidx), cidx == n - 1, tx.ring, tx.taken, part);
    }

    /** The indices meet exactly when the ring is empty. */
    lemma SlotsDiffer()
      requires DescriptorsOk() && pidx == Slot(n, cidx, |tx.ring|)
      ensures pidx == cidx <==> tx.ring == []
    {
    }

    /**
     Between two calls tx_q_len is the distance from tx_cidx to tx_pidx round the ring, at most
     N - 1; every slot outside the queue holds no packet and has status 0, or only W; W is set on
     the last slot and nowhere else; tx_pkts_queued counts the slots that hold a packet.
     */
    lemma RingState(s: nat)
      requires Valid() && s < n
      ensures cidx < n && qLen <= n - 1 && pidx == (if cidx + qLen < n then cidx + qLen else cidx + qLen - n)
      ensures qLen <= Off(n, cidx, s) ==> bd[s].status == Status(false, s == n - 1, false, false) && pktq[s] == None
      ensures bd[s].status.w <==> s == n - 1
      ensures pktsQueued == Queued(pktq[..])
    {
      assert SlotOk(bd[..][s], Off(n, cidx, s), s == n - 1, tx.ring, tx.taken, part);
      assert pktq[..][s] == if Off(n, cidx, s) < |tx.ring| then tx.ring[Off(n, cidx, s)].job else None;
    }

    /** An empty ring holds no packet. */
    lemma EmptyRing()
      requires Valid()
      ensures pidx == cidx <==> tx.ring == []
      ensures tx.ring == [] ==> pktsQueued == 0
    {
      if tx.ring == [] {
        NoneQueued(pktq[..]);
      }
    }

    /**
     At every moment, also in the middle of a call, what the DMA engine has transmitted is whole
     frames of accepted packets followed by the beginning of the next accepted frame.
     */
    lemma TransmitsWholeFrames()
      requires Shape() && LogOk()
      ensures CutsTo(FramesOf(tx.accepted), wire, Cut(wire).0, Cut(wire).1)
    {
      WireCarriesAcceptedFrames(n, log);
    }

    /** mx35_fec_init_list for the transmit side; detect clamps the ring size to at least 16. */
    constructor (size: nat)
      requires 16 <= size
      ensures Valid() && fresh(bd) && fresh(pktq) && n == size && log == []
    {
      n := size;
      bd := new Descriptor[size];
      pktq := new Option<Job>[size](_ => None);
      pidx, cidx, qLen, pktsQueued, engine := 0, 0, 0, 0, 0;
      wire, returned, freed, log, tx, part := [], [], [], [], EMPTY, [];
      new;
      for i := 0 to n
        modifies bd
        invariant forall s :: 0 <= s < i ==> bd[s].status == Status(false, false, false, false)
        invariant forall s :: 0 <= s < n ==> pktq[s] == None
      {
        bd[i] := bd[i].(status := Status(false, false, false, false));
      }
      bd[n - 1] := bd[n - 1].(status := Status(false, true, false, false));
      NoneQueued(pktq[..]);
    }

    /** The DMA engine transmits the descriptor it stands on. */
    method EngineOne()
      requires DescriptorsOk() && LogOk() && bd[engine].status.r
      modifies this`engine, this`wire, this`log, this`tx, bd
      ensures DescriptorsOk() && LogOk() && EngineOnly(old(tx), tx)
      ensures Submissions(log) == Submissions(old(log))
      ensures FlagsCleared(old(bd[..]), bd[..])
      ensures tx.taken == old(tx.taken) + 1 && wire == old(wire) + [tx.ring[old(tx.taken)].frag]
    {
      ghost var before := bd[..];
      EngineTakes(n, before, cidx, engine, tx, part);
      ReplaySnoc(n, log, Take);
      SubmissionsSnoc(log, Take);
      var d := bd[engine];
      wire := wire + [Frag(d.buffer, d.length, d.status.l)];
      bd[engine] := d.(status := d.status.(r := false));
      assert bd[..] == before[engine := bd[engine]];
      engine := if d.status.w then 0 else engine + 1;
      log, tx := log + [Take], Step(n, tx, Take);
    }

    /** The DMA engine transmits any number of ready descriptors, stopping at the first that is not. */
    method Engine()
      requires DescriptorsOk() && LogOk()
      modifies this`engine, this`wire, this`log, this`tx, bd
      ensures DescriptorsOk() && LogOk() && EngineOnly(old(tx), tx)
      ensures Submissions(log) == Submissions(old(log))
      ensures FlagsCleared(old(bd[..]), bd[..])
    {
      var budget: nat := *;
      while 0 < budget && bd[engine].status.r
        invariant DescriptorsOk() && LogOk() && EngineOnly(old(tx), tx)
        invariant Submissions(log) == Submissions(old(log))
        invariant FlagsCleared(old(bd[..]), bd[..])
      {
        EngineOne();
        budget := budget - 1;
      }
    }

    method TxDone(p: Packet)
      modifies this`returned
      ensures returned == old(returned) + [p]
    {
      returned := returned + [p];
    }

    method Free(copy: Job)
      modifies this`freed
      ensures freed == old(freed) + [copy]
    {
      freed := freed + [copy];
    }

    /** Clears the oldest descriptor's status, keeping W on the last slot. */
    method ClearStatus()
      requires DescriptorsOk() && part == [] && Enabled(n, tx, Reap)
      modifies bd
      ensures DescOk(n, bd[..], (cidx + 1) % n, engine, tx.ring[1..], tx.taken - 1, [])
    {
      ghost var before := bd[..];
      var status := Status(false, cidx == n - 1, false, false);
      bd[cidx] := bd[cidx].(status := status);
      assert bd[..] == before[cidx := before[cidx].(status := status)];
      SlotReclaimed(n, before, cidx, engine, tx, bd[cidx]);
    }

    /** Hands back whatever hangs off the oldest descriptor. */
    method Release()
      requires PacketsOk() && Enabled(n, tx, Reap)
      modifies this`returned, this`freed, this`pktsQueued, pktq
      ensures PktqOk(n, pktq[..], (cidx + 1) % n, tx.ring[1..]) && pktsQueued == Queued(pktq[..])
      ensures var job := tx.ring[0].job;
        && returned == old(returned) + (if job.Some? && job.value.Own? then [job.value.pkt] else [])
        && freed == old(freed) + (if job.Some? && job.value.Copy? then [job.value] else [])
    {
      ghost var queue := pktq[..];
      PacketRemoved(n, queue, cidx, tx);
      QueuedUpdate(queue, cidx, None);
      var npkt := pktq[cidx];
      if npkt.Some? {
        if npkt.value.Copy? {
          Free(npkt.value);
        } else {
          TxDone(npkt.value.pkt);
        }
        pktsQueued := pktsQueued - 1;
      }
      pktq[cidx] := None;
      assert pktq[..] == queue[cidx := None];
    }

    /** The part of a reaping round after the descriptor was found done. */
    method Reclaim()
      requires Valid() && 0 < tx.taken
      modifies this, bd, pktq
      ensures Valid() && log == old(log) + [Reap] && tx == Step(n, old(tx), Reap)
    {
      hide DescOk, PktqOk, Legal, Replay, Queued, Step;
      Bounds();
      NextSlot(n, cidx, 0);
      OffNext(n, cidx, pidx);
      ReplaySnoc(n, log, Reap);
      ReapEffect(n, tx);
      ClearStatus();
      Release();
      qLen := qLen - 1;
      cidx := (cidx + 1) % n;
      log, tx := log + [Reap], Step(n, tx, Reap);
    }

    /** One round of mx35_fec_reap_pkts: reclaims the oldest descriptor unless it is still ready. */
    method ReapOne() returns (done: bool)
      requires Valid() && 0 < qLen
      modifies this, bd, pktq
      ensures Valid() && Submissions(log) == Submissions(old(log))
      ensures tx.accepted == old(tx.accepted) && tx.copies == old(tx.copies) && tx.submitted == old(tx.submitted)
      ensures !done ==> tx.ring == old(tx.ring) && tx.taken == 0
      ensures done ==> tx.ring == old(tx.ring)[1..]
    {
      hide DescOk, PktqOk, Legal, Replay, Queued;
      Engine();
      Bounds();
      HeadReady();
      if bd[cidx].status.r {
        return false;
      }
      Engine();
      SubmissionsSnoc(log, Reap);
      Reclaim();
      done := true;
    }

    /**
     mx35_fec_reap_pkts: reclaims finished descriptors, oldest first, at most maxReap of them
     unless that is 0. It stops early only at a descriptor the engine has not finished.
     */
    method ReapPackets(maxReap: nat)
      requires Valid()
      modifies this, bd, pktq
      ensures Valid() && Submissions(log) == Submissions(old(log))
      ensures tx.accepted == old(tx.accepted) && tx.copies == old(tx.copies) && tx.submitted == old(tx.submitted)
      ensures |tx.ring| <= |old(tx.ring)| && tx.ring == old(tx.ring)[|old(tx.ring)| - |tx.ring|..]
      ensures var reaped := |old(tx.ring)| - |tx.ring|;
        && (0 < maxReap ==> reaped <= maxReap)
        && (tx.ring == [] || tx.taken == 0 || (0 < maxReap && reaped == maxReap))
    {
      hide DescOk, PktqOk, Legal, Replay, Queued;
      EmptyRing();
      if pktsQueued == 0 && pidx == cidx {
        return;
      }
      var reaped := 0;
      var more := true;
      while more
        invariant Valid() && Submissions(log) == Submissions(old(log))
        invariant tx.accepted == old(tx.accepted) && tx.copies == old(tx.copies) && tx.submitted == old(tx.submitted)
        invariant reaped + qLen == |old(tx.ring)| && tx.ring == old(tx.ring)[reaped..]
        invariant 0 < maxReap ==> reaped <= maxReap
        invariant more ==> 0 < qLen && (0 < maxReap ==> reaped < maxReap)
        invariant !more ==> tx.ring == [] || tx.taken == 0 || (0 < maxReap && reaped == maxReap)
        decreases qLen, more
      {
        var done := ReapOne();
        if !done {
          break;
        }
        reaped := reaped + 1;
        Bounds();
        SlotsDiffer();
        if maxReap != 0 && reaped == maxReap {
          break;
        }
        more := cidx != pidx;
      }
    }

    /** mx35_fec_download_complete: reaps everything the engine has finished. */
    method DownloadComplete()
      requires Valid()
      modifies this, bd, pktq
      ensures Valid() && Submissions(log) == Submissions(old(log))
      ensures tx.accepted == old(tx.accepted)
      ensures tx.ring == [] || tx.taken == 0
    {
      hide DescOk, PktqOk, Legal, Replay, Queued;
      ReapPackets(0);
    }

    /**
     mx35_fec_defrag: copies a packet of many fragments into one buffer of at least MTU_SIZE
     bytes, unless it is too long or memory is short, and returns the original in either case.
     */
    method Defrag(pkt: Packet, memory: bool, phys: nat) returns (copy: Option<Job>)
      requires LogOk()
      modifies this`returned, this`log, this`tx
      ensures LogOk() && copy.Some? == (memory && |Contents(pkt)| <= 1536)
      ensures copy.Some? ==> copy.value == Copy(pkt, phys, Contents(pkt)) && InHand(tx, copy.value)
      ensures var e := if copy.Some? then Copied(copy.value) else NoCopy(pkt);
        tx == Step(n, old(tx), e) && Submissions(log) == Submissions(old(log)) + [e]
    {
      hide Legal, Replay, Flatten;
      var totalLen := TotalLength(pkt);
      copy := None;
      if totalLen <= MTU_SIZE && memory {
        var buffer := new Byte[if pkt.framelen < MTU_SIZE then MTU_SIZE else pkt.framelen];
        var len := CopyFragments(pkt, buffer);
        copy := Some(Copy(pkt, phys, buffer[..len]));
        BalancedCopies(copy.value);
        CountSnoc(tx.copies, copy.value, copy.value);
      }
      TxDone(pkt);
      ghost var e := if copy.Some? then Copied(copy.value) else NoCopy(pkt);
      ReplaySnoc(n, log, e);
      SubmissionsSnoc(log, e);
      log, tx := log + [e], Step(n, tx, e);
    }

    /** One round of the loop of mx35_fec_send: fills the first free descriptor. */
    method WriteFragment(idx: nat, iov: Iov, first: bool)
      requires DescriptorsOk() && LogOk() && |tx.ring| + |part| + 1 < n
      requires cidx < n && idx == Slot(n, cidx, |tx.ring| + |part|) && (first <==> part == [])
      modifies this`engine, this`wire, this`log, this`tx, this`part, bd
      ensures DescriptorsOk() && LogOk() && EngineOnly(old(tx), tx) && Submissions(log) == Submissions(old(log))
      ensures part == old(part) + [Fragment(iov)]
    {
      hide DescOk, Legal, Replay;
      WriteFree(idx, bd[idx].(buffer := iov.phys));
      WriteFree(idx, bd[idx].(length := |iov.bytes| % LENGTH_MODULUS));
      FreeNotReady(idx);
      if bd[idx].status.r {
        // the source gives up here; after the space check it never gets here
        assert false;
      }
      var d := bd[idx];
      if !first {
        Engine();
        d := d.(status := d.status.(r := true, tc := true));
      }
      PartGrows(n, bd[..], cidx, engine, tx, part, d);
      ghost var before := bd[..];
      bd[idx] := d;
      assert bd[..] == before[idx := d];
      part := part + [Fragment(iov)];
    }

    /** Lets the engine run, then writes buffer or length of the first free descriptor. */
    method WriteFree(idx: nat, d: Descriptor)
      requires DescriptorsOk() && LogOk()
      requires cidx < n && |tx.ring| + |part| < n && idx == Slot(n, cidx, |tx.ring| + |part|)
      requires d.status == bd[idx].status
      modifies this`engine, this`wire, this`log, this`tx, bd
      ensures DescriptorsOk() && LogOk() && EngineOnly(old(tx), tx) && Submissions(log) == Submissions(old(log))
      ensures bd[idx] == d
    {
      hide DescOk, Legal, Replay;
      FreeNotReady(idx);
      Engine();
      assert bd[..][idx] == old(bd[..])[idx];
      FreeWrite(n, bd[..], cidx, engine, tx, part, d);
      ghost var before := bd[..];
      bd[idx] := d;
      assert bd[..] == before[idx := d];
    }

    lemma FreeNotReady(idx: nat)
      requires DescriptorsOk() && cidx < n && |tx.ring| + |part| < n && idx == Slot(n, cidx, |tx.ring| + |part|)
      ensures !bd[idx].status.r
    {
      assert SlotOk(bd[..][idx], Off(n, cidx, idx), idx == n - 1, tx.ring, tx.taken, part);
    }

    /** The loop of mx35_fec_send: all fragments are in descriptors, none of them visible to the engine. */
    method WriteFragments(iovs: seq<Iov>) returns (idx: nat)
      requires Valid() && 0 < |iovs| && |tx.ring| + |iovs| < n
      modifies this`engine, this`wire, this`log, this`tx, this`part, this`qLen, bd
      ensures DescriptorsOk() && LogOk() && EngineOnly(old(tx), tx) && Submissions(log) == Submissions(old(log))
      ensures part == Fragments(iovs) && qLen == |tx.ring| + |part|
      ensures |part| == |iovs| && forall i :: 0 <= i < |iovs| ==>
        part[i].buffer == iovs[i].phys && part[i].length == |iovs[i].bytes| % 0x1_0000 && !part[i].last
      ensures cidx < n && idx == Slot(n, cidx, |tx.ring| + |part|)
    {
      hide DescOk, PktqOk, Legal, Replay, Queued;
      Bounds();
      idx := pidx;
      for i := 0 to |iovs|
        invariant DescriptorsOk() && LogOk() && EngineOnly(old(tx), tx) && Submissions(log) == Submissions(old(log))
        invariant part == Fragments(iovs[..i]) && qLen == |tx.ring| + i
        invariant cidx < n && idx == Slot(n, cidx, |tx.ring| + i)
      {
        WriteFragment(idx, iovs[i], i == 0);
        NextSlot(n, cidx, |tx.ring| + i);
        idx := (idx + 1) % n;
        qLen := qLen + 1;
        assert Fragments(iovs[..i + 1]) == Fragments(iovs[..i]) + [Fragment(iovs[i])];
      }
      assert iovs[..|iovs|] == iovs;
    }

    /** Hangs the packet off the first of its descriptors and advances the producer index. */
    method StorePacket(job: Job, idx: nat)
      requires PacketsOk() && Enabled(n, tx, Enqueue(job))
      requires cidx < n && idx == Slot(n, cidx, |tx.ring| + |job.Iovs()|)
      modifies this`pktsQueued, this`pidx, pktq
      ensures PktqOk(n, pktq[..], cidx, tx.ring + Entries(job)) && pktsQueued == Queued(pktq[..])
      ensures pidx == Slot(n, cidx, |tx.ring + Entries(job)|)
    {
      hide Legal, Replay;
      PacketStored(n, pktq[..], cidx, tx, job);
      QueuedUpdate(pktq[..], pidx, Some(job));
      ghost var before := pktq[..];
      pktq[pidx] := Some(job);
      assert pktq[..] == before[pidx := Some(job)];
      pktsQueued := pktsQueued + 1;
      pidx := idx;
    }

    /** The engine cannot have touched a fragment that is not yet published. */
    lemma PartUntouched(s: nat)
      requires DescriptorsOk() && cidx < n && s < n && |tx.ring| <= Off(n, cidx, s) < |tx.ring| + |part|
      ensures var i := Off(n, cidx, s);
        bd[s].status == Status(|tx.ring| < i, s == n - 1, part[i - |tx.ring|].last, |tx.ring| < i)
    {
      assert SlotOk(bd[..][s], Off(n, cidx, s), s == n - 1, tx.ring, tx.taken, part);
    }

    /** Flags the last of several fragments. */
    method FlagLast(last: nat)
      requires DescriptorsOk() && LogOk() && 1 < |part|
      requires cidx < n && |tx.ring| + |part| < n && last == Slot(n, cidx, |tx.ring| + |part| - 1)
      modifies this`engine, this`wire, this`log, this`tx, this`part, bd
      ensures DescriptorsOk() && LogOk() && EngineOnly(old(tx), tx) && Submissions(log) == Submissions(old(log))
      ensures part == old(part)[|old(part)| - 1 := old(part)[|old(part)| - 1].(last := true)]
    {
      hide DescOk, Legal, Replay;
      var status := bd[last].status;
      PartUntouched(last);
      Engine();
      PartUntouched(last);
      var d := bd[last].(status := status.(l := true));
      PartCloses(n, bd[..], cidx, engine, tx, part, d);
      ghost var before := bd[..];
      bd[last] := d;
      assert bd[..] == before[last := d];
      part := part[|part| - 1 := part[|part| - 1].(last := true)];
    }

    /** Makes the first fragment ready, which hands the frame to the engine. */
    method Publish(first: nat, only: bool, ghost job: Job)
      requires DescriptorsOk() && LogOk() && Enabled(n, tx, Enqueue(job)) && part != []
      requires Frame(job.Iovs()) == if |part| == 1 then [part[0].(last := true)] else part
      requires cidx < n && |tx.ring| < n && first == Slot(n, cidx, |tx.ring|) && (only <==> |part| == 1)
      modifies this`engine, this`wire, this`log, this`tx, this`part, bd
      ensures DescriptorsOk() && LogOk() && part == []
      ensures Submissions(log) == Submissions(old(log)) + [Enqueue(job)]
      ensures EngineOnly(Step(n, old(tx), Enqueue(job)), tx)
    {
      hide DescOk, Legal, Replay, Frame, Entries, Contents, Submissions;
      var status := bd[first].status;
      PartUntouched(first);
      Engine();
      PartUntouched(first);
      status := status.(r := true, tc := true, l := status.l || only);
      var d := bd[first].(status := status);
      PartPublished(n, bd[..], cidx, engine, tx, part, d, job);
      ReplaySnoc(n, log, Enqueue(job));
      SubmissionsSnoc(log, Enqueue(job));
      ghost var before := bd[..];
      bd[first] := d;
      assert bd[..] == before[first := d];
      part, log, tx := [], log + [Enqueue(job)], Step(n, tx, Enqueue(job));
      Engine();
    }

    /** The critical section of mx35_fec_send after the space check. */
    method Transmit(job: Job)
      requires Valid() && Enabled(n, tx, Enqueue(job))
      modifies this, bd, pktq
      ensures Valid() && Submissions(log) == Submissions(old(log)) + [Enqueue(job)]
      ensures EngineOnly(Step(n, old(tx), Enqueue(job)), tx)
    {
      hide DescOk, PktqOk, Legal, Replay, Queued;
      Bounds();
      var iovs := job.Iovs();
      var first := pidx;
      var idx := WriteFragments(iovs);
      StorePacket(job, idx);
      var last := if idx == 0 then n - 1 else idx - 1;
      LastSlot(n, cidx, |tx.ring|, |iovs|);
      if last != first {
        FlagLast(last);
      }
      FragmentsMakeFrame(iovs);
      Publish(first, last == first, job);
    }

    /**
     A packet without fragments is stored at the producer index, and then the driver starts a null
     descriptor.
     */
    method StoreEmpty(job: Job)
      requires PacketsOk() && |tx.ring| < n && cidx < n
      modifies this`pktsQueued, pktq
      ensures pidx < n && pktq[pidx] == Some(job) && pktsQueued == Queued(pktq[..])
    {
      hide PktqOk;
      EmptySlot();
      QueuedUpdate(pktq[..], pidx, Some(job));
      ghost var before := pktq[..];
      pktq[pidx] := Some(job);
      assert pktq[..] == before[pidx := Some(job)];
      pktsQueued := pktsQueued + 1;
    }

    lemma EmptySlot()
      requires PacketsOk() && |tx.ring| < n && cidx < n
      ensures pidx < n && pktq[pidx] == None
    {
      assert pktq[..][pidx] == None;
    }

    /** The part of mx35_fec_send under the mutex. */
    method Submit(job: Job) returns (rc: Rc)
      requires Valid() && Direct(job) && (job.Copy? ==> InHand(tx, job))
      modifies this, bd, pktq
      ensures rc != NotCopied && (rc == NullStart <==> job.Iovs() == [])
      ensures rc == NullStart ==> pidx < pktq.Length && pktq[pidx] == Some(job)
      ensures rc == NullStart ==> Submissions(log) == Submissions(old(log))
      ensures rc != NullStart ==> Valid()
      ensures rc != NullStart ==>
                Submissions(log) == Submissions(old(log)) + [if rc == EOK then Enqueue(job) else Full(job)]
      ensures rc == DownFailed ==> n <= |tx.ring| + |job.Iovs()|
      ensures rc != NullStart ==> |tx.ring| <= |old(tx.ring)| + if rc == EOK then |job.Iovs()| else 0
      ensures rc != NullStart ==>
                var reaped := |old(tx.ring)| + (if rc == EOK then |job.Iovs()| else 0) - |tx.ring|;
                && 0 <= reaped <= 8 && (|old(tx.ring)| < 8 ==> reaped == 0)
                && (rc == DownFailed && 8 <= |old(tx.ring)| && tx.ring != [] ==> tx.taken == 0 || reaped == 8)
      ensures tx.accepted == old(tx.accepted) + if rc == EOK then [job] else []
    {
      hide DescOk, PktqOk, Legal, Replay, Queued;
      if DEFRAG_LIMIT <= qLen {
        ReapPackets(DEFRAG_LIMIT);
      }
      Bounds();
      if n - qLen < |job.Iovs()| + 1 {
        Refuse(job);
        return DownFailed;
      }
      if job.Iovs() == [] {
        StoreEmpty(job);
        return NullStart;
      }
      Transmit(job);
      rc := EOK;
    }

    /** mx35_fec_send. The flags memory and phys are what allocating a copy would answer. */
    method Send(pkt: Packet, memory: bool, phys: nat) returns (rc: Rc)
      requires Valid()
      modifies this, bd, pktq
      ensures rc == NullStart <==> pkt.iovs == []
      ensures rc == NullStart ==> pidx < pktq.Length && pktq[pidx] == Some(Own(pkt))
      ensures rc != NullStart ==> Valid()
      ensures Submissions(log) == Submissions(old(log)) + Outcome(pkt, phys, rc)
      ensures rc == NotCopied <==> 8 < |pkt.iovs| && !(memory && |Contents(pkt)| <= 1536)
      ensures rc == DownFailed ==> n <= |tx.ring| + if 8 < |pkt.iovs| then 1 else |pkt.iovs|
      ensures rc != NullStart ==>
                |tx.ring| <= |old(tx.ring)| + if rc != EOK then 0 else if 8 < |pkt.iovs| then 1 else |pkt.iovs|
      ensures rc == EOK || rc == DownFailed ==>
                var k := if rc != EOK then 0 else if 8 < |pkt.iovs| then 1 else |pkt.iovs|;
                var reaped := |old(tx.ring)| + k - |tx.ring|;
                && 0 <= reaped <= 8 && (|old(tx.ring)| < 8 ==> reaped == 0)
                && (rc == DownFailed && 8 <= |old(tx.ring)| && tx.ring != [] ==> tx.taken == 0 || reaped == 8)
      ensures rc != EOK ==> tx.accepted == old(tx.accepted)
      ensures rc == EOK && |pkt.iovs| <= 8 ==> tx.accepted == old(tx.accepted) + [Own(pkt)]
      ensures rc == EOK && 8 < |pkt.iovs| ==> tx.accepted == old(tx.accepted) + [Copy(pkt, phys, Contents(pkt))]
    {
      hide DescOk, PktqOk, Legal, Replay, Queued, Submissions, Flatten;
      if |pkt.iovs| <= DEFRAG_LIMIT {
        rc := Submit(Own(pkt));
      } else {
        var npkt2 := Defrag(pkt, memory, phys);
        if npkt2 == None {
          return NotCopied;
        }
        rc := Submit(npkt2.value);
      }
    }

    /** No room in the ring: the packet goes back, or the copy is released. */
    method Refuse(job: Job)
      requires Valid() && Enabled(n, tx, Full(job))
      modifies this`returned, this`freed, this`log, this`tx
      ensures Valid() && log == old(log) + [Full(job)] && tx == Step(n, old(tx), Full(job))
      ensures Submissions(log) == Submissions(old(log)) + [Full(job)]
    {
      hide DescOk, PktqOk, Legal, Replay, Queued;
      ReplaySnoc(n, log, Full(job));
      SubmissionsSnoc(log, Full(job));
      if job.Copy? {
        Free(job);
      } else {
        TxDone(job.pkt);
      }
      log, tx := log + [Full(job)], Step(n, tx, Full(job));
    }

    lemma BalancedCopies(c: Job)
      requires LogOk() && c.Copy?
      ensures Count(tx.submitted, c) <= Count(tx.copies, c)
    {
      RunBalancesCopies(n, log, c);
    }
  }

  /** What the ring would transmit for a packet. */
  function JobFor(pkt: Packet, phys: nat): Job
  {
    if DEFRAG_LIMIT < |pkt.iovs| then Copy(pkt, phys, Contents(pkt)) else Own(pkt)
  }

  /** What a call of mx35_fec_send submits, given its return code. */
  function Outcome(pkt: Packet, phys: nat, rc: Rc): seq<Event>
  {
    var job := JobFor(pkt, phys);
    match rc
    case NotCopied => [NoCopy(pkt)]
    case NullStart => []
    case EOK => (if job.Copy? then [Copied(job)] else []) + [Enqueue(job)]
    case DownFailed => (if job.Copy? then [Copied(job)] else []) + [Full(job)]
  }

  /** Flagging the last fragment turns the written fragments into the frame. */
  lemma FragmentsMakeFrame(iovs: seq<Iov>)
    requires iovs != []
    ensures var part := Fragments(iovs);
      Frame(iovs) == part[|part| - 1 := part[|part| - 1].(last := true)]
  {
  }

  /** What one round of the send loop leaves in a descriptor. */
  function Fragment(iov: Iov): Frag
  {
    Frag(iov.phys, |iov.bytes| % LENGTH_MODULUS, false)
  }

  function Fragments(iovs: seq<Iov>): (fs: seq<Frag>)
    ensures |fs| == |iovs|
  {
    seq(|iovs|, i requires 0 <= i < |iovs| => Fragment(iovs[i]))
  }

  lemma ContentsStep(pkt: Packet, i: nat)
    requires i < |pkt.iovs|
    ensures Contents(pkt.(iovs := pkt.iovs[..i + 1])) == Contents(pkt.(iovs := pkt.iovs[..i])) + pkt.iovs[i].bytes
    ensures Contents(pkt.(iovs := pkt.iovs[..i + 1])) <= Contents(pkt)
  {
    var bs := Bytes(pkt.iovs);
    assert Bytes(pkt.iovs[..i + 1]) == bs[..i + 1];
    assert Bytes(pkt.iovs[..i]) == bs[..i];
    FlattenPrefixStep(bs, i);
    FlattenPrefixLength(bs, i + 1);
  }

  /** The measuring loop of mx35_fec_defrag. */
  method TotalLength(pkt: Packet) returns (totalLen: nat)
    ensures totalLen == |Contents(pkt)|
  {
    totalLen := 0;
    assert Bytes(pkt.iovs[..0]) == [];
    for i := 0 to |pkt.iovs|
      invariant totalLen == |Contents(pkt.(iovs := pkt.iovs[..i]))|
    {
      ContentsStep(pkt, i);
      totalLen := totalLen + |pkt.iovs[i].bytes|;
    }
    assert pkt.iovs[..|pkt.iovs|] == pkt.iovs;
  }

  /** The copying loop of mx35_fec_defrag. */
  method CopyFragments(pkt: Packet, dst: array<Byte>) returns (len: nat)
    requires |Contents(pkt)| <= dst.Length
    modifies dst
    ensures len == |Contents(pkt)| && dst[..len] == Contents(pkt)
  {
    len := 0;
    assert Bytes(pkt.iovs[..0]) == [];
    for i := 0 to |pkt.iovs|
      invariant len <= dst.Length && dst[..len] == Contents(pkt.(iovs := pkt.iovs[..i]))
    {
      ContentsStep(pkt, i);
      var bytes := pkt.iovs[i].bytes;
      ghost var before := dst[..len];
      forall k | 0 <= k < |bytes| {
        dst[len + k] := bytes[k];
      }
      assert dst[..len] == before;
      assert dst[len..len + |bytes|] == bytes;
      len := len + |bytes|;
      assert dst[..len] == before + bytes;
    }
    assert pkt.iovs[..|pkt.iovs|] == pkt.iovs;
  }
}
