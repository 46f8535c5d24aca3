/**
 The i.MX35 FEC transmit queue as an unbounded-history FIFO: what the driver's
 descriptor ring stands for, step by step, and what holds over every run.

 The driver (FecTransmit) keeps an event log whose replay is the value described here.
 Three parties take steps: senders (Copied, NoCopy, Full, Enqueue), the reaper (Reap)
 and the DMA engine (Take).
 */
module FecTxQueue {
  import opened Common

  /** One fragment of a packet: its physical address and its bytes. */
  datatype Iov = Iov(phys: nat, bytes: seq<Byte>)

  datatype Packet = Packet(id: nat, framelen: nat, iovs: seq<Iov>)

  /** What the ring transmits: the caller's packet, or a one-buffer copy of it. */
  datatype Job = Own(pkt: Packet) | Copy(of: Packet, phys: nat, bytes: seq<Byte>) {
    function Iovs(): seq<Iov> {
      match this
      case Own(p) => p.iovs
      case Copy(_, phys, bytes) => [Iov(phys, bytes)]
    }
  }

  /** What the DMA engine reads from one descriptor. The length field has 16 bits. */
  datatype Frag = Frag(buffer: nat, length: nat, last: bool)

  const LENGTH_MODULUS := 0x1_0000
  const DEFRAG_LIMIT := 8
  const MTU_SIZE := 1536

  /** The fragments of a frame: the last flag is on the final one only. */
  function Frame(iovs: seq<Iov>): (f: seq<Frag>)
    ensures |f| == |iovs|
  {
    seq(|iovs|, i requires 0 <= i < |iovs| =>
      Frag(iovs[i].phys, |iovs[i].bytes| % LENGTH_MODULUS, i == |iovs| - 1))
  }

  /**
   The descriptors tell the engine the fragments' true lengths exactly if every fragment is shorter
   than 65536 bytes.
   */
  lemma LengthsExact(iovs: seq<Iov>)
    ensures (forall i :: 0 <= i < |iovs| ==> Frame(iovs)[i].length == |iovs[i].bytes|) <==>
            forall i :: 0 <= i < |iovs| ==> |iovs[i].bytes| < 0x1_0000
  {
    forall i | 0 <= i < |iovs|
      ensures Frame(iovs)[i].length == |iovs[i].bytes| <==> |iovs[i].bytes| < 0x1_0000
    {
    }
  }

  /** A fragment of 65536 bytes is sent as one of none. */
  lemma LengthLost(iov: Iov)
    requires |iov.bytes| == 0x1_0000
    ensures Frame([iov]) == [Frag(iov.phys, 0, true)]
  {
  }

  /** The bytes of a packet's fragments, end to end. */
  function Contents(pkt: Packet): seq<Byte>
  {
    Flatten(Bytes(pkt.iovs))
  }

  function Bytes(iovs: seq<Iov>): (bs: seq<seq<Byte>>)
    ensures |bs| == |iovs|
  {
    seq(|iovs|, i requires 0 <= i < |iovs| => iovs[i].bytes)
  }

  function FramesOf(jobs: seq<Job>): (fs: seq<seq<Frag>>)
    ensures |fs| == |jobs|
  {
    seq(|jobs|, i requires 0 <= i < |jobs| => Frame(jobs[i].Iovs()))
  }

  /** One occupied descriptor; the packet hangs off the first descriptor of its frame. */
  datatype Entry = Entry(frag: Frag, job: Option<Job>)

  function Entries(job: Job): (es: seq<Entry>)
    ensures |es| == |job.Iovs()|
  {
    var f := Frame(job.Iovs());
    seq(|f|, i requires 0 <= i < |f| => Entry(f[i], if i == 0 then Some(job) else None))
  }

  function Frags(es: seq<Entry>): (fs: seq<Frag>)
    ensures |fs| == |es|
  {
    seq(|es|, i requires 0 <= i < |es| => es[i].frag)
  }

  /** The packets hanging off a stretch of descriptors, in order. */
  function Jobs(es: seq<Entry>): seq<Job>
  {
    if es == [] then [] else JobOf(es[0]) + Jobs(es[1..])
  }

  function JobOf(e: Entry): seq<Job>
  {
    if e.job.Some? then [e.job.value] else []
  }

  /** How often a job hangs off a stretch of descriptors. */
  function Held(es: seq<Entry>, j: Job): nat
  {
    if es == [] then 0 else (if es[0].job == Some(j) then 1 else 0) + Held(es[1..], j)
  }

  // ----- The queue and its steps

  /**
   ring      occupied descriptors, oldest first
   taken     how many of them the DMA engine has finished
   wire      everything the DMA engine has transmitted
   accepted  jobs put in the ring, oldest first; reaped: jobs whose first descriptor was reclaimed
   offered   packets given to the driver; returned: packets handed back by tx_done
   copies    copies allocated by senders; submitted: those they have put in or dropped; freed: those released
   */
  datatype Tx = Tx(ring: seq<Entry>, taken: nat, wire: seq<Frag>,
                   accepted: seq<Job>, reaped: seq<Job>,
                   offered: seq<Packet>, returned: seq<Packet>,
                   copies: seq<Job>, submitted: seq<Job>, freed: seq<Job>)

  datatype Event =
    | Take
    | Copied(copy: Job)
    | NoCopy(pkt: Packet)
    | Full(job: Job)
    | Enqueue(job: Job)
    | Reap

  const EMPTY := Tx([], 0, [], [], [], [], [], [], [], [])

  /** A sender made this copy and has not submitted it yet. */
  predicate InHand(tx: Tx, c: Job)
  {
    Count(tx.submitted, c) < Count(tx.copies, c)
  }

  /** Packets of more fragments are copied. */
  predicate Direct(j: Job)
  {
    j.Own? ==> |j.Iovs()| <= DEFRAG_LIMIT
  }

  /** One slot of the ring always stays free; a job is refused only when it does not fit. */
  predicate Enabled(n: nat, tx: Tx, e: Event)
  {
    match e
    case Take => tx.taken < |tx.ring|
    case Copied(c) => c.Copy? && c.bytes == Contents(c.of) && |c.bytes| <= MTU_SIZE
    case NoCopy(_) => true
    case Full(j) => n <= |tx.ring| + |j.Iovs()| && Direct(j) && (j.Copy? ==> InHand(tx, j))
    case Enqueue(j) => 0 < |j.Iovs()| && |tx.ring| + |j.Iovs()| < n && Direct(j) && (j.Copy? ==> InHand(tx, j))
    case Reap => 0 < tx.taken && 0 < |tx.ring|
  }

  function Step(n: nat, tx: Tx, e: Event): Tx
    requires Enabled(n, tx, e)
  {
    match e
    case Take => tx.(taken := tx.taken + 1, wire := tx.wire + [tx.ring[tx.taken].frag])
    case Copied(c) => tx.(offered := tx.offered + [c.of], returned := tx.returned + [c.of],
                          copies := tx.copies + [c])
    case NoCopy(p) => tx.(offered := tx.offered + [p], returned := tx.returned + [p])
    case Full(Own(p)) => tx.(offered := tx.offered + [p], returned := tx.returned + [p])
    case Full(c) => tx.(submitted := tx.submitted + [c], freed := tx.freed + [c])
    case Enqueue(j) =>
      var t := tx.(ring := tx.ring + Entries(j), accepted := tx.accepted + [j]);
      if j.Own? then t.(offered := t.offered + [j.pkt]) else t.(submitted := t.submitted + [j])
    case Reap =>
      var t := tx.(ring := tx.ring[1..], taken := tx.taken - 1);
      match tx.ring[0].job
      case None => t
      case Some(Own(p)) => t.(reaped := t.reaped + [Own(p)], returned := t.returned + [p])
      case Some(c) => t.(reaped := t.reaped + [c], freed := t.freed + [c])
  }

  /** Every event of the log was possible when it happened. */
  predicate Legal(n: nat, log: seq<Event>)
    decreases |log|, 0
  {
    log == [] || (Legal(n, log[..|log| - 1]) && Enabled(n, Replay(n, log[..|log| - 1]), log[|log| - 1]))
  }

  function Replay(n: nat, log: seq<Event>): Tx
    requires Legal(n, log)
    decreases |log|, 1
  {
    if log == [] then EMPTY else Step(n, Replay(n, log[..|log| - 1]), log[|log| - 1])
  }

  lemma ReplaySnoc(n: nat, log: seq<Event>, e: Event)
    requires Legal(n, log) && Enabled(n, Replay(n, log), e)
    ensures Legal(n, log + [e]) && Replay(n, log + [e]) == Step(n, Replay(n, log), e)
  {
    assert (log + [e])[..|log + [e]| - 1] == log;
  }

  // ----- What every step keeps

  /** Every offer of p was answered by a return, or p waits in the ring. */
  ghost predicate PacketBalance(tx: Tx, p: Packet)
  {
    Count(tx.offered, p) == Count(tx.returned, p) + Held(tx.ring, Own(p))
  }

  /** Every submitted copy equal to c was made before, and was freed or waits in the ring. */
  ghost predicate CopyBalance(tx: Tx, c: Job)
  {
    Count(tx.freed, c) + Held(tx.ring, c) == Count(tx.submitted, c) <= Count(tx.copies, c)
  }

  /**
   * The wire followed by the untransmitted ring is the accepted frames; reaped jobs then ring jobs
   * are the accepted jobs.
   */
  ghost predicate InOrder(n: nat, tx: Tx)
  {
    && tx.taken <= |tx.ring| < n
    && tx.wire + Frags(tx.ring[tx.taken..]) == Flatten(FramesOf(tx.accepted))
    && tx.accepted == tx.reaped + Jobs(tx.ring)
  }

  lemma {:induction false} JobsAppend(a: seq<Entry>, b: seq<Entry>)
    ensures Jobs(a + b) == Jobs(a) + Jobs(b)
  {
    if a == [] {
      assert a + b == b;
    } else {
      assert (a + b)[0] == a[0] && (a + b)[1..] == a[1..] + b;
      JobsAppend(a[1..], b);
      Assoc(JobOf(a[0]), Jobs(a[1..]), Jobs(b));
    }
  }

  lemma {:induction false} NoJobs(es: seq<Entry>)
    requires forall i :: 0 <= i < |es| ==> es[i].job == None
    ensures Jobs(es) == []
  {
    if es != [] {
      NoJobs(es[1..]);
    }
  }

  /** A frame's descriptors carry its packet exactly once. */
  lemma JobsOfEntries(j: Job)
    requires 0 < |j.Iovs()|
    ensures Jobs(Entries(j)) == [j]
  {
    NoJobs(Entries(j)[1..]);
  }

  lemma FramesSnoc(jobs: seq<Job>, j: Job)
    ensures Flatten(FramesOf(jobs + [j])) == Flatten(FramesOf(jobs)) + Frame(j.Iovs())
  {
    assert FramesOf(jobs + [j]) == FramesOf(jobs) + [Frame(j.Iovs())];
    FlattenSnoc(FramesOf(jobs), Frame(j.Iovs()));
  }

  lemma EnqueueKeepsWire(n: nat, tx: Tx, j: Job)
    requires InOrder(n, tx) && Enabled(n, tx, Enqueue(j))
    ensures var t := Step(n, tx, Enqueue(j));
      t.wire + Frags(t.ring[t.taken..]) == Flatten(FramesOf(t.accepted))
  {
    var t := Step(n, tx, Enqueue(j));
    FramesSnoc(tx.accepted, j);
    assert Frags(t.ring[t.taken..]) == Frags(tx.ring[tx.taken..]) + Frame(j.Iovs());
    assert t.wire + Frags(t.ring[t.taken..]) == (tx.wire + Frags(tx.ring[tx.taken..])) + Frame(j.Iovs());
  }

  /** The jobs in the ring after an enqueue. */
  lemma EnqueueJobs(ring: seq<Entry>, j: Job)
    requires 0 < |j.Iovs()|
    ensures Jobs(ring + Entries(j)) == Jobs(ring) + [j]
  {
    JobsAppend(ring, Entries(j));
    JobsOfEntries(j);
  }

  lemma EnqueueKeepsOrder(n: nat, tx: Tx, j: Job)
    requires InOrder(n, tx) && Enabled(n, tx, Enqueue(j))
    ensures InOrder(n, Step(n, tx, Enqueue(j)))
  {
    EnqueueKeepsWire(n, tx, j);
    EnqueueJobs(tx.ring, j);
    Assoc(tx.reaped, Jobs(tx.ring), [j]);
  }

  lemma TakeKeepsOrder(n: nat, tx: Tx)
    requires InOrder(n, tx) && Enabled(n, tx, Take)
    ensures InOrder(n, Step(n, tx, Take))
  {
    var t := Step(n, tx, Take);
    assert Frags(tx.ring[tx.taken..]) == [tx.ring[tx.taken].frag] + Frags(t.ring[t.taken..]);
  }

  lemma ReapKeepsOrder(n: nat, tx: Tx)
    requires InOrder(n, tx) && Enabled(n, tx, Reap)
    ensures InOrder(n, Step(n, tx, Reap))
  {
    var t := Step(n, tx, Reap);
    assert t.ring[t.taken..] == tx.ring[tx.taken..];
    assert t.reaped == tx.reaped + JobOf(tx.ring[0]);
    Assoc(tx.reaped, JobOf(tx.ring[0]), Jobs(t.ring));
  }

  lemma StepKeepsOrder(n: nat, tx: Tx, e: Event)
    requires InOrder(n, tx) && Enabled(n, tx, e)
    ensures InOrder(n, Step(n, tx, e))
  {
    match e
    case Take => TakeKeepsOrder(n, tx);
    case Enqueue(j) => EnqueueKeepsOrder(n, tx, j);
    case Reap => ReapKeepsOrder(n, tx);
    case Copied(c) =>
    case NoCopy(p) =>
    case Full(j) =>
  }

  lemma {:induction false} HeldAppend(a: seq<Entry>, b: seq<Entry>, j: Job)
    ensures Held(a + b, j) == Held(a, j) + Held(b, j)
  {
    if a == [] {
      assert a + b == b;
    } else {
      assert (a + b)[0] == a[0] && (a + b)[1..] == a[1..] + b;
      HeldAppend(a[1..], b, j);
    }
  }

  lemma {:induction false} NoneHeld(es: seq<Entry>, j: Job)
    requires forall i :: 0 <= i < |es| ==> es[i].job == None
    ensures Held(es, j) == 0
  {
    if es != [] {
      NoneHeld(es[1..], j);
    }
  }

  /** A frame's descriptors hold its own job once and no other. */
  lemma HeldInEntries(job: Job, j: Job)
    requires 0 < |job.Iovs()|
    ensures Held(Entries(job), j) == if job == j then 1 else 0
  {
    NoneHeld(Entries(job)[1..], j);
  }

  lemma StepKeepsPackets(n: nat, tx: Tx, e: Event, p: Packet)
    requires PacketBalance(tx, p) && Enabled(n, tx, e)
    ensures PacketBalance(Step(n, tx, e), p)
  {
    match e
    case Take =>
    case Copied(c) =>
      CountSnoc(tx.offered, c.of, p);
      CountSnoc(tx.returned, c.of, p);
    case NoCopy(q) =>
      CountSnoc(tx.offered, q, p);
      CountSnoc(tx.returned, q, p);
    case Full(j) =>
      if j.Own? {
        CountSnoc(tx.offered, j.pkt, p);
        CountSnoc(tx.returned, j.pkt, p);
      }
    case Enqueue(j) =>
      HeldAppend(tx.ring, Entries(j), Own(p));
      HeldInEntries(j, Own(p));
      if j.Own? {
        CountSnoc(tx.offered, j.pkt, p);
      }
    case Reap =>
      if tx.ring[0].job.Some? && tx.ring[0].job.value.Own? {
        CountSnoc(tx.returned, tx.ring[0].job.value.pkt, p);
      }
  }

  /** An accepted copy waits in the ring, another job does not matter. */
  lemma EnqueueKeepsCopies(n: nat, tx: Tx, j: Job, c: Job)
    requires CopyBalance(tx, c) && Enabled(n, tx, Enqueue(j)) && c.Copy?
    ensures CopyBalance(Step(n, tx, Enqueue(j)), c)
  {
    hide Entries, Held;
    HeldAppend(tx.ring, Entries(j), c);
    HeldInEntries(j, c);
    CountSnoc(tx.submitted, j, c);
  }

  lemma ReapKeepsCopies(n: nat, tx: Tx, c: Job)
    requires CopyBalance(tx, c) && Enabled(n, tx, Reap) && c.Copy?
    ensures CopyBalance(Step(n, tx, Reap), c)
  {
    hide Count;
    if tx.ring[0].job.Some? {
      CountSnoc(tx.freed, tx.ring[0].job.value, c);
    }
  }

  lemma StepKeepsCopies(n: nat, tx: Tx, e: Event, c: Job)
    requires CopyBalance(tx, c) && Enabled(n, tx, e) && c.Copy?
    ensures CopyBalance(Step(n, tx, e), c)
  {
    hide Held, Entries;
    match e
    case Take =>
    case Copied(d) => CountSnoc(tx.copies, d, c);
    case NoCopy(q) =>
    case Full(j) =>
      CountSnoc(tx.freed, j, c);
      CountSnoc(tx.submitted, j, c);
    case Enqueue(j) => EnqueueKeepsCopies(n, tx, j, c);
    case Reap => ReapKeepsCopies(n, tx, c);
  }

  /** At every point of every run the ring holds what was accepted and not yet transmitted or reaped. */
  lemma {:induction false} RunInOrder(n: nat, log: seq<Event>)
    requires 0 < n && Legal(n, log)
    ensures InOrder(n, Replay(n, log))
  {
    if log == [] {
      assert FramesOf([]) == [];
    } else {
      RunInOrder(n, log[..|log| - 1]);
      StepKeepsOrder(n, Replay(n, log[..|log| - 1]), log[|log| - 1]);
    }
  }

  /** At every point of every run each packet is accounted for once. */
  lemma {:induction false} RunBalancesPackets(n: nat, log: seq<Event>, p: Packet)
    requires Legal(n, log)
    ensures PacketBalance(Replay(n, log), p)
  {
    if log != [] {
      RunBalancesPackets(n, log[..|log| - 1], p);
      StepKeepsPackets(n, Replay(n, log[..|log| - 1]), log[|log| - 1], p);
    }
  }

  /** At every point of every run each copy is accounted for once. */
  lemma {:induction false} RunBalancesCopies(n: nat, log: seq<Event>, c: Job)
    requires Legal(n, log) && c.Copy?
    ensures CopyBalance(Replay(n, log), c)
  {
    if log != [] {
      RunBalancesCopies(n, log[..|log| - 1], c);
      StepKeepsCopies(n, Replay(n, log[..|log| - 1]), log[|log| - 1], c);
    }
  }

  // ----- Theorems about runs

  /** Reads a wire as frames, cutting after every last flag; the rest is an unfinished frame. */
  function Cut(wire: seq<Frag>): (r: (seq<seq<Frag>>, seq<Frag>))
  {
    if wire == [] then ([], [])
    else
      var (frames, rest) := Cut(wire[..|wire| - 1]);
      var open := rest + [wire[|wire| - 1]];
      if wire[|wire| - 1].last then (frames + [open], []) else (frames, open)
  }

  /** No fragment but the final one closes a frame. */
  ghost predicate WellFormedFrame(f: seq<Frag>)
  {
    0 < |f| && forall i :: 0 <= i < |f| ==> (f[i].last <==> i == |f| - 1)
  }

  /** The wire is the frames cut so far and the beginning of the next one. */
  ghost predicate CutsTo(frames: seq<seq<Frag>>, wire: seq<Frag>, whole: seq<seq<Frag>>, rest: seq<Frag>)
  {
    && whole <= frames
    && wire == Flatten(whole) + rest
    && (rest != [] ==> |whole| < |frames| && rest < frames[|whole|])
  }

  /** One more fragment of the same stream keeps the cut in step. */
  lemma CutOneMore(frames: seq<seq<Frag>>, w: seq<Frag>, x: Frag, whole: seq<seq<Frag>>, rest: seq<Frag>)
    requires forall i :: 0 <= i < |frames| ==> WellFormedFrame(frames[i])
    requires CutsTo(frames, w, whole, rest) && w + [x] <= Flatten(frames)
    ensures |whole| < |frames| && |rest| < |frames[|whole|]| && x == frames[|whole|][|rest|]
  {
    var k := |whole|;
    FlattenPrefixLength(frames, k);
    assert whole == frames[..k];
    var tail := Flatten(frames[k..]);
    assert Flatten(frames)[|w|] == x;
    assert tail[|rest|] == x;
    assert k < |frames|;
    assert tail == frames[k] + Flatten(frames[k..][1..]);
  }

  /** A fragment that is not the open frame's final one extends it. */
  lemma CutExtends(frames: seq<seq<Frag>>, w: seq<Frag>, x: Frag, whole: seq<seq<Frag>>, rest: seq<Frag>)
    requires CutsTo(frames, w, whole, rest) && |whole| < |frames|
    requires |rest| + 1 < |frames[|whole|]| && x == frames[|whole|][|rest|]
    ensures CutsTo(frames, w + [x], whole, rest + [x])
  {
    hide Flatten;
    Assoc(Flatten(whole), rest, [x]);
    assert rest + [x] == frames[|whole|][..|rest| + 1];
  }

  /** The final one completes it. */
  lemma CutCompletes(frames: seq<seq<Frag>>, w: seq<Frag>, x: Frag, whole: seq<seq<Frag>>, rest: seq<Frag>)
    requires CutsTo(frames, w, whole, rest) && |whole| < |frames|
    requires |rest| + 1 == |frames[|whole|]| && x == frames[|whole|][|rest|]
    ensures CutsTo(frames, w + [x], whole + [rest + [x]], [])
  {
    hide Flatten;
    var f := frames[|whole|];
    Assoc(Flatten(whole), rest, [x]);
    assert rest + [x] == f;
    FlattenSnoc(whole, f);
    assert Flatten(whole + [f]) + [] == Flatten(whole + [f]);
  }

  /** The last flag tells which. */
  lemma CutMoves(frames: seq<seq<Frag>>, w: seq<Frag>, x: Frag, whole: seq<seq<Frag>>, rest: seq<Frag>)
    requires forall i :: 0 <= i < |frames| ==> WellFormedFrame(frames[i])
    requires CutsTo(frames, w, whole, rest) && w + [x] <= Flatten(frames)
    ensures if x.last then CutsTo(frames, w + [x], whole + [rest + [x]], [])
            else CutsTo(frames, w + [x], whole, rest + [x])
  {
    hide Flatten, CutsTo;
    CutOneMore(frames, w, x, whole, rest);
    assert WellFormedFrame(frames[|whole|]);
    if x.last {
      CutCompletes(frames, w, x, whole, rest);
    } else {
      CutExtends(frames, w, x, whole, rest);
    }
  }

  /** Cutting any prefix of well-formed frames gives back those frames, and a prefix of the next. */
  lemma {:induction false} CutFrames(frames: seq<seq<Frag>>, wire: seq<Frag>)
    requires forall i :: 0 <= i < |frames| ==> WellFormedFrame(frames[i])
    requires wire <= Flatten(frames)
    ensures CutsTo(frames, wire, Cut(wire).0, Cut(wire).1)
  {
    if wire == [] {
      CutNothing(frames);
    } else {
      hide Flatten, CutsTo, WellFormedFrame;
      var w, x := wire[..|wire| - 1], wire[|wire| - 1];
      assert wire == w + [x];
      CutFrames(frames, w);
      CutMoves(frames, w, x, Cut(w).0, Cut(w).1);
    }
  }

  lemma CutNothing(frames: seq<seq<Frag>>)
    ensures CutsTo(frames, [], [], [])
  {
  }

  /** Only jobs with a fragment are ever accepted. */
  lemma {:induction false} AcceptedNonEmpty(n: nat, log: seq<Event>)
    requires Legal(n, log)
    ensures forall j :: j in Replay(n, log).accepted ==> 0 < |j.Iovs()|
  {
    if log != [] {
      AcceptedNonEmpty(n, log[..|log| - 1]);
    }
  }

  /**
   In every run the DMA engine transmits whole frames, in the order they were accepted: cut at
   the last flags, the wire is the frames of the first accepted jobs, and whatever follows is
   the beginning of the next accepted frame. A frame not yet accepted never shows.
   */
  lemma WireCarriesAcceptedFrames(n: nat, log: seq<Event>)
    requires 0 < n && Legal(n, log)
    ensures var tx := Replay(n, log);
      CutsTo(FramesOf(tx.accepted), tx.wire, Cut(tx.wire).0, Cut(tx.wire).1)
  {
    var tx := Replay(n, log);
    RunInOrder(n, log);
    AcceptedNonEmpty(n, log);
    var frames := FramesOf(tx.accepted);
    forall i | 0 <= i < |frames|
      ensures WellFormedFrame(frames[i])
    {
      assert frames[i] == Frame(tx.accepted[i].Iovs());
    }
    CutFrames(frames, tx.wire);
  }

  // ----- The wire in terms of the packets

  lemma {:induction false} CountIn<T>(s: seq<T>, x: T)
    requires 0 < Count(s, x)
    ensures x in s
  {
    if s[|s| - 1] != x {
      CountIn(s[..|s| - 1], x);
    }
  }

  /** In every run a copy is the concatenation of its packet's fragments, at most 1536 bytes long. */
  lemma {:induction false} CopiesTrue(n: nat, log: seq<Event>, c: Job)
    requires Legal(n, log) && c in Replay(n, log).copies
    ensures c.Copy? && c.bytes == Contents(c.of) && |c.bytes| <= 1536
  {
    if log != [] {
      hide Contents;
      var init, e := log[..|log| - 1], log[|log| - 1];
      if c in Replay(n, init).copies {
        CopiesTrue(n, init, c);
      } else {
        assert e == Copied(c);
      }
    }
  }

  /** What is accepted is a packet of at most eight fragments or a copy that was made. */
  lemma {:induction false} AcceptedKnown(n: nat, log: seq<Event>, j: Job)
    requires Legal(n, log) && j in Replay(n, log).accepted
    ensures 0 < |j.Iovs()| && (j.Own? ==> |j.pkt.iovs| <= 8)
    ensures j.Copy? ==> j in Replay(n, log).copies
  {
    if log != [] {
      var init, e := log[..|log| - 1], log[|log| - 1];
      if j in Replay(n, init).accepted {
        AcceptedKnown(n, init, j);
      } else if j.Copy? {
        assert e == Enqueue(j);
        CountIn(Replay(n, init).copies, j);
      }
    }
  }

  /**
   In every run, frame k on the wire is accepted packet k. A packet of the caller's goes out as it
   is: one descriptor a fragment, in order, each with that fragment's address and its length modulo
   65536, flagged on the final one alone. A copy goes out as one descriptor with the copy's address
   and the length of all its packet's fragments together.
   */
  lemma WireCarriesPackets(n: nat, log: seq<Event>, k: nat)
    requires 0 < n && Legal(n, log) && k < |Cut(Replay(n, log).wire).0|
    ensures k < |Replay(n, log).accepted|
    ensures var f, j := Cut(Replay(n, log).wire).0[k], Replay(n, log).accepted[k];
      && (j.Own? ==>
            && |f| == |j.pkt.iovs| <= 8
            && (forall i :: 0 <= i < |f| ==>
                  && f[i].buffer == j.pkt.iovs[i].phys && f[i].length == |j.pkt.iovs[i].bytes| % 0x1_0000
                  && (f[i].last <==> i == |f| - 1))
            && (forall i :: 0 <= i < |f| && |j.pkt.iovs[i].bytes| < 0x1_0000 ==>
                  f[i].length == |j.pkt.iovs[i].bytes|))
      && (j.Copy? ==>
            && |f| == 1 && f[0].buffer == j.phys && f[0].last
            && f[0].length == |j.bytes| <= 1536 && j.bytes == Flatten(Bytes(j.of.iovs)))
  {
    hide Legal, Replay, Cut, Frame, Flatten, Bytes;
    var tx := Replay(n, log);
    WireCarriesAcceptedFrames(n, log);
    assert Cut(tx.wire).0[k] == FramesOf(tx.accepted)[k];
    var j := tx.accepted[k];
    AcceptedKnown(n, log, j);
    FrameRead(j.Iovs());
    if j.Copy? {
      CopiesTrue(n, log, j);
      assert j.Iovs() == [Iov(j.phys, j.bytes)];
    }
  }

  lemma FrameRead(iovs: seq<Iov>)
    ensures |Frame(iovs)| == |iovs|
    ensures forall i :: 0 <= i < |iovs| ==>
      Frame(iovs)[i] == Frag(iovs[i].phys, |iovs[i].bytes| % 0x1_0000, i == |iovs| - 1)
  {
  }

  /** Whatever follows the whole frames is the beginning of the next accepted packet's frame. */
  lemma WireEndsInPacket(n: nat, log: seq<Event>)
    requires 0 < n && Legal(n, log) && Cut(Replay(n, log).wire).1 != []
    ensures var tx := Replay(n, log);
      var (whole, rest) := Cut(tx.wire);
      && |whole| < |tx.accepted| && tx.accepted[|whole|].Own?
      && |rest| < |tx.accepted[|whole|].pkt.iovs|
      && forall i :: 0 <= i < |rest| ==>
           var iov := tx.accepted[|whole|].pkt.iovs[i];
           rest[i] == Frag(iov.phys, |iov.bytes| % 0x1_0000, false)
  {
    var tx := Replay(n, log);
    var (whole, rest) := Cut(tx.wire);
    WireCarriesAcceptedFrames(n, log);
    CutOpen(tx.wire);
    var j := tx.accepted[|whole|];
    assert rest < Frame(j.Iovs());
    assert !rest[|rest| - 1].last;
    assert j in tx.accepted;
  }

  /** The rest of a cut holds no last flag. */
  lemma {:induction false} CutOpen(wire: seq<Frag>)
    ensures forall i :: 0 <= i < |Cut(wire).1| ==> !Cut(wire).1[i].last
  {
    if wire != [] {
      CutOpen(wire[..|wire| - 1]);
    }
  }

  /** Jobs leave the ring in the order they entered it. */
  lemma ReapedInOrder(n: nat, log: seq<Event>)
    requires 0 < n && Legal(n, log)
    ensures Replay(n, log).reaped <= Replay(n, log).accepted
  {
    RunInOrder(n, log);
  }

  /** No packet is returned more often than it was offered, and no copy freed more often than made. */
  lemma ReturnedAtMostOnce(n: nat, log: seq<Event>, p: Packet, c: Job)
    requires Legal(n, log) && c.Copy?
    ensures Count(Replay(n, log).returned, p) <= Count(Replay(n, log).offered, p)
    ensures Count(Replay(n, log).freed, c) <= Count(Replay(n, log).copies, c)
  {
    RunBalancesPackets(n, log, p);
    RunBalancesCopies(n, log, c);
  }

  /** Once the ring has drained, every packet offered was returned exactly once and every copy freed once. */
  lemma DrainedRunReturnsAll(n: nat, log: seq<Event>, p: Packet, c: Job)
    requires 0 < n && Legal(n, log) && c.Copy?
    requires Replay(n, log).ring == [] && !InHand(Replay(n, log), c)
    ensures Count(Replay(n, log).returned, p) == Count(Replay(n, log).offered, p)
    ensures Count(Replay(n, log).freed, c) == Count(Replay(n, log).copies, c)
    ensures Replay(n, log).wire == Flatten(FramesOf(Replay(n, log).accepted))
    ensures Replay(n, log).reaped == Replay(n, log).accepted
  {
    RunInOrder(n, log);
    RunBalancesPackets(n, log, p);
    RunBalancesCopies(n, log, c);
  }

  // ----- When a packet goes back before it is sent

  /** The descriptors of all frames, end to end. */
  function EntriesOf(jobs: seq<Job>): (es: seq<Entry>)
  {
    if jobs == [] then [] else EntriesOf(jobs[..|jobs| - 1]) + Entries(jobs[|jobs| - 1])
  }

  lemma EntriesSnoc(jobs: seq<Job>, j: Job)
    ensures EntriesOf(jobs + [j]) == EntriesOf(jobs) + Entries(j)
  {
    assert (jobs + [j])[..|jobs + [j]| - 1] == jobs;
  }

  /** The frames' fragments are what their descriptors hold. */
  lemma FragsAppend(es: seq<Entry>, j: Job)
    ensures Frags(es + Entries(j)) == Frags(es) + Frame(j.Iovs())
  {
  }

  lemma {:induction false} EntriesFrags(jobs: seq<Job>)
    ensures Frags(EntriesOf(jobs)) == Flatten(FramesOf(jobs))
  {
    if jobs == [] {
      assert FramesOf(jobs) == [];
    } else {
      var init, j := jobs[..|jobs| - 1], jobs[|jobs| - 1];
      assert jobs == init + [j];
      hide Frags, Entries, Frame, Flatten;
      EntriesFrags(init);
      EntriesSnoc(init, j);
      FramesSnoc(init, j);
      FragsAppend(EntriesOf(init), j);
    }
  }

  ghost predicate Suffix<T>(all: seq<T>, part: seq<T>)
  {
    |part| <= |all| && part == all[|all| - |part|..]
  }

  /** The ring is what remains of the accepted frames' descriptors. */
  ghost predicate Remains(tx: Tx)
  {
    Suffix(EntriesOf(tx.accepted), tx.ring)
  }

  lemma SuffixAppend<T>(all: seq<T>, part: seq<T>, more: seq<T>)
    requires Suffix(all, part)
    ensures Suffix(all + more, part + more)
  {
    assert all == all[..|all| - |part|] + part;
    assert all + more == all[..|all| - |part|] + (part + more);
  }

  lemma SuffixTail<T>(all: seq<T>, part: seq<T>)
    requires Suffix(all, part) && part != []
    ensures Suffix(all, part[1..])
  {
  }

  lemma StepRemains(n: nat, tx: Tx, e: Event)
    requires Remains(tx) && Enabled(n, tx, e)
    ensures Remains(Step(n, tx, e))
  {
    hide EntriesOf, Suffix;
    if e.Enqueue? {
      EntriesSnoc(tx.accepted, e.job);
      SuffixAppend(EntriesOf(tx.accepted), tx.ring, Entries(e.job));
    } else if e.Reap? {
      SuffixTail(EntriesOf(tx.accepted), tx.ring);
    }
  }

  lemma {:induction false} RunRemains(n: nat, log: seq<Event>)
    requires Legal(n, log)
    ensures Remains(Replay(n, log))
  {
    if log != [] {
      RunRemains(n, log[..|log| - 1]);
      StepRemains(n, Replay(n, log[..|log| - 1]), log[|log| - 1]);
    }
  }

  /** The descriptor at position k begins a frame exactly when a job hangs off it; the jobs before it say which. */
  lemma {:induction false} FrameStart(jobs: seq<Job>, k: nat)
    requires forall i :: 0 <= i < |jobs| ==> 0 < |jobs[i].Iovs()|
    requires k < |EntriesOf(jobs)| && EntriesOf(jobs)[k].job.Some?
    ensures var m := |Jobs(EntriesOf(jobs)[..k])|;
      && m < |jobs| && jobs[m] == EntriesOf(jobs)[k].job.value && k == |EntriesOf(jobs[..m])|
  {
    var init, j := jobs[..|jobs| - 1], jobs[|jobs| - 1];
    var es := EntriesOf(init);
    if k < |es| {
      FrameStart(init, k);
      assert EntriesOf(jobs)[..k] == es[..k];
      assert jobs[..|Jobs(es[..k])|] == init[..|Jobs(es[..k])|];
    } else {
      assert k == |es|;
      assert EntriesOf(jobs)[..k] == es;
      JobsOfAll(init);
    }
  }

  lemma {:induction false} JobsOfAll(jobs: seq<Job>)
    requires forall i :: 0 <= i < |jobs| ==> 0 < |jobs[i].Iovs()|
    ensures Jobs(EntriesOf(jobs)) == jobs
  {
    if jobs != [] {
      JobsOfAll(jobs[..|jobs| - 1]);
      EnqueueJobs(EntriesOf(jobs[..|jobs| - 1]), jobs[|jobs| - 1]);
    }
  }

  /** All fragments of accepted job m have been transmitted. */
  predicate OnWire(tx: Tx, m: nat)
    requires m < |tx.accepted|
  {
    Flatten(FramesOf(tx.accepted[..m + 1])) <= tx.wire
  }

  /** The wire is the first |wire| of the accepted frames' fragments. */
  lemma WireLength(n: nat, tx: Tx)
    requires InOrder(n, tx) && Remains(tx)
    ensures var all := Frags(EntriesOf(tx.accepted));
      && |tx.wire| == |all| - |tx.ring| + tx.taken && tx.wire == all[..|tx.wire|]
      && tx.taken <= |tx.ring|
  {
    EntriesFrags(tx.accepted);
    var all := Flatten(FramesOf(tx.accepted));
    assert |all| == |tx.wire| + |tx.ring| - tx.taken;
  }

  lemma {:induction false} EntriesPrefix(jobs: seq<Job>, m: nat)
    requires m <= |jobs|
    ensures EntriesOf(jobs[..m]) <= EntriesOf(jobs)
  {
    if m < |jobs| {
      EntriesPrefix(jobs[..|jobs| - 1], m);
      assert jobs[..|jobs| - 1][..m] == jobs[..m];
    } else {
      assert jobs[..m] == jobs;
    }
  }

  /**
   In every run, when a packet or copy is handed back because its first descriptor is done, all
   of it has been transmitted exactly if the engine has finished as many descriptors as it has
   fragments.
   */
  lemma ReturnedWhenSent(n: nat, log: seq<Event>)
    requires 0 < n && Legal(n, log)
    requires var tx := Replay(n, log); Enabled(n, tx, Reap) && tx.ring[0].job.Some?
    ensures var tx := Replay(n, log);
      var j, m := tx.ring[0].job.value, |tx.reaped|;
      && m < |tx.accepted| && tx.accepted[m] == j
      && (OnWire(tx, m) <==> |j.Iovs()| <= tx.taken)
  {
    var tx := Replay(n, log);
    RunInOrder(n, log);
    RunRemains(n, log);
    AcceptedNonEmpty(n, log);
    hide Legal, Replay, InOrder, Remains;
    WireLength(n, tx);
    HeadIsNext(n, tx);
    SentWhenFinished(tx, |tx.reaped|);
  }

  lemma SentWhenFinished(tx: Tx, m: nat)
    requires m < |tx.accepted| && tx.taken <= |tx.ring|
    requires |EntriesOf(tx.accepted[..m])| == |EntriesOf(tx.accepted)| - |tx.ring|
    requires var all := Frags(EntriesOf(tx.accepted));
      |tx.wire| == |all| - |tx.ring| + tx.taken && tx.wire == all[..|tx.wire|]
    ensures OnWire(tx, m) <==> |tx.accepted[m].Iovs()| <= tx.taken
  {
    hide EntriesOf, Flatten, FramesOf, Entries;
    var whole := EntriesOf(tx.accepted[..m + 1]);
    assert tx.accepted[..m + 1] == tx.accepted[..m] + [tx.accepted[m]];
    EntriesSnoc(tx.accepted[..m], tx.accepted[m]);
    EntriesPrefix(tx.accepted, m + 1);
    EntriesFrags(tx.accepted[..m + 1]);
    PrefixesCompare(Frags(EntriesOf(tx.accepted)), tx.wire, Frags(whole));
  }

  lemma PrefixesCompare<T>(all: seq<T>, a: seq<T>, b: seq<T>)
    requires a <= all && b <= all
    ensures b <= a <==> |b| <= |a|
  {
  }

  /** The job at the head of the ring is the first accepted one not reaped, and the ring begins with its frame. */
  lemma HeadIsNext(n: nat, tx: Tx)
    requires InOrder(n, tx) && Remains(tx) && forall j :: j in tx.accepted ==> 0 < |j.Iovs()|
    requires tx.ring != [] && tx.ring[0].job.Some?
    ensures var m := |tx.reaped|;
      && m < |tx.accepted| && tx.accepted[m] == tx.ring[0].job.value
      && |EntriesOf(tx.accepted[..m])| == |EntriesOf(tx.accepted)| - |tx.ring|
  {
    var all := EntriesOf(tx.accepted);
    var k := |all| - |tx.ring|;
    assert all == all[..k] + tx.ring;
    JobsAppend(all[..k], tx.ring);
    JobsOfAll(tx.accepted);
    FrameStart(tx.accepted, k);
  }

  /** Whenever the reaper hands job j back, in whatever run, all of it has been transmitted. */
  ghost predicate AlwaysSentFirst(n: nat, j: Job)
  {
    forall log :: Legal(n, log) && Reaps(n, Replay(n, log), j) ==> SentWhole(Replay(n, log))
  }

  predicate Reaps(n: nat, tx: Tx, j: Job)
  {
    Enabled(n, tx, Reap) && tx.ring[0].job == Some(j)
  }

  predicate SentWhole(tx: Tx)
  {
    |tx.reaped| < |tx.accepted| && OnWire(tx, |tx.reaped|)
  }

  /**
   Exactly the packets of one fragment, and so all defragmentation copies, are sure to have been
   transmitted when the reaper hands them back.
   */
  lemma SentFirstIffSingle(n: nat, j: Job)
    requires 0 < |j.Iovs()| < n && Direct(j)
    ensures AlwaysSentFirst(n, j) <==> |j.Iovs()| == 1
    ensures j.Copy? ==> AlwaysSentFirst(n, j)
  {
    forall log | |j.Iovs()| == 1 && Legal(n, log) && Reaps(n, Replay(n, log), j)
      ensures SentWhole(Replay(n, log))
    {
      ReturnedWhenSent(n, log);
    }
    if |j.Iovs()| != 1 {
      var log := HandedBackEarly(n, j);
      ReturnedWhenSent(n, log);
      assert !SentWhole(Replay(n, log));
    }
  }

  /** A packet of several fragments is handed back after the first of them, with the others still to go. */
  lemma HandedBackEarly(n: nat, j: Job) returns (log: seq<Event>)
    requires 1 < |j.Iovs()| < n && Direct(j)
    ensures Legal(n, log) && Reaps(n, Replay(n, log), j) && Replay(n, log).taken == 1
    ensures var t := Step(n, Replay(n, log), Reap);
      t.returned == [j.pkt] && |t.wire| == 1 && |t.ring| == |j.Iovs()| - 1 && t.taken == 0
  {
    var queued := Step(n, EMPTY, Enqueue(j));
    ReplaySnoc(n, [], Enqueue(j));
    assert [] + [Enqueue(j)] == [Enqueue(j)];
    ReplaySnoc(n, [Enqueue(j)], Take);
    log := [Enqueue(j)] + [Take];
    assert queued.ring == Entries(j);
  }

  // ----- All the ways a packet goes back

  /** The packet an event hands back by tx_done. */
  function HandedBack(tx: Tx, e: Event): Option<Packet>
  {
    match e
    case Copied(c) => if c.Copy? then Some(c.of) else None
    case NoCopy(p) => Some(p)
    case Full(j) => if j.Own? then Some(j.pkt) else None
    case Reap => if tx.ring != [] && tx.ring[0].job.Some? then OwnPacket(tx.ring[0].job.value) else None
    case _ => None
  }

  function OwnPacket(j: Job): Option<Packet>
  {
    if j.Own? then Some(j.pkt) else None
  }

  /** The packet handed back was accepted, as the next one to be reaped, and all of it has been transmitted. */
  predicate HandedBackSent(n: nat, tx: Tx, e: Event)
    requires Enabled(n, tx, e) && HandedBack(tx, e).Some?
  {
    && Step(n, tx, e).reaped == tx.reaped + [Own(HandedBack(tx, e).value)]
    && SentWhole(tx) && tx.accepted[|tx.reaped|] == Own(HandedBack(tx, e).value)
  }

  /**
   In every run, a packet handed back has been transmitted exactly if the reaper hands it back and
   the engine has finished as many descriptors as it has fragments. Every other way, a refusal or
   a copy, goes without putting the packet in the ring.
   */
  lemma HandedBackIff(n: nat, log: seq<Event>, e: Event)
    requires 0 < n && Legal(n, log) && Enabled(n, Replay(n, log), e)
    requires HandedBack(Replay(n, log), e).Some?
    ensures var tx := Replay(n, log);
      var p, t := HandedBack(tx, e).value, Step(n, tx, e);
      && t.returned == tx.returned + [p]
      && (HandedBackSent(n, tx, e) <==> e == Reap && |p.iovs| <= tx.taken)
      && (e != Reap ==> t.ring == tx.ring && t.accepted == tx.accepted && t.wire == tx.wire)
  {
    if e == Reap {
      ReturnedWhenSent(n, log);
    }
  }

  /** How often p was handed back without having been put in the ring. */
  function Unaccepted(log: seq<Event>, p: Packet): nat
  {
    if log == [] then 0
    else
      Unaccepted(log[..|log| - 1], p)
      + if log[|log| - 1] != Reap && HandedBack(EMPTY, log[|log| - 1]) == Some(p) then 1 else 0
  }

  /** In every run a packet is handed back once for each time it was reaped, and once for each other answer. */
  lemma {:induction false} ReturnsSplit(n: nat, log: seq<Event>, p: Packet)
    requires Legal(n, log)
    ensures Count(Replay(n, log).returned, p) == Count(Replay(n, log).reaped, Own(p)) + Unaccepted(log, p)
  {
    if log != [] {
      var init, e := log[..|log| - 1], log[|log| - 1];
      ReturnsSplit(n, init, p);
      ReturnsStep(n, Replay(n, init), e, p);
    }
  }

  lemma ReturnsStep(n: nat, tx: Tx, e: Event, p: Packet)
    requires Enabled(n, tx, e)
    ensures var t := Step(n, tx, e);
      && Count(t.returned, p) == Count(tx.returned, p) + (if HandedBack(tx, e) == Some(p) then 1 else 0)
      && Count(t.reaped, Own(p)) == Count(tx.reaped, Own(p))
                                    + (if e == Reap && HandedBack(tx, e) == Some(p) then 1 else 0)
  {
    hide Count;
    if HandedBack(tx, e).Some? {
      CountSnoc(tx.returned, HandedBack(tx, e).value, p);
    }
    if e == Reap && tx.ring[0].job.Some? {
      CountSnoc(tx.reaped, tx.ring[0].job.value, Own(p));
    }
  }

  /** Packets q of one fragment fill the ring. */
  lemma {:induction false} Fill(n: nat, k: nat, q: Packet) returns (log: seq<Event>)
    requires k < n && |q.iovs| == 1
    ensures Legal(n, log) && |Replay(n, log).ring| == k
    ensures Replay(n, log).wire == [] && Replay(n, log).returned == []
  {
    if k == 0 {
      log := [];
    } else {
      var init := Fill(n, k - 1, q);
      ReplaySnoc(n, init, Enqueue(Own(q)));
      log := init + [Enqueue(Own(q))];
    }
  }

  /** Any packet with a fragment can come back with nothing on the wire: refused by a full ring, or not copied. */
  lemma RefusedUnsent(n: nat, p: Packet, q: Packet) returns (log: seq<Event>, e: Event)
    requires 0 < n && p.iovs != [] && |q.iovs| == 1
    ensures Legal(n, log) && Enabled(n, Replay(n, log), e) && HandedBack(Replay(n, log), e) == Some(p)
    ensures Step(n, Replay(n, log), e).wire == [] && Step(n, Replay(n, log), e).returned == [p]
  {
    log := Fill(n, n - 1, q);
    e := if |p.iovs| <= DEFRAG_LIMIT then Full(Own(p)) else NoCopy(p);
  }
}
