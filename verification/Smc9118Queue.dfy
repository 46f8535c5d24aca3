/**
 The SMC9118 driver's transmit queue: a linked list that io-net appends chains of packets to, that
 the sender pops from while the FIFO has room, and that a flush empties. The sender gives the lock
 up around each tx_done, and anything may happen to the queue then.
 */
module Smc9118Queue {
  import opened Common
  import opened Smc9118Encoder

  datatype Packet = Packet(id: nat, framelen: nat, buffers: seq<seq<Iov>>, totIov: nat, control: bool) {
    function Frags(): seq<Iov> {
      Flatten(buffers)
    }

    /** How io-net fills in the counts. */
    predicate Ok() {
      totIov == |Frags()| && framelen == TotalLength(Frags())
    }
  }

  /** How a packet leaves the queue. */
  datatype Exit = Sent(p: Packet) | Flushed(p: Packet)

  function Gone(left: seq<Exit>): seq<Packet>
  {
    if left == [] then [] else Gone(left[..|left| - 1]) + [left[|left| - 1].p]
  }

  /** The words of all packets sent. */
  function Output(mem: Memory, left: seq<Exit>): seq<nat>
  {
    if left == [] then []
    else
      var e := left[|left| - 1];
      Output(mem, left[..|left| - 1]) + if e.Sent? then EncodeFrom(mem, e.p.Frags(), 0, e.p.framelen) else []
  }

  lemma LeftSnoc(mem: Memory, left: seq<Exit>, e: Exit)
    ensures Gone(left + [e]) == Gone(left) + [e.p]
    ensures Output(mem, left + [e])
         == Output(mem, left) + if e.Sent? then EncodeFrom(mem, e.p.Frags(), 0, e.p.framelen) else []
  {
    assert (left + [e])[..|left + [e]| - 1] == left;
  }

  /** The packets that went to the chip. */
  function SentOf(left: seq<Exit>): seq<Packet>
  {
    if left == [] then []
    else SentOf(left[..|left| - 1]) + if left[|left| - 1].Sent? then [left[|left| - 1].p] else []
  }

  /** A frame as the chip reads it: its bytes, and its length with the options that go with it. */
  type Read = (seq<Byte>, LengthCommand)

  /** The bytes and the length of each frame sent. */
  function FramesOf(mem: Memory, left: seq<Exit>): seq<Read>
  {
    if left == [] then []
    else
      var e := left[|left| - 1];
      FramesOf(mem, left[..|left| - 1]) + if e.Sent? then [(FrameBytes(mem, e.p.Frags()), Plain(e.p.framelen))] else []
  }

  predicate Sendable(left: seq<Exit>)
  {
    forall i :: 0 <= i < |left| && left[i].Sent? ==>
      left[i].p.Frags() != [] && Fits(left[i].p.Frags()) && left[i].p.framelen < SIZE_LIMIT
  }

  /** n frames read from the FIFO one after the other, and the words left. */
  function DecodeMany(words: seq<nat>, n: nat): Option<(seq<Read>, seq<nat>)>
  {
    if n == 0 then Some(([], words))
    else
      var before := DecodeMany(words, n - 1);
      if before.None? then None
      else
        var f := Decode(before.value.1, true);
        if f.None? then None
        else Some((before.value.0 + [(f.value.bytes, f.value.b)], f.value.rest))
  }

  lemma {:induction false} DecodeOutput(mem: Memory, left: seq<Exit>, rest: seq<nat>)
    requires Sendable(left)
    ensures DecodeMany(Output(mem, left) + rest, |SentOf(left)|) == Some((FramesOf(mem, left), rest))
  {
    hide Decode, DecodeLength, EncodeFrom, FrameBytes, Fits;
    if left != [] {
      var init, e := left[..|left| - 1], left[|left| - 1];
      var p := e.p;
      if e.Sent? {
        var code := EncodeFrom(mem, p.Frags(), 0, p.framelen);
        Assoc(Output(mem, init), code, rest);
        DecodeOutput(mem, init, code + rest);
        DecodeEncode(mem, p.Frags(), 0, p.framelen, rest);
        LengthRoundTrip(p.framelen);
        assert p.Frags()[0..] == p.Frags();
      } else {
        assert Output(mem, left) == Output(mem, init) && SentOf(left) == SentOf(init);
        assert FramesOf(mem, left) == FramesOf(mem, init);
        DecodeOutput(mem, init, rest);
      }
    } else {
      assert [] + rest == rest;
    }
  }

  class Npkt {
    const packet: Packet
    var next: Npkt?

    constructor (packet: Packet)
      ensures this.packet == packet && next == null
    {
      this.packet := packet;
      next := null;
    }
  }

  function PacketsOf(ns: seq<Npkt>): (s: seq<Packet>)
    ensures |s| == |ns|
  {
    seq(|ns|, i requires 0 <= i < |ns| => ns[i].packet)
  }

  lemma PacketsAppend(a: seq<Npkt>, b: seq<Npkt>)
    ensures PacketsOf(a + b) == PacketsOf(a) + PacketsOf(b)
  {
  }

  lemma PacketsHead(ns: seq<Npkt>, rest: seq<Npkt>)
    requires ns != [] && rest == ns[1..]
    ensures PacketsOf(ns) == [ns[0].packet] + PacketsOf(rest)
    ensures AllOk(PacketsOf(ns)) ==> AllOk(PacketsOf(rest))
  {
    assert forall i :: 0 <= i < |rest| ==> PacketsOf(rest)[i] == PacketsOf(ns)[i + 1];
  }

  /** Node i, or null past the end. */
  function At(ns: seq<Npkt>, i: int): Npkt?
  {
    if 0 <= i < |ns| then ns[i] else null
  }

  /** The nodes are linked in this order, without a cycle, and the last one ends the list. */
  ghost predicate Linked(ns: seq<Npkt>)
    reads ns
  {
    && (forall i, j :: 0 <= i < j < |ns| ==> ns[i] != ns[j])
    && (forall i :: 0 <= i < |ns| ==> ns[i].next == At(ns, i + 1))
  }

  predicate AllOk(ps: seq<Packet>)
  {
    forall i :: 0 <= i < |ps| ==> ps[i].Ok()
  }

  /** Every packet that has left was returned once, or is about to be. */
  ghost predicate Returned(left: seq<Exit>, done: seq<Packet>, inflight: seq<Packet>)
  {
    forall p :: Count(Gone(left), p) == Count(done, p) + Count(inflight, p)
  }

  lemma ReturnedLeaves(mem: Memory, left: seq<Exit>, done: seq<Packet>, inflight: seq<Packet>, e: Exit)
    requires Returned(left, done, inflight)
    ensures Returned(left + [e], done, inflight + [e.p])
  {
    LeftSnoc(mem, left, e);
    forall p
      ensures Count(Gone(left + [e]), p) == Count(done, p) + Count(inflight + [e.p], p)
    {
      CountSnoc(Gone(left), e.p, p);
      CountSnoc(inflight, e.p, p);
    }
  }

  lemma ReturnedDone(left: seq<Exit>, done: seq<Packet>, inflight: seq<Packet>, q: Packet)
    requires Returned(left, done, inflight + [q])
    ensures Returned(left, done + [q], inflight)
  {
    forall p
      ensures Count(Gone(left), p) == Count(done + [q], p) + Count(inflight, p)
    {
      CountSnoc(done, q, p);
      CountSnoc(inflight, q, p);
    }
  }

  /** Element j of part b of a list of parts. */
  lemma {:induction false} FlattenIndex<T>(parts: seq<seq<T>>, b: nat, j: nat)
    requires b < |parts| && j < |parts[b]|
    ensures |Flatten(parts[..b])| + j < |Flatten(parts)|
    ensures Flatten(parts)[|Flatten(parts[..b])| + j] == parts[b][j]
  {
    FlattenPrefixLength(parts, b);
    assert Flatten(parts[b..]) == parts[b] + Flatten(parts[b..][1..]);
  }

  lemma FlattenNone<T>()
    ensures Flatten<T>([]) == []
  {
  }

  lemma PrefixShort<T>(parts: seq<seq<T>>, b: nat)
    requires b <= |parts|
    ensures |Flatten(parts[..b])| <= |Flatten(parts)|
  {
    FlattenPrefixLength(parts, b);
  }

  class Device {
    const mem: Memory         // the packets' bytes
    const capacity: nat       // of the FIFO, in bytes

    var nhead: Npkt?
    var ntail: Npkt?
    var fifo: seq<nat>        // the words the chip has not taken yet
    var traffic: nat          // what other threads may still do

    ghost var nodes: seq<Npkt>
    ghost var repr: set<Npkt>         // all nodes that ever were in the list
    ghost var arrived: seq<Packet>
    ghost var left: seq<Exit>
    ghost var inflight: seq<Packet>     // sent, tx_done still to come
    ghost var done: seq<Packet>         // handed to tx_done
    ghost var passed: seq<Packet>       // control packets handed back
    ghost var written: seq<nat>         // all words ever written to the FIFO

    /** nhead and ntail are the ends of a well-formed list. */
    ghost predicate List()
      reads `nhead, `ntail, `nodes, nodes
    {
      && Linked(nodes)
      && if nodes == [] then nhead == null && ntail == null else nhead == nodes[0] && ntail == nodes[|nodes| - 1]
    }

    ghost predicate Books()
      reads `nodes, `arrived, `left, `inflight, `done
    {
      && arrived == Gone(left) + PacketsOf(nodes)
      && AllOk(PacketsOf(nodes))
      && Returned(left, done, inflight)
    }

    ghost predicate Bus()
      reads `left, `written, `fifo
    {
      written == Output(mem, left) && 4 * |fifo| <= capacity
    }

    ghost predicate Owned()
      reads `nodes, `repr
    {
      forall i :: 0 <= i < |nodes| ==> nodes[i] in repr
    }

    ghost predicate Valid()
      reads this, nodes
    {
      Owned() && List() && Books() && Bus()
    }

    constructor (mem: Memory, capacity: nat, traffic: nat)
      ensures Valid() && nodes == [] && arrived == [] && inflight == [] && repr == {}
    {
      this.mem, this.capacity, this.traffic := mem, capacity, traffic;
      nhead, ntail, fifo := null, null, [];
      nodes, arrived, left, inflight, done, passed, written := [], [], [], [], [], [], [];
      repr := {};
    }

    /**
     Packets leave in the order they arrived, and each packet that has left was handed to tx_done
     exactly once, except those whose sender is between sending and tx_done.
     */
    lemma LeaveInOrder(p: Packet)
      requires Valid()
      ensures Gone(left) <= arrived && arrived == Gone(left) + PacketsOf(nodes)
      ensures Count(done, p) + Count(inflight, p) == Count(Gone(left), p)
    {
    }

    /** What the chip reads from the FIFO, and may still read, are exactly the frames of the packets sent. */
    lemma ChipReadsFrames()
      requires Valid() && Sendable(left)
      ensures DecodeMany(written, |SentOf(left)|) == Some((FramesOf(mem, left), []))
    {
      DecodeOutput(mem, left, []);
      assert written + [] == written;
    }

    /** A word written to the FIFO, which the chip empties at its own pace. */
    method Out(w: nat)
      requires 4 * (|fifo| + 1) <= capacity
      modifies `fifo, `written
      ensures |fifo| <= |old(fifo)| + 1 && 4 * |fifo| <= capacity
      ensures written == old(written) + [w]
    {
      var taken: nat := *;
      if 0 <= taken <= |fifo| {
        fifo := fifo[taken..];
      }
      fifo := fifo + [w];
      written := written + [w];
    }

    /** The first word of a fragment that does not start on a word boundary: zeros, then bytes shifted in from above. */
    method FirstWord(v: Iov) returns (w: nat)
      requires Offset(v) != 0
      ensures w == WordAt(mem, v, 0)
    {
      w := Offset(v);
      var p, cnt := v.addr, 4 - w;
      ghost var a: nat, b: nat, c: nat := mem(v.addr), mem(v.addr + 1), mem(v.addr + 2);
      while cnt > 0
        invariant 0 <= cnt <= 4 - Offset(v) && p == v.addr + (4 - Offset(v) - cnt)
        invariant p == v.addr ==> w == Offset(v)
        invariant p == v.addr + 1 ==> w == 0x100_0000 * a
        invariant p == v.addr + 2 ==> w == 0x1_0000 * a + 0x100_0000 * b
        invariant p == v.addr + 3 ==> w == 0x100 * a + 0x1_0000 * b + 0x100_0000 * c
      {
        w := w / 0x100 + mem(p) * 0x100_0000;
        p, cnt := p + 1, cnt - 1;
      }
    }

    /**
     The first command word: length, flags and start offset or-ed together. The chip reads them
     back exactly when the length fits in its field.
     */
    method SegmentCommand(v: Iov, first: bool, last: bool) returns (cmda: nat)
      ensures DecodeCommand(cmda) == Command(v.len, first, last, last, Offset(v)) <==> v.len < SIZE_LIMIT
      ensures cmda == CommandA(v.len, first, last, Offset(v))
      ensures v.len < SIZE_LIMIT ==>
        cmda == v.len + (if first then 0x2000 else 0) + (if last then 0x8000_1000 else 0) + 0x1_0000 * (v.addr % 4)
    {
      if v.len < SIZE_LIMIT {
        CommandSum(v.len, first, last, Offset(v));
      }
      hide Or, DecodeCommand;
      CommandRoundTrip(v.len, first, last, Offset(v));
      cmda := v.len;
      if first {
        cmda := Or(cmda, FIRST_SEG);
      }
      if last {
        cmda := Or(Or(cmda, IOC), LAST_SEG);
      }
      var off := v.addr % 4;
      if off % 2 == 1 {
        cmda := Or(cmda, 0x1_0000);
      }
      if off / 2 % 2 == 1 {
        cmda := Or(cmda, 0x2_0000);
      }
    }

    /** The data words: an unaligned one, then whole words of memory up to and past the end. */
    method SendData(v: Iov)
      requires 4 * (|fifo| + WordCount(v)) <= capacity
      modifies `fifo, `written
      ensures |fifo| <= |old(fifo)| + WordCount(v) && 4 * |fifo| <= capacity
      ensures written == old(written) + DataWords(mem, v, 0)
    {
      hide WordAt, Word;
      ghost var k := 0;
      var p, numwrites: int := v.addr, v.len;
      var off := v.addr % 4;
      if off != 0 {
        var w := FirstWord(v);
        Out(w);
        p, numwrites := p + (4 - off), numwrites - (4 - off);
        k := 1;
      }
      numwrites := (numwrites + 3) / 4;
      while numwrites > 0
        invariant 0 <= k <= WordCount(v) && numwrites == WordCount(v) - k && p == v.addr - off + 4 * k
        invariant off != 0 ==> 0 < k
        invariant written + DataWords(mem, v, k) == old(written) + DataWords(mem, v, 0)
        invariant |fifo| <= |old(fifo)| + k && 4 * |fifo| <= capacity
      {
        AlignedWord(v, k);
        Assoc(written, [WordAt(mem, v, k)], DataWords(mem, v, k + 1));
        Out(Word(mem(p), mem(p + 1), mem(p + 2), mem(p + 3)));
        k, p, numwrites := k + 1, p + 4, numwrites - 1;
      }
    }

    /** One fragment: two command words and the data. */
    method SendFragment(v: Iov, first: bool, last: bool, framelen: nat)
      requires 4 * (|fifo| + 2 + WordCount(v)) <= capacity
      modifies `fifo, `written
      ensures |fifo| <= |old(fifo)| + 2 + WordCount(v) && 4 * |fifo| <= capacity
      ensures written == old(written) + EncodeFragment(mem, v, first, last, framelen)
    {
      hide CommandA, DataWords, WordCount;
      var cmda := SegmentCommand(v, first, last);
      Out(cmda);
      Out(framelen);
      SendData(v);
    }

    lemma AlignedWord(v: Iov, k: nat)
      requires Offset(v) == 0 || 0 < k
      ensures var p := v.addr - Offset(v) + 4 * k;
        WordAt(mem, v, k) == Word(mem(p), mem(p + 1), mem(p + 2), mem(p + 3))
    {
    }

    lemma SpaceStep(frags: seq<Iov>, k: nat, framelen: nat)
      requires k < |frags|
      ensures EncodeFrom(mem, frags, k, framelen)
           == EncodeFragment(mem, frags[k], k == 0, k == |frags| - 1, framelen)
              + EncodeFrom(mem, frags, k + 1, framelen)
      ensures |EncodeFrom(mem, frags, k, framelen)|
           == 2 + WordCount(frags[k]) + |EncodeFrom(mem, frags, k + 1, framelen)|
    {
    }

    /** All fragments of a packet, buffer by buffer; the space check covers them whatever their alignments. */
    method SendPacket(p: Packet)
      requires p.Ok() && 4 * |fifo| + p.framelen + 16 * p.totIov <= capacity
      modifies `fifo, `written
      ensures 4 * |fifo| <= capacity
      ensures written == old(written) + EncodeFrom(mem, p.Frags(), 0, p.framelen)
    {
      hide EncodeFrom, EncodeFragment, WordCount, TotalLength, Flatten;
      ghost var frags := p.Frags();
      SpaceEnough(mem, frags, 0, p.framelen);
      assert frags[0..] == frags;
      ghost var all := EncodeFrom(mem, frags, 0, p.framelen);
      var iovCnt := 0;
      FlattenNone<Iov>();
      assert p.buffers[..0] == [];
      for b := 0 to |p.buffers|
        modifies `fifo, `written
        invariant iovCnt == |Flatten(p.buffers[..b])| <= |frags|
        invariant 4 * (|fifo| + |EncodeFrom(mem, frags, iovCnt, p.framelen)|) <= capacity
        invariant written + EncodeFrom(mem, frags, iovCnt, p.framelen) == old(written) + all
      {
        FlattenPrefixStep(p.buffers, b);
        PrefixShort(p.buffers, b + 1);
        ghost var before := iovCnt;
        for j := 0 to |p.buffers[b]|
          modifies `fifo, `written
          invariant iovCnt == before + j <= |frags|
          invariant 4 * (|fifo| + |EncodeFrom(mem, frags, iovCnt, p.framelen)|) <= capacity
          invariant written + EncodeFrom(mem, frags, iovCnt, p.framelen) == old(written) + all
        {
          var iov := p.buffers[b][j];
          FlattenIndex(p.buffers, b, j);
          SpaceStep(frags, iovCnt, p.framelen);
          ghost var was := written;
          SendFragment(iov, iovCnt == 0, iovCnt == p.totIov - 1, p.framelen);
          Assoc(was, EncodeFragment(mem, iov, iovCnt == 0, iovCnt == p.totIov - 1, p.framelen),
                EncodeFrom(mem, frags, iovCnt + 1, p.framelen));
          iovCnt := iovCnt + 1;
        }
      }
      assert p.buffers[..|p.buffers|] == p.buffers;
      EncodeNone(mem, frags, p.framelen);
    }

    /** The head leaves the list. */
    method Pop() returns (npkt: Npkt)
      requires List() && nhead != null
      modifies `nhead, `ntail, `nodes, nhead
      ensures List() && npkt == old(nhead) == old(nodes)[0] && npkt.next == null && nodes == old(nodes)[1..]
    {
      npkt := nhead;
      LinkedTail(nodes);
      ghost var rest := nodes[1..];
      nhead := npkt.next;
      npkt.next := null;
      if npkt == ntail {
        ntail := null;
      }
      nodes := rest;
    }

    static lemma LinkedTail(ns: seq<Npkt>)
      requires Linked(ns) && ns != []
      ensures Linked(ns[1..]) && ns[0] !in ns[1..] && ns[0].next == At(ns[1..], 0)
    {
      var rest := ns[1..];
      forall i | 0 <= i < |rest|
        ensures rest[i] == ns[i + 1] && rest[i].next == At(rest, i + 1)
      {
        assert ns[i + 1].next == At(ns, i + 2);
      }
    }

    /** The head packet goes out whole. */
    method SendHead() returns (npkt: Npkt)
      requires Valid() && nhead != null
      requires 4 * |fifo| + nhead.packet.framelen + 16 * nhead.packet.totIov <= capacity
      modifies `nhead, `ntail, `nodes, `fifo, `written, `left, `inflight, nhead
      ensures Valid() && npkt == old(nhead) && nodes == old(nodes)[1..]
      ensures left == old(left) + [Sent(npkt.packet)] && inflight == old(inflight) + [npkt.packet]
    {
      hide Linked, Returned, Gone, Output, PacketsOf, Packet.Ok, EncodeFrom;
      ghost var was := nodes;
      HeadOk();
      npkt := Pop();
      ghost var e := Sent(npkt.packet);
      PacketsHead(was, nodes);
      assert forall i :: 0 <= i < |nodes| ==> nodes[i] == was[i + 1];
      LeftSnoc(mem, left, e);
      ReturnedLeaves(mem, left, done, inflight, e);
      Assoc(Gone(left), [e.p], PacketsOf(nodes));
      SendPacket(npkt.packet);
      left, inflight := left + [e], inflight + [npkt.packet];
    }

    lemma HeadOk()
      requires Valid() && nhead != null
      ensures nodes != [] && nhead == nodes[0] && nhead.packet.Ok()
    {
      assert PacketsOf(nodes)[0] == nodes[0].packet;
    }

    lemma HeadOwned()
      requires Owned() && nodes != []
      ensures nodes[0] in repr
    {
    }

    /** tx_done for the packet sent last by this thread. */
    ghost method TxDone(p: Packet)
      requires Books() && inflight != [] && inflight[|inflight| - 1] == p
      modifies `inflight, `done
      ensures Books() && inflight == old(inflight)[..|old(inflight)| - 1] && done == old(done) + [p]
    {
      hide PacketsOf, Gone, Returned, Packet.Ok;
      ghost var rest := inflight[..|inflight| - 1];
      assert inflight == rest + [p];
      ReturnedDone(left, done, rest, p);
      inflight, done := rest, done + [p];
    }

    /** smc9118_send: while the FIFO has room, the head packet is sent and handed back with the lock given up. */
    method SendAll()
      requires Valid()
      modifies this, repr
      ensures Valid() && inflight == old(inflight) && traffic <= old(traffic)
      ensures old(arrived) <= arrived && old(left) <= left
      ensures fresh(repr - old(repr))
      ensures nhead == null || (capacity - 4 * |fifo|) % 0x1_0000 < nhead.packet.framelen + 16 * nhead.packet.totIov
      decreases traffic, 1
    {
      hide List, Books, Bus, Owned;
      while true
        invariant Valid() && inflight == old(inflight) && traffic <= old(traffic)
        invariant old(arrived) <= arrived && old(left) <= left
        invariant fresh(repr - old(repr))
        decreases traffic, |nodes|
      {
        if nhead == null {
          break;
        }
        HeadOk();
        HeadOwned();
        var free := (capacity - 4 * |fifo|) % 0x1_0000;
        if free < nhead.packet.framelen + 16 * nhead.packet.totIov {
          break;
        }
        SpaceRead();
        var npkt := SendHead();
        Others();
        TxDone(npkt.packet);
        Others();
      }
    }

    static ghost predicate Within(chain: seq<Npkt>, objs: set<Npkt>)
    {
      forall i :: 0 <= i < |chain| ==> chain[i] in objs
    }

    /** The 16 bits the space register shows never promise more than there is. */
    lemma SpaceRead()
      requires Bus()
      ensures (capacity - 4 * |fifo|) % 0x1_0000 <= capacity - 4 * |fifo|
    {
    }

    /** While the lock is free, other threads append chains, flush, or send themselves. */
    method Others()
      requires Valid()
      modifies this, repr
      ensures Valid() && inflight == old(inflight) && traffic <= old(traffic)
      ensures old(arrived) <= arrived && old(left) <= left
      ensures fresh(repr - old(repr))
      ensures traffic == old(traffic) ==> nodes == old(nodes)
      decreases traffic, 0
    {
      hide List, Books, Bus, Owned;
      var more: bool, op: nat := *, *;
      if more && 0 < traffic {
        traffic := traffic - 1;
        if op == 0 {
          Arrive();
        } else if op == 1 {
          Flush();
        } else {
          SendAll();
        }
        Others();
      }
    }

    /** A chain of packets, made up by the layers above. */
    method Arrive()
      requires Valid()
      modifies this, repr
      ensures Valid() && inflight == old(inflight) && traffic <= old(traffic)
      ensures old(arrived) <= arrived && old(left) <= left
      ensures fresh(repr - old(repr))
      decreases traffic, 3
    {
      var ps: seq<Packet> := *;
      if ps == [] || !AllOk(ps) {
        return;
      }
      var npkt, chain, objs := MakeChain(ps);
      SendPackets(npkt, chain, objs);
    }

    method MakeChain(ps: seq<Packet>) returns (head: Npkt, ghost chain: seq<Npkt>, ghost objs: set<Npkt>)
      requires ps != []
      ensures chain != [] && PacketsOf(chain) == ps && Linked(chain) && chain[0] == head
      ensures Within(chain, objs) && fresh(objs)
    {
      hide Linked, PacketsOf;
      var k := |ps| - 1;
      head := new Npkt(ps[k]);
      chain, objs := [head], {head};
      SingleLinked(head);
      while 0 < k
        invariant 0 <= k < |ps| && chain != [] && PacketsOf(chain) == ps[k..] && Linked(chain) && chain[0] == head
        invariant Within(chain, objs) && fresh(objs)
      {
        k := k - 1;
        var npkt := new Npkt(ps[k]);
        npkt.next := head;
        LinkedCons(npkt, chain);
        assert ps[k..] == [ps[k]] + ps[k + 1..];
        chain, objs := [npkt] + chain, objs + {npkt};
        head := npkt;
      }
    }

    lemma SingleLinked(n: Npkt)
      requires n.next == null
      ensures Linked([n]) && PacketsOf([n]) == [n.packet]
    {
    }

    lemma LinkedCons(n: Npkt, chain: seq<Npkt>)
      requires chain != [] && Linked(chain) && n.next == chain[0]
      requires forall j :: 0 <= j < |chain| ==> chain[j] != n
      ensures Linked([n] + chain) && PacketsOf([n] + chain) == [n.packet] + PacketsOf(chain)
    {
      var all := [n] + chain;
      forall i | 0 <= i < |all|
        ensures all[i].next == At(all, i + 1)
      {
        if 0 < i {
          assert chain[i - 1].next == At(chain, i);
        }
      }
    }

    /** Two lists, the first one's end linked to the second. */
    static lemma LinkedJoin(a: seq<Npkt>, b: seq<Npkt>)
      requires Apart(a, b) && Linked(b) && b != []
      requires forall i, j :: 0 <= i < j < |a| ==> a[i] != a[j]
      requires forall i :: 0 <= i < |a| ==> a[i].next == if i == |a| - 1 then b[0] else At(a, i + 1)
      ensures Linked(a + b)
    {
      var all := a + b;
      forall i | 0 <= i < |all|
        ensures all[i].next == At(all, i + 1)
      {
        if |a| <= i {
          assert b[i - |a|].next == At(b, i - |a| + 1);
        }
      }
    }

    /** A chain is appended: the walk to its last node ends at the new tail. */
    method Append(npkt: Npkt, ghost chain: seq<Npkt>)
      requires List() && chain != [] && Linked(chain) && chain[0] == npkt && Apart(nodes, chain)
      modifies `nhead, `ntail, `nodes, ntail
      ensures List() && nodes == old(nodes) + chain
    {
      if ntail != null {
        ntail.next := npkt;
      } else {
        nhead := npkt;
      }
      var p := npkt;
      ghost var k := 0;
      while p.next != null
        invariant 0 <= k < |chain| && p == chain[k] && Linked(chain)
        decreases |chain| - k
      {
        p := p.next;
        k := k + 1;
      }
      LinkedJoin(nodes, chain);
      ntail := p;
      nodes := nodes + chain;
    }

    /** A chain joins the queue. */
    method Queue(npkt: Npkt, ghost chain: seq<Npkt>, ghost objs: set<Npkt>)
      requires Valid() && chain != [] && Linked(chain) && chain[0] == npkt && AllOk(PacketsOf(chain))
      requires Apart(nodes, chain) && Within(chain, objs)
      modifies `nhead, `ntail, `nodes, `repr, `arrived, ntail
      ensures Valid() && repr == old(repr) + objs && nodes == old(nodes) + chain
      ensures arrived == old(arrived) + PacketsOf(chain)
    {
      hide Linked, AllOk, PacketsOf, Returned, Gone, Output;
      ghost var was := nodes;
      TailOwned();
      Append(npkt, chain);
      Arrives(was, chain);
      repr, arrived := repr + objs, arrived + PacketsOf(chain);
    }

    static ghost predicate Apart(ns: seq<Npkt>, chain: seq<Npkt>)
    {
      forall i, j :: 0 <= i < |ns| && 0 <= j < |chain| ==> ns[i] != chain[j]
    }

    /** smc9118_send_packets */
    method SendPackets(npkt: Npkt, ghost chain: seq<Npkt>, ghost objs: set<Npkt>)
      requires Valid() && chain != [] && Linked(chain) && chain[0] == npkt && AllOk(PacketsOf(chain))
      requires Apart(nodes, chain) && Within(chain, objs)
      modifies this, repr, objs
      ensures Valid() && inflight == old(inflight) && traffic <= old(traffic)
      ensures old(arrived) <= arrived && old(left) <= left
      ensures fresh(repr - old(repr) - objs)
      ensures !npkt.packet.control ==> old(arrived) + PacketsOf(chain) <= arrived
      ensures npkt.packet.control ==> nodes == old(nodes) && arrived == old(arrived)
      ensures npkt.packet.control ==> passed == old(passed) + [npkt.packet]
      decreases traffic, 2
    {
      hide Linked, Owned, List, Books, Bus, PacketsOf, AllOk, Apart, Within;
      if npkt.packet.control {
        passed := passed + [npkt.packet];
      } else {
        TailOwned();
        Queue(npkt, chain, objs);
        SendAll();
      }
    }

    lemma TailOwned()
      requires Owned() && List()
      ensures nodes != [] ==> ntail in repr
      ensures nodes == [] ==> ntail == null
    {
    }

    lemma Arrives(ns: seq<Npkt>, chain: seq<Npkt>)
      requires AllOk(PacketsOf(ns)) && AllOk(PacketsOf(chain))
      ensures AllOk(PacketsOf(ns + chain)) && PacketsOf(ns + chain) == PacketsOf(ns) + PacketsOf(chain)
      ensures forall gone :: gone + PacketsOf(ns) + PacketsOf(chain) == gone + PacketsOf(ns + chain)
    {
      PacketsAppend(ns, chain);
    }

    /** smc9118_flush */
    method Flush()
      requires Valid()
      modifies `nhead, `ntail, `nodes, `left, `done
      ensures Valid() && nodes == [] && arrived == Gone(left) && old(left) <= left
      ensures done == old(done) + PacketsOf(old(nodes))
    {
      hide Linked, Returned, Gone, Output, PacketsOf, AllOk;
      FlushedAll();
      var npkt := nhead;
      nhead, ntail := null, null;
      while npkt != null
        modifies `nodes, `left, `done
        invariant Linked(nodes) && npkt == At(nodes, 0)
        invariant Owned() && Books() && Bus() && old(left) <= left
        invariant done + PacketsOf(nodes) == old(done) + PacketsOf(old(nodes))
        decreases |nodes|
      {
        var tmp := npkt.next;
        ghost var e := Flushed(npkt.packet);
        FlushHead();
        Assoc(done, [e.p], PacketsOf(nodes[1..]));
        nodes, left, done := nodes[1..], left + [e], done + [e.p];
        npkt := tmp;
      }
    }

    lemma FlushedAll()
      ensures PacketsOf([]) == [] && Linked([])
    {
    }

    /** The bookkeeping when the head packet is flushed. */
    lemma FlushHead()
      requires Linked(nodes) && nodes != [] && Books() && Bus() && Owned()
      ensures var e, rest := Flushed(nodes[0].packet), nodes[1..];
        && PacketsOf(nodes) == [e.p] + PacketsOf(rest)
        && arrived == Gone(left + [e]) + PacketsOf(rest) && AllOk(PacketsOf(rest))
        && Returned(left + [e], done + [e.p], inflight) && written == Output(mem, left + [e])
        && Linked(rest) && nodes[0].next == At(rest, 0)
        && forall i :: 0 <= i < |rest| ==> rest[i] in repr
    {
      hide Returned, Gone, Output, Packet.Ok, EncodeFrom;
      var e, rest := Flushed(nodes[0].packet), nodes[1..];
      PacketsHead(nodes, rest);
      LeftSnoc(mem, left, e);
      Assoc(Gone(left), [e.p], PacketsOf(rest));
      ReturnedLeaves(mem, left, done, inflight, e);
      ReturnedDone(left + [e], done, inflight, e.p);
      assert forall i :: 0 <= i < |rest| ==> rest[i] == nodes[i + 1];
    }
  }
}
