/**
 The i.MX35 FEC receive ring, its free list and the packets passed upstream.

 World() stands between any two accesses to shared state. It lets the DMA engine fill armed
 descriptors and lets upstream threads complete packets they hold, in any order. Where each
 packet is, is recorded in `place`, so that a packet is in one place by construction, and the
 arrays and lists of the driver are proved to agree with it.
 */
module FecReceive {
  import opened Common
  import opened FecRing

  const MTU_SIZE := 1536
  const CRC_LENGTH := 4
  const WORD := 0x1_0000_0000

  /** Flags of a receive descriptor: E (empty), W (wrap), and whether any error bit is set. */
  datatype Status = Status(e: bool, w: bool, err: bool)

  /** 16 bits. */
  type Length = n: nat | n < 0x1_0000

  datatype Descriptor = Descriptor(buffer: nat, length: Length, status: Status)

  /** A received frame: what the DMA engine reports and what it stores. */
  datatype Frame = Frame(length: Length, err: bool, bytes: seq<Byte>)

  /** What is answered to a frame: not offered for its errors or for want of a client, refused, or taken. */
  datatype Fate = Errored | Unregistered | Refused | Taken

  /** The calls made for a packet: ion_add_done, and tx_up with the packet's length and contents. */
  datatype Call = AddDone(pkt: nat, ok: bool) | TxUp(pkt: nat, framelen: nat, bytes: seq<Byte>, taken: bool)

  datatype Place = Ring(slot: nat) | Free | Up | Freed | Lost | Hand

  function Kind(p: Place): Place
  {
    if p.Ring? then Ring(0) else p
  }

  /** How many packets are in places of one kind. */
  function Tally(place: seq<Place>, k: Place): nat
  {
    if place == [] then 0 else (if Kind(place[0]) == k then 1 else 0) + Tally(place[1..], k)
  }

  lemma {:induction false} TallyMove(place: seq<Place>, p: nat, x: Place, k: Place)
    requires p < |place|
    ensures Tally(place[p := x], k)
         == Tally(place, k) - (if Kind(place[p]) == k then 1 else 0) + (if Kind(x) == k then 1 else 0)
  {
    if p == 0 {
      assert place[p := x][1..] == place[1..];
    } else {
      assert place[p := x][1..] == place[1..][p - 1 := x];
      TallyMove(place[1..], p - 1, x, k);
    }
  }

  lemma {:induction false} TallySnoc(place: seq<Place>, x: Place, k: Place)
    ensures Tally(place + [x], k) == Tally(place, k) + if Kind(x) == k then 1 else 0
  {
    if place == [] {
      assert (place + [x])[1..] == [];
    } else {
      assert (place + [x])[1..] == place[1..] + [x];
      TallySnoc(place[1..], x, k);
    }
  }

  /** Every packet is in exactly one kind of place. */
  lemma {:induction false} TallyTotal(place: seq<Place>)
    ensures |place| == Tally(place, Ring(0)) + Tally(place, Free) + Tally(place, Up)
                     + Tally(place, Freed) + Tally(place, Lost) + Tally(place, Hand)
  {
    if place != [] {
      TallyTotal(place[1..]);
    }
  }

  lemma {:induction false} TallyRing(place: seq<Place>)
    requires forall i :: 0 <= i < |place| ==> place[i].Ring?
    ensures forall k :: k == Kind(k) && !k.Ring? ==> Tally(place, k) == 0
    ensures Tally(place, Ring(0)) == |place|
  {
    if place != [] {
      TallyRing(place[1..]);
    }
  }

  // ----- The ring as a value

  /**
   Slots hold, from the consumer index on: frames the engine has delivered, then armed
   descriptors, then, while a frame is being handled, the one slot being refilled.
   */
  ghost predicate SlotOk(addr: seq<nat>, n: nat, d: Descriptor, q: Option<nat>, s: nat, i: nat,
                         place: seq<Place>, pending: seq<Frame>, open: bool)
  {
    && d.status.w == (s == n - 1)
    && if open && i == n - 1 then !d.status.e
       else
         && q.Some? && q.value < |place| == |addr| && place[q.value] == Ring(s) && d.buffer == addr[q.value]
         && if i < |pending| then !d.status.e && d.length == pending[i].length && d.status.err == pending[i].err
            else d.status.e
  }

  ghost predicate RingOk(addr: seq<nat>, n: nat, bd: seq<Descriptor>, pktq: seq<Option<nat>>, c: nat, e: nat,
                         place: seq<Place>, pending: seq<Frame>, open: bool)
  {
    && |addr| == |place| && |bd| == n && |pktq| == n && c < n && |pending| <= n - (if open then 1 else 0)
    && e == Slot(n, c, |pending|)
    && forall s :: 0 <= s < n ==> SlotOk(addr, n, bd[s], pktq[s], s, Off(n, c, s), place, pending, open)
  }

  /** A packet placed in a slot is the one the driver finds there. */
  ghost predicate PlacesOk(n: nat, pktq: seq<Option<nat>>, place: seq<Place>)
  {
    |pktq| == n && forall p :: 0 <= p < |place| && place[p].Ring? ==>
      place[p].slot < n && pktq[place[p].slot] == Some(p)
  }

  ghost predicate FreeOk(n: nat, free: seq<nat>, place: seq<Place>)
  {
    && |free| <= n && Tally(place, Free) == |free|
    && (forall i :: 0 <= i < |free| ==> free[i] < |place| && place[free[i]] == Free)
    && (forall i, j :: 0 <= i < j < |free| ==> free[i] != free[j])
  }

  /** The engine fills the descriptor it stands on. */
  lemma EngineFills(addr: seq<nat>, n: nat, bd: seq<Descriptor>, pktq: seq<Option<nat>>, c: nat, e: nat,
                    place: seq<Place>, pending: seq<Frame>, open: bool, f: Frame, d: Descriptor)
    requires RingOk(addr, n, bd, pktq, c, e, place, pending, open) && bd[e].status.e
    requires d == Descriptor(bd[e].buffer, f.length, Status(false, bd[e].status.w, f.err))
    ensures pktq[e].Some? && pktq[e].value < |place|
    ensures place[pktq[e].value] == Ring(e) && bd[e].buffer == addr[pktq[e].value]
    ensures RingOk(addr, n, bd[e := d], pktq, c, if d.status.w then 0 else e + 1, place, pending + [f], open)
  {
    assert SlotOk(addr, n, bd[e], pktq[e], e, Off(n, c, e), place, pending, open);
    var e' := if d.status.w then 0 else e + 1;
    assert |pending| < n - (if open then 1 else 0);
    assert e' == Slot(n, c, |pending| + 1);
    forall s | 0 <= s < n
      ensures SlotOk(addr, n, bd[e := d][s], pktq[s], s, Off(n, c, s), place, pending + [f], open)
    {
      assert SlotOk(addr, n, bd[s], pktq[s], s, Off(n, c, s), place, pending, open);
      assert s == e <==> Off(n, c, s) == |pending|;
    }
  }

  /** Moving a packet that is not in the ring to another such place leaves the ring alone. */
  lemma RingIgnoresMove(addr: seq<nat>, n: nat, bd: seq<Descriptor>, pktq: seq<Option<nat>>, c: nat, e: nat,
                        place: seq<Place>, pending: seq<Frame>, open: bool, p: nat, x: Place)
    requires RingOk(addr, n, bd, pktq, c, e, place, pending, open) && PlacesOk(n, pktq, place)
    requires p < |place| && !place[p].Ring? && !x.Ring?
    ensures RingOk(addr, n, bd, pktq, c, e, place[p := x], pending, open) && PlacesOk(n, pktq, place[p := x])
  {
    forall s | 0 <= s < n
      ensures SlotOk(addr, n, bd[s], pktq[s], s, Off(n, c, s), place[p := x], pending, open)
    {
      assert SlotOk(addr, n, bd[s], pktq[s], s, Off(n, c, s), place, pending, open);
    }
  }

  lemma RingIgnoresAlloc(addr: seq<nat>, n: nat, bd: seq<Descriptor>, pktq: seq<Option<nat>>, c: nat, e: nat,
                         place: seq<Place>, pending: seq<Frame>, open: bool, a: nat)
    requires RingOk(addr, n, bd, pktq, c, e, place, pending, open) && PlacesOk(n, pktq, place)
    ensures RingOk(addr + [a], n, bd, pktq, c, e, place + [Hand], pending, open)
    ensures PlacesOk(n, pktq, place + [Hand])
  {
    forall s | 0 <= s < n
      ensures SlotOk(addr + [a], n, bd[s], pktq[s], s, Off(n, c, s), place + [Hand], pending, open)
    {
      assert SlotOk(addr, n, bd[s], pktq[s], s, Off(n, c, s), place, pending, open);
    }
  }

  /** Taking the packet of a delivered frame out of its slot opens that slot. */
  lemma SlotOpens(addr: seq<nat>, n: nat, bd: seq<Descriptor>, pktq: seq<Option<nat>>, c: nat, e: nat,
                  place: seq<Place>, pending: seq<Frame>, p: nat)
    requires RingOk(addr, n, bd, pktq, c, e, place, pending, false) && PlacesOk(n, pktq, place)
    requires pending != [] && pktq[c] == Some(p)
    ensures p < |place| && place[p] == Ring(c)
    ensures RingOk(addr, n, bd, pktq[c := None], (c + 1) % n, e, place[p := Hand], pending[1..], true)
    ensures PlacesOk(n, pktq[c := None], place[p := Hand])
  {
    assert SlotOk(addr, n, bd[c], pktq[c], c, Off(n, c, c), place, pending, false);
    var c' := (c + 1) % n;
    OffNext(n, c, c);
    assert e == Slot(n, c', |pending| - 1) by {
      assert c' == if c + 1 == n then 0 else c + 1;
    }
    forall s | 0 <= s < n
      ensures SlotOk(addr, n, bd[s], pktq[c := None][s], s, Off(n, c', s), place[p := Hand], pending[1..], true)
    {
      OffNext(n, c, s);
      assert SlotOk(addr, n, bd[s], pktq[s], s, Off(n, c, s), place, pending, false);
    }
  }

  /** Stores to the open slot that keep its E and W flags do not show in the ring. */
  lemma OpenSlotWrite(addr: seq<nat>, n: nat, bd: seq<Descriptor>, pktq: seq<Option<nat>>, c: nat, e: nat,
                      place: seq<Place>, pending: seq<Frame>, d: Descriptor)
    requires RingOk(addr, n, bd, pktq, c, e, place, pending, true) && d.status == bd[Slot(n, c, n - 1)].status
    ensures RingOk(addr, n, bd[Slot(n, c, n - 1) := d], pktq, c, e, place, pending, true)
  {
    var bd' := bd[Slot(n, c, n - 1) := d];
    forall s | 0 <= s < n
      ensures SlotOk(addr, n, bd'[s], pktq[s], s, Off(n, c, s), place, pending, true)
    {
      assert SlotOk(addr, n, bd[s], pktq[s], s, Off(n, c, s), place, pending, true);
    }
  }

  /** A packet in hand is put into the open slot. */
  lemma SlotRefilled(addr: seq<nat>, n: nat, bd: seq<Descriptor>, pktq: seq<Option<nat>>, c: nat, e: nat,
                     place: seq<Place>, pending: seq<Frame>, p: nat)
    requires RingOk(addr, n, bd, pktq, c, e, place, pending, true) && PlacesOk(n, pktq, place)
    requires p < |place| && place[p] == Hand && pktq[Slot(n, c, n - 1)] == None
    ensures var h := Slot(n, c, n - 1);
      && RingOk(addr, n, bd, pktq[h := Some(p)], c, e, place[p := Ring(h)], pending, true)
      && PlacesOk(n, pktq[h := Some(p)], place[p := Ring(h)])
  {
    var h := Slot(n, c, n - 1);
    forall s | 0 <= s < n
      ensures SlotOk(addr, n, bd[s], pktq[h := Some(p)][s], s, Off(n, c, s), place[p := Ring(h)], pending, true)
    {
      assert SlotOk(addr, n, bd[s], pktq[s], s, Off(n, c, s), place, pending, true);
    }
  }

  /** Setting E last arms the slot, with the buffer of the packet stored in it. */
  lemma SlotArmed(addr: seq<nat>, n: nat, bd: seq<Descriptor>, pktq: seq<Option<nat>>, c: nat, e: nat,
                  place: seq<Place>, pending: seq<Frame>, p: nat, d: Descriptor)
    requires RingOk(addr, n, bd, pktq, c, e, place, pending, true)
    requires var h := Slot(n, c, n - 1);
      && p < |place| && place[p] == Ring(h) && pktq[h] == Some(p)
      && bd[h].buffer == addr[p] && d == bd[h].(status := Status(true, h == n - 1, false))
    ensures RingOk(addr, n, bd[Slot(n, c, n - 1) := d], pktq, c, e, place, pending, false)
  {
    var bd' := bd[Slot(n, c, n - 1) := d];
    forall s | 0 <= s < n
      ensures SlotOk(addr, n, bd'[s], pktq[s], s, Off(n, c, s), place, pending, false)
    {
      assert SlotOk(addr, n, bd[s], pktq[s], s, Off(n, c, s), place, pending, true);
    }
  }

  // ----- Buffers

  /** What lies in memory at an address. */
  function At(mem: map<nat, seq<Byte>>, a: nat): seq<Byte>
  {
    if a in mem then mem[a] else []
  }

  /** Packets that have not been released have buffers of their own. */
  ghost predicate Apart(addr: seq<nat>, place: seq<Place>)
  {
    |addr| == |place| && forall p, q :: 0 <= p < q < |place| && place[p] != Freed && place[q] != Freed ==>
      addr[p] != addr[q]
  }

  /** An address an allocation may give out. */
  predicate Unused(addr: seq<nat>, place: seq<Place>, a: nat)
  {
    forall p :: 0 <= p < |place| && p < |addr| && place[p] != Freed ==> addr[p] != a
  }

  /** The buffer of a delivered frame's packet holds the frame. */
  ghost predicate Stored(addr: seq<nat>, n: nat, pktq: seq<Option<nat>>, c: nat, mem: map<nat, seq<Byte>>,
                         pending: seq<Frame>)
  {
    && c < n == |pktq|
    && forall s :: 0 <= s < n && Off(n, c, s) < |pending| && pktq[s].Some? && pktq[s].value < |addr| ==>
      At(mem, addr[pktq[s].value]) == pending[Off(n, c, s)].bytes
  }

  lemma ApartMove(addr: seq<nat>, place: seq<Place>, p: nat, x: Place)
    requires Apart(addr, place) && p < |place| && place[p] != Freed
    ensures Apart(addr, place[p := x])
  {
  }

  lemma ApartAlloc(addr: seq<nat>, place: seq<Place>, a: nat)
    requires Apart(addr, place) && Unused(addr, place, a)
    ensures Apart(addr + [a], place + [Hand])
  {
  }

  lemma StoredAlloc(addr: seq<nat>, n: nat, bd: seq<Descriptor>, pktq: seq<Option<nat>>, c: nat, e: nat,
                    place: seq<Place>, mem: map<nat, seq<Byte>>, pending: seq<Frame>, open: bool, a: nat)
    requires RingOk(addr, n, bd, pktq, c, e, place, pending, open) && Stored(addr, n, pktq, c, mem, pending)
    ensures Stored(addr + [a], n, pktq, c, mem, pending)
  {
    forall s | 0 <= s < n && Off(n, c, s) < |pending| && pktq[s].Some?
      ensures pktq[s].value < |addr|
    {
      assert SlotOk(addr, n, bd[s], pktq[s], s, Off(n, c, s), place, pending, open);
    }
  }

  /** A write to the buffer of no packet in the ring leaves the frames there alone. */
  lemma StoredWrite(addr: seq<nat>, n: nat, bd: seq<Descriptor>, pktq: seq<Option<nat>>, c: nat, e: nat,
                    place: seq<Place>, mem: map<nat, seq<Byte>>, pending: seq<Frame>, open: bool,
                    a: nat, bytes: seq<Byte>)
    requires RingOk(addr, n, bd, pktq, c, e, place, pending, open) && Stored(addr, n, pktq, c, mem, pending)
    requires forall p :: 0 <= p < |place| && p < |addr| && place[p].Ring? ==> addr[p] != a
    ensures Stored(addr, n, pktq, c, mem[a := bytes], pending)
    ensures forall b :: b != a ==> At(mem[a := bytes], b) == At(mem, b)
  {
    forall s | 0 <= s < n && Off(n, c, s) < |pending| && pktq[s].Some? && pktq[s].value < |addr|
      ensures addr[pktq[s].value] != a
    {
      assert SlotOk(addr, n, bd[s], pktq[s], s, Off(n, c, s), place, pending, open);
    }
  }

  /** The engine stores a frame into the buffer of the slot's own packet, and touches no other. */
  lemma StoredFill(addr: seq<nat>, n: nat, bd: seq<Descriptor>, pktq: seq<Option<nat>>, c: nat, e: nat,
                   place: seq<Place>, mem: map<nat, seq<Byte>>, pending: seq<Frame>, open: bool, f: Frame)
    requires RingOk(addr, n, bd, pktq, c, e, place, pending, open) && Stored(addr, n, pktq, c, mem, pending)
    requires Apart(addr, place) && bd[e].status.e
    ensures Stored(addr, n, pktq, c, mem[bd[e].buffer := f.bytes], pending + [f])
    ensures forall p :: 0 <= p < |place| && place[p] == Hand ==>
      At(mem[bd[e].buffer := f.bytes], addr[p]) == At(mem, addr[p])
  {
    assert SlotOk(addr, n, bd[e], pktq[e], e, Off(n, c, e), place, pending, open);
    assert Off(n, c, e) == |pending|;
    forall s | 0 <= s < n && Off(n, c, s) < |pending| && pktq[s].Some? && pktq[s].value < |addr|
      ensures addr[pktq[s].value] != bd[e].buffer
    {
      assert SlotOk(addr, n, bd[s], pktq[s], s, Off(n, c, s), place, pending, open);
    }
    forall s | 0 <= s < n && Off(n, c, s) == |pending|
      ensures s == e
    {
    }
  }

  /** The packet taken out of its slot holds the oldest frame. */
  lemma StoredOpen(addr: seq<nat>, n: nat, pktq: seq<Option<nat>>, c: nat, mem: map<nat, seq<Byte>>,
                   pending: seq<Frame>)
    requires Stored(addr, n, pktq, c, mem, pending) && pending != []
    ensures Stored(addr, n, pktq[c := None], (c + 1) % n, mem, pending[1..])
    ensures pktq[c].Some? && pktq[c].value < |addr| ==> At(mem, addr[pktq[c].value]) == pending[0].bytes
  {
    OffNext(n, c, c);
    forall s | 0 <= s < n && Off(n, (c + 1) % n, s) < |pending| - 1 && pktq[c := None][s].Some?
      ensures Off(n, (c + 1) % n, s) == Off(n, c, s) - 1
    {
      OffNext(n, c, s);
    }
  }

  /** A packet put into the open slot does not matter to them. */
  lemma StoredRefill(addr: seq<nat>, n: nat, pktq: seq<Option<nat>>, c: nat, mem: map<nat, seq<Byte>>,
                     pending: seq<Frame>, p: nat)
    requires Stored(addr, n, pktq, c, mem, pending) && |pending| < n
    ensures Stored(addr, n, pktq[Slot(n, c, n - 1) := Some(p)], c, mem, pending)
  {
  }

  // ----- The free list

  lemma FreePushed(n: nat, free: seq<nat>, place: seq<Place>, p: nat)
    requires FreeOk(n, free, place) && |free| < n
    requires p < |place| && (place[p] == Up || place[p] == Hand)
    ensures FreeOk(n, [p] + free, place[p := Free])
  {
    TallyMove(place, p, Free, Free);
  }

  lemma FreePopped(n: nat, free: seq<nat>, place: seq<Place>)
    requires FreeOk(n, free, place) && free != []
    ensures free[0] < |place| && place[free[0]] == Free && FreeOk(n, free[1..], place[free[0] := Hand])
  {
    TallyMove(place, free[0], Hand, Free);
  }

  lemma FreeIgnoresMove(n: nat, free: seq<nat>, place: seq<Place>, p: nat, x: Place)
    requires FreeOk(n, free, place) && p < |place| && place[p] != Free && x != Free
    ensures FreeOk(n, free, place[p := x])
  {
    TallyMove(place, p, x, Free);
  }

  lemma FreeIgnoresAlloc(n: nat, free: seq<nat>, place: seq<Place>)
    requires FreeOk(n, free, place)
    ensures FreeOk(n, free, place + [Hand])
  {
    TallySnoc(place, Hand, Free);
  }

  // ----- History

  datatype Handled = Handled(frame: Frame, pkt: nat, fate: Fate)

  function Frames(handled: seq<Handled>): (fs: seq<Frame>)
    ensures |fs| == |handled|
  {
    seq(|handled|, i requires 0 <= i < |handled| => handled[i].frame)
  }

  function Erred(handled: seq<Handled>): nat
  {
    if handled == [] then 0
    else Erred(handled[..|handled| - 1]) + if handled[|handled| - 1].fate.Errored? then 1 else 0
  }

  /** The length a frame is passed up with: less its CRC, in 32 bits. */
  function PassedLength(f: Frame): nat
  {
    (f.length - CRC_LENGTH) % WORD
  }

  /** The calls a frame leads to: it goes up in its packet, whole and with its length, or not at all. */
  function CallsFor(h: Handled): seq<Call>
  {
    match h.fate
    case Errored => []
    case Unregistered => [AddDone(h.pkt, false)]
    case Refused => [AddDone(h.pkt, true), TxUp(h.pkt, PassedLength(h.frame), h.frame.bytes, false)]
    case Taken => [AddDone(h.pkt, true), TxUp(h.pkt, PassedLength(h.frame), h.frame.bytes, true)]
  }

  function CallsOf(handled: seq<Handled>): seq<Call>
  {
    if handled == [] then [] else CallsOf(handled[..|handled| - 1]) + CallsFor(handled[|handled| - 1])
  }

  lemma HandledSnoc(handled: seq<Handled>, h: Handled)
    ensures Frames(handled + [h]) == Frames(handled) + [h.frame]
    ensures Erred(handled + [h]) == Erred(handled) + if h.fate.Errored? then 1 else 0
    ensures CallsOf(handled + [h]) == CallsOf(handled) + CallsFor(h)
  {
    assert (handled + [h])[..|handled + [h]| - 1] == handled;
  }

  /** How many calls the frames lead to. */
  function CallCount(handled: seq<Handled>): nat
  {
    if handled == [] then 0
    else
      CallCount(handled[..|handled| - 1])
      + match handled[|handled| - 1].fate
        case Errored => 0
        case Unregistered => 1
        case _ => 2
  }

  /** Calls c and d offer the frame in its packet: less 4 bytes, in 32 bits where it has fewer than 4. */
  predicate Offers(h: Handled, c: Call, d: Call)
  {
    && c == AddDone(h.pkt, true)
    && d.TxUp? && d.pkt == h.pkt && d.bytes == h.frame.bytes && (d.taken <==> h.fate.Taken?)
    && if 4 <= h.frame.length then d.framelen + 4 == h.frame.length
       else d.framelen == 0x1_0000_0000 + h.frame.length - 4
  }

  lemma FrameCalls(h: Handled)
    ensures h.fate.Errored? ==> |CallsFor(h)| == 0
    ensures h.fate.Unregistered? ==> CallsFor(h) == [AddDone(h.pkt, false)]
    ensures h.fate.Taken? || h.fate.Refused? ==> |CallsFor(h)| == 2 && Offers(h, CallsFor(h)[0], CallsFor(h)[1])
  {
  }

  lemma {:induction false} CallsCounted(handled: seq<Handled>)
    ensures |CallsOf(handled)| == CallCount(handled)
  {
    if handled != [] {
      CallsCounted(handled[..|handled| - 1]);
      FrameCalls(handled[|handled| - 1]);
      hide CallsFor, Offers;
    }
  }

  /** The calls made are those of the frames, one frame after the other: two, one or none for each. */
  lemma {:induction false} CallsInOrder(handled: seq<Handled>, k: nat)
    requires k < |handled|
    ensures var calls, j := CallsOf(handled), CallCount(handled[..k]);
      && |calls| == CallCount(handled)
      && (handled[k].fate.Taken? || handled[k].fate.Refused? ==>
            j + 1 < |calls| && Offers(handled[k], calls[j], calls[j + 1]))
      && (handled[k].fate.Unregistered? ==> j < |calls| && calls[j] == AddDone(handled[k].pkt, false))
    decreases |handled|
  {
    var init, h := handled[..|handled| - 1], handled[|handled| - 1];
    CallsCounted(handled);
    CallsCounted(init);
    FrameCalls(h);
    hide CallsFor, Offers, CallCount;
    var calls := CallsOf(handled);
    assert calls == CallsOf(init) + CallsFor(h);
    if k < |init| {
      assert init[..k] == handled[..k];
      CallsInOrder(init, k);
    }
  }

  lemma AllOffered(handled: seq<Handled>)
    ensures |CallsOf(handled)| == CallCount(handled)
    ensures forall k :: 0 <= k < |handled| && (handled[k].fate.Taken? || handled[k].fate.Refused?) ==>
      var c := CallCount(handled[..k]) + 1;
      && c < |CallsOf(handled)| && CallsOf(handled)[c].TxUp?
      && CallsOf(handled)[c].pkt == handled[k].pkt && CallsOf(handled)[c].bytes == handled[k].frame.bytes
      && CallsOf(handled)[c].framelen + 4
      == handled[k].frame.length + if handled[k].frame.length < 4 then 0x1_0000_0000 else 0
  {
    if handled != [] {
      CallsInOrder(handled, 0);
    }
    hide CallsOf, CallCount;
    var calls := CallsOf(handled);
    forall k | 0 <= k < |handled| && (handled[k].fate.Taken? || handled[k].fate.Refused?)
      ensures var c := CallCount(handled[..k]); c + 1 < |calls| && Offers(handled[k], calls[c], calls[c + 1])
    {
      CallsInOrder(handled, k);
    }
  }

  /** Whatever is offered upstream is a frame that was handled. */
  lemma {:induction false} OfferedIsHandled(handled: seq<Handled>, j: nat)
    requires j < |CallsOf(handled)| && CallsOf(handled)[j].TxUp?
    ensures exists k | 0 <= k < |handled| :: 0 < j && Offers(handled[k], CallsOf(handled)[j - 1], CallsOf(handled)[j])
    decreases |handled|
  {
    var init, h := handled[..|handled| - 1], handled[|handled| - 1];
    if j < |CallsOf(init)| {
      OfferedIsHandled(init, j);
      var k :| 0 <= k < |init| && 0 < j && Offers(init[k], CallsOf(init)[j - 1], CallsOf(init)[j]);
      assert Offers(handled[k], CallsOf(handled)[j - 1], CallsOf(handled)[j]);
    } else {
      assert Offers(handled[|init|], CallsOf(handled)[j - 1], CallsOf(handled)[j]);
    }
  }

  /** Exactly the frames with errors are dropped. */
  ghost predicate FatesOk(handled: seq<Handled>)
  {
    forall h :: h in handled ==> (h.fate.Errored? <==> h.frame.err)
  }

  lemma {:induction false} ErredNone(handled: seq<Handled>)
    requires FatesOk(handled)
    ensures Erred(handled) == 0 <==> forall h :: h in handled ==> !h.frame.err
  {
    if handled != [] {
      var init, h := handled[..|handled| - 1], handled[|handled| - 1];
      ErredNone(init);
      assert handled == init + [h] && h in handled;
    }
  }

  /** A packet that has gone upstream. */
  datatype Delivery = Delivery(pkt: nat, framelen: nat, bytes: seq<Byte>)

  function Delivered(calls: seq<Call>): seq<Delivery>
  {
    if calls == [] then [] else Delivered(calls[..|calls| - 1]) + DeliveredBy(calls[|calls| - 1])
  }

  function DeliveredBy(c: Call): seq<Delivery>
  {
    if c.TxUp? && c.taken then [Delivery(c.pkt, c.framelen, c.bytes)] else []
  }

  /** The frames that were taken, each in its packet. */
  function TakenUp(handled: seq<Handled>): seq<Delivery>
  {
    if handled == [] then [] else TakenUp(handled[..|handled| - 1]) + TakenFor(handled[|handled| - 1])
  }

  function TakenFor(h: Handled): seq<Delivery>
  {
    if h.fate.Taken? then [Delivery(h.pkt, PassedLength(h.frame), h.frame.bytes)] else []
  }

  lemma DeliveredSnoc(calls: seq<Call>, c: Call)
    ensures Delivered(calls + [c]) == Delivered(calls) + DeliveredBy(c)
  {
    assert (calls + [c])[..|calls + [c]| - 1] == calls;
  }

  lemma DeliveredFor(calls: seq<Call>, h: Handled)
    ensures Delivered(calls + CallsFor(h)) == Delivered(calls) + TakenFor(h)
  {
    var cs := CallsFor(h);
    hide Delivered, PassedLength;
    if cs == [] {
      assert calls + cs == calls;
    } else if |cs| == 1 {
      assert calls + cs == calls + [cs[0]];
      DeliveredSnoc(calls, cs[0]);
    } else {
      assert calls + cs == calls + [cs[0]] + [cs[1]];
      DeliveredSnoc(calls, cs[0]);
      DeliveredSnoc(calls + [cs[0]], cs[1]);
    }
  }

  /** What has gone upstream are the frames that were taken, in order. */
  lemma {:induction false} DeliveredIsTaken(handled: seq<Handled>)
    ensures Delivered(CallsOf(handled)) == TakenUp(handled)
  {
    if handled != [] {
      hide CallsFor, TakenFor, DeliveredBy;
      DeliveredIsTaken(handled[..|handled| - 1]);
      DeliveredFor(CallsOf(handled[..|handled| - 1]), handled[|handled| - 1]);
    }
  }

  class Receiver {
    const n: nat                        // num_rx_descriptors
    const bd: array<Descriptor>         // rx_bd
    const pktq: array<Option<nat>>      // rx_pktq
    var cidx: nat                       // rx_cidx
    var free: seq<nat>                  // rx_free_pkt_q
    var numFree: nat                    // num_rx_free

    var place: seq<Place>               // where each packet allocated so far is
    var addr: seq<nat>                  // where its buffer lies
    var mem: map<nat, seq<Byte>>        // what the buffers hold
    var engine: nat                     // where the DMA engine looks next
    var traffic: nat                    // frames still to come from the network
    ghost var pending: seq<Frame>       // delivered into the ring, not yet handled
    ghost var open: bool                // the slot before cidx is being refilled
    ghost var current: seq<Frame>       // the frame being handled, if any
    ghost var handled: seq<Handled>
    ghost var arrived: seq<Frame>
    ghost var calls: seq<Call>          // made by the receiving thread

    predicate Shape()
    {
      16 <= n == bd.Length == pktq.Length
    }

    ghost predicate RingsOk()
      reads `cidx, `engine, `place, `addr, `pending, `open, bd, pktq
    {
      && Shape() && RingOk(addr, n, bd[..], pktq[..], cidx, engine, place, pending, open)
      && PlacesOk(n, pktq[..], place)
    }

    ghost predicate ListsOk()
      reads `free, `numFree, `place, `arrived, `handled, `current, `pending
    {
      && FreeOk(n, free, place) && numFree == |free|
      && arrived == Frames(handled) + current + pending
    }

    ghost predicate BuffersOk()
      reads `cidx, `place, `addr, `mem, `pending, pktq
    {
      |addr| == |place| && Apart(addr, place) && Stored(addr, n, pktq[..], cidx, mem, pending)
    }

    /** What holds at every moment. */
    ghost predicate Inv()
      reads `cidx, `engine, `place, `addr, `pending, `open, `mem, `free, `numFree, `arrived, `handled,
        `current, bd, pktq
    {
      RingsOk() && ListsOk() && BuffersOk()
    }

    /** The state between two calls into the driver. */
    ghost predicate Valid()
      reads this, bd, pktq
    {
      && Inv() && !open && current == [] && FatesOk(handled)
      && Tally(place, Ring(0)) == n && Tally(place, Hand) == 0 && Tally(place, Lost) == Erred(handled)
      && calls == CallsOf(handled)
    }

    /** The rings' memory, nothing in it yet. */
    constructor (size: nat, traffic: nat)
      requires 16 <= size
      ensures Blank() && fresh(bd) && fresh(pktq) && n == size
    {
      n := size;
      bd := new Descriptor[size];
      pktq := new Option<nat>[size];
      cidx, free, numFree, engine, place, addr, mem, calls := 0, [], 0, 0, [], [], map[], [];
      this.traffic := traffic;
      pending, open, current, handled, arrived := [], false, [], [], [];
    }

    ghost predicate Blank()
      reads this
    {
      && Shape() && cidx == 0 && free == [] && numFree == 0 && place == [] && addr == [] && engine == 0
      && calls == [] && pending == [] && !open && current == [] && handled == [] && arrived == []
    }

    /** Slot i is armed with packet i, for the slots before k. */
    ghost predicate ArmedTo(k: nat)
      reads `place, `addr, bd, pktq
    {
      && Shape() && |place| == k <= n && Apart(addr, place)
      && (forall s :: 0 <= s < k ==> place[s] == Ring(s) && pktq[s] == Some(s))
      && (forall s :: 0 <= s < k ==> bd[s] == Descriptor(addr[s], 0, Status(true, s == n - 1, false)))
    }

    /**
     mx35_fec_init_list for the receive side: slot i is armed with packet i; the free list starts
     empty. An allocation that fails ends it with an error, the slots before it filled.
     */
    method InitList() returns (ok: bool)
      requires Blank()
      modifies this`place, this`addr, bd, pktq
      ensures ok ==> Valid() && ArmedTo(n)
      ensures !ok ==> |place| < n && ArmedTo(|place|)
    {
      hide Valid;
      for i := 0 to n
        modifies this`place, this`addr, bd, pktq
        invariant ArmedTo(i)
      {
        var memory := Allocate();
        if memory == None {
          return false;
        }
        InitSlot(i, memory.value);
      }
      AllArmed();
      ok := true;
    }

    /** mx35_fec_alloc_npkt: memory, if there is some, is memory nobody else has. */
    method Allocate() returns (memory: Option<nat>)
      ensures memory.Some? ==> Unused(addr, place, memory.value)
    {
      memory := *;
      if memory.Some? && !Unused(addr, place, memory.value) {
        memory := None;
      }
    }

    method InitSlot(i: nat, memory: nat)
      requires ArmedTo(i) && i < n && Unused(addr, place, memory)
      modifies this`place, this`addr, bd, pktq
      ensures ArmedTo(i + 1)
    {
      var npkt := |place|;
      bd[i] := bd[i].(status := Status(true, i == n - 1, false));
      pktq[i] := Some(npkt);
      place, addr := place + [Ring(i)], addr + [memory];
      bd[i] := bd[i].(buffer := addr[npkt]);
      bd[i] := bd[i].(length := 0);
    }

    lemma AllArmed()
      requires ArmedTo(n) && cidx == 0 && free == [] && numFree == 0 && engine == 0
      requires pending == [] && !open && current == [] && handled == [] && arrived == [] && calls == []
      ensures Valid()
    {
      TallyRing(place);
    }

    /** Every packet allocated is in the ring, on the free list, upstream, released, or lost to an errored frame. */
    lemma Accounted()
      requires Valid()
      ensures |place| == n + numFree + Tally(place, Up) + Tally(place, Freed) + Erred(handled)
      ensures numFree <= n
    {
      TallyTotal(place);
    }

    /**
     Frames are handled in the order they arrived, each once; exactly those with errors are not
     offered; and exactly those that were taken have gone upstream, in order, whole, each in the
     packet it was received in, with its length less the CRC.
     */
    lemma HandledInOrder()
      requires Valid()
      ensures |calls| == CallCount(handled)
      ensures Frames(handled) <= arrived && FatesOk(handled)
      ensures calls == CallsOf(handled) && Delivered(calls) == TakenUp(handled)
      ensures forall k :: 0 <= k < |handled| && (handled[k].fate.Taken? || handled[k].fate.Refused?) ==>
        var c := CallCount(handled[..k]) + 1;
        && c < |calls| && calls[c].TxUp? && calls[c].pkt == handled[k].pkt && calls[c].bytes == handled[k].frame.bytes
        && calls[c].framelen + 4 == handled[k].frame.length + if handled[k].frame.length < 4 then 0x1_0000_0000 else 0
    {
      hide RingsOk, BuffersOk, FreeOk, Tally, Erred, FatesOk, CallsOf, CallCount, Delivered, TakenUp;
      assert arrived == Frames(handled) + pending;
      DeliveredIsTaken(handled);
      AllOffered(handled);
    }

    /** No packet is lost exactly if no frame had an error. */
    lemma NoneLost()
      requires Valid()
      ensures Tally(place, Lost) == 0 <==> forall h :: h in handled ==> !h.frame.err
    {
      ErredNone(handled);
    }

    /** A single errored frame loses a packet. */
    lemma OneLost(h: Handled)
      requires Valid() && handled == [h] && h.frame.err
      ensures Tally(place, Lost) == 1 && |place| == n + numFree + Tally(place, Up) + Tally(place, Freed) + 1
    {
      HandledSnoc([], h);
      assert [] + [h] == [h] && h in handled;
      Accounted();
    }

    /** At every moment, a buffer the engine may write belongs to a packet in that slot, in nobody else's hands. */
    lemma EngineOwnsBuffer(s: nat, p: nat)
      requires Inv() && s < n && bd[s].status.e
      requires p < |place| && place[p] != Freed && addr[p] == bd[s].buffer
      ensures place[p] == Ring(s) && p !in free
    {
      assert SlotOk(addr, n, bd[..][s], pktq[..][s], s, Off(n, cidx, s), place, pending, open);
    }

    /** Packets in the driver's hands or in the ring stay put, and the bookkeeping of those kinds too. */
    twostate predicate Steady()
      reads `place, `addr, `mem, `pending, `traffic
    {
      && |old(place)| <= |place|
      && (forall p :: 0 <= p < |old(place)| && (old(place)[p].Ring? || old(place)[p] == Hand) ==>
            place[p] == old(place)[p])
      && (forall k :: k == Ring(0) || k == Hand || k == Lost ==> Tally(place, k) == Tally(old(place), k))
      && old(pending) <= pending && traffic + |pending| == old(traffic) + |old(pending)|
      && old(addr) <= addr
      && (forall p :: 0 <= p < |old(place)| && p < |old(addr)| && old(place)[p] == Hand ==>
            At(mem, addr[p]) == At(old(mem), addr[p]))
    }

    /** Others have run, and touched no descriptor that was not armed. */
    twostate predicate OthersRan()
      reads `place, `addr, `mem, `pending, `traffic, bd
    {
      && Steady()
      && (forall s :: 0 <= s < bd.Length && !old(bd[s].status.e) ==> bd[s] == old(bd[s]))
    }

    /** The DMA engine stores one frame, into a buffer that is in the ring and nowhere else. */
    method EngineOne(f: Frame)
      requires Inv() && bd[engine].status.e && 0 < traffic
      modifies this`engine, this`pending, this`arrived, this`traffic, this`mem, bd
      ensures Inv() && OthersRan()
      ensures pending == old(pending) + [f] && bd[old(engine)].buffer == old(bd[engine].buffer)
      ensures mem == old(mem)[bd[old(engine)].buffer := f.bytes]
      ensures exists p :: 0 <= p < |place| && place[p] == Ring(old(engine)) && bd[old(engine)].buffer == addr[p]
    {
      hide RingOk, PlacesOk, FreeOk, Tally, Apart, Stored, At;
      Bounds();
      ghost var before := bd[..];
      var d := Descriptor(bd[engine].buffer, f.length, Status(false, bd[engine].status.w, f.err));
      EngineFills(addr, n, before, pktq[..], cidx, engine, place, pending, open, f, d);
      StoredFill(addr, n, before, pktq[..], cidx, engine, place, mem, pending, open, f);
      mem := mem[bd[engine].buffer := f.bytes];
      bd[engine] := d;
      assert bd[..] == before[engine := d];
      engine := if d.status.w then 0 else engine + 1;
      traffic := traffic - 1;
      pending, arrived := pending + [f], arrived + [f];
    }

    /** Tallies after packet p moved to x. */
    twostate predicate Moved(p: nat, x: Place)
      reads `place
    {
      && p < |old(place)| && place == old(place)[p := x]
      && forall k :: k == Ring(0) || k == Hand || k == Lost ==>
           Tally(place, k) == Tally(old(place), k) - (if Kind(old(place)[p]) == k then 1 else 0)
                              + (if Kind(x) == k then 1 else 0)
    }

    /** A packet outside ring and free list goes to another such place. */
    method Put(p: nat, x: Place)
      requires Inv() && p < |place| && (place[p] == Up || place[p] == Hand) && !x.Ring? && x != Free
      modifies this`place
      ensures Inv() && Moved(p, x)
    {
      RingIgnoresMove(addr, n, bd[..], pktq[..], cidx, engine, place, pending, open, p, x);
      FreeIgnoresMove(n, free, place, p, x);
      ApartMove(addr, place, p, x);
      forall k | k == Ring(0) || k == Hand || k == Lost
        ensures Tally(place[p := x], k) == Tally(place, k) - (if Kind(place[p]) == k then 1 else 0)
                                           + (if Kind(x) == k then 1 else 0)
      {
        TallyMove(place, p, x, k);
      }
      hide RingOk, PlacesOk, FreeOk, Tally, Apart, Stored, At;
      place := place[p := x];
    }

    /** mx35_fec_receive_complete: onto the free list while there is room, else released. */
    method ReceiveComplete(p: nat)
      requires Inv() && p < |place| && (place[p] == Up || place[p] == Hand)
      modifies this`place, this`free, this`numFree
      ensures Inv() && Moved(p, if old(numFree) < n then Free else Freed)
      ensures free == if old(numFree) < n then [p] + old(free) else old(free)
    {
      hide RingOk, PlacesOk, FreeOk, Tally, Apart, Stored, At;
      if numFree < n {
        RingIgnoresMove(addr, n, bd[..], pktq[..], cidx, engine, place, pending, open, p, Free);
        FreePushed(n, free, place, p);
        ApartMove(addr, place, p, Free);
        forall k | k == Ring(0) || k == Hand || k == Lost
          ensures Tally(place[p := Free], k) == Tally(place, k) - (if Kind(place[p]) == k then 1 else 0)
        {
          TallyMove(place, p, Free, k);
        }
        free := [p] + free;
        numFree := numFree + 1;
        place := place[p := Free];
      } else {
        Put(p, Freed);
      }
    }

    /** Packet p, free or new, came into the driver's hands. */
    twostate predicate Fetched(p: nat)
      reads `place, `addr
    {
      && |old(place)| <= |place| && p < |place| && place[p] == Hand && old(addr) <= addr
      && (p < |old(place)| ==> old(place)[p] == Free)
      && (forall q :: 0 <= q < |old(place)| && q != p ==> place[q] == old(place)[q])
      && Tally(place, Hand) == Tally(old(place), Hand) + 1
      && Tally(place, Ring(0)) == Tally(old(place), Ring(0))
      && Tally(place, Lost) == Tally(old(place), Lost)
    }

    /** Takes a packet off the free list, or allocates one if memory allows. */
    method TakePacket(memory: Option<nat>) returns (p: Option<nat>)
      requires Inv() && (memory.Some? ==> Unused(addr, place, memory.value))
      modifies this`place, this`addr, this`free, this`numFree
      ensures Inv() && |old(place)| <= |place|
      ensures p == None <==> old(free) == [] && memory == None
      ensures p == None ==> place == old(place) && free == old(free) && addr == old(addr)
      ensures p.Some? ==> Fetched(p.value)
    {
      hide RingOk, PlacesOk, FreeOk, Tally, Apart, Stored, At;
      if free != [] {
        var q := free[0];
        FreePopped(n, free, place);
        RingIgnoresMove(addr, n, bd[..], pktq[..], cidx, engine, place, pending, open, q, Hand);
        TallyMove(place, q, Hand, Hand);
        TallyMove(place, q, Hand, Ring(0));
        TallyMove(place, q, Hand, Lost);
        ApartMove(addr, place, q, Hand);
        free := free[1..];
        numFree := numFree - 1;
        place := place[q := Hand];
        p := Some(q);
      } else if memory.Some? {
        RingIgnoresAlloc(addr, n, bd[..], pktq[..], cidx, engine, place, pending, open, memory.value);
        ApartAlloc(addr, place, memory.value);
        StoredAlloc(addr, n, bd[..], pktq[..], cidx, engine, place, mem, pending, open, memory.value);
        FreeIgnoresAlloc(n, free, place);
        TallySnoc(place, Hand, Hand);
        TallySnoc(place, Hand, Ring(0));
        TallySnoc(place, Hand, Lost);
        p := Some(|place|);
        place, addr := place + [Hand], addr + [memory.value];
      } else {
        p := None;
      }
    }

    /** Somebody writes to memory: upstream to a packet it has, anyone to what is no packet's buffer. */
    method Overwrite(a: nat, bytes: seq<Byte>)
      requires Inv()
      requires forall p :: 0 <= p < |place| && p < |addr| && (place[p].Ring? || place[p] == Hand) ==> addr[p] != a
      modifies this`mem
      ensures Inv() && mem == old(mem)[a := bytes] && OthersRan()
    {
      StoredWrite(addr, n, bd[..], pktq[..], cidx, engine, place, mem, pending, open, a, bytes);
      hide RingOk, PlacesOk, FreeOk, Tally, Apart, Stored, At;
      mem := mem[a := bytes];
    }

    /** The buffer of an advertisement is no other packet's. */
    lemma OwnBuffer(p: nat)
      requires Apart(addr, place) && p < |place| && place[p] == Hand
      ensures p < |addr|
      ensures forall q :: 0 <= q < |place| && q < |addr| && q != p && (place[q].Ring? || place[q] == Hand) ==>
        addr[q] != addr[p]
    {
    }

    /** The message of an advertisement is written into its packet. */
    method Compose(p: nat, message: seq<Byte>)
      requires Inv() && p < |place| && place[p] == Hand
      modifies this`mem
      ensures Inv()
      ensures forall q :: 0 <= q < |place| && q < |addr| && q != p && place[q] == Hand ==>
        At(mem, addr[q]) == At(old(mem), addr[q])
    {
      OwnBuffer(p);
      hide FreeOk, Tally, PlacesOk;
      forall s | 0 <= s < n && Off(n, cidx, s) < |pending| && pktq[..][s].Some? && pktq[..][s].value < |addr|
        ensures addr[pktq[..][s].value] != addr[p]
      {
        assert SlotOk(addr, n, bd[..][s], pktq[..][s], s, Off(n, cidx, s), place, pending, open);
      }
      mem := mem[addr[p] := message];
    }

    /** A packet with the advertisement, if there is one to be had. */
    method Announce(message: seq<Byte>) returns (npkt: Option<nat>)
      requires Inv()
      modifies this`place, this`addr, this`mem, this`free, this`numFree
      ensures Inv() && |old(place)| <= |place| && old(addr) <= addr
      ensures npkt == None ==> place == old(place)
      ensures npkt.Some? ==> Fetched(npkt.value)
      ensures forall p :: 0 <= p < |old(place)| && p < |old(addr)| && old(place)[p] == Hand ==>
        At(mem, addr[p]) == At(old(mem), addr[p])
    {
      hide RingOk, PlacesOk, FreeOk, Tally, Apart, Stored, At;
      var memory := Allocate();
      npkt := TakePacket(memory);
      if npkt.Some? {
        Compose(npkt.value, message);
      }
    }

    /** mx35_fec_advertise: a packet made up by the driver goes upstream, or comes straight back. */
    method Advertise(message: seq<Byte>, registered: bool, taken: bool)
      requires Inv()
      modifies this`place, this`addr, this`mem, this`free, this`numFree
      ensures Inv() && OthersRan()
    {
      hide RingOk, PlacesOk, FreeOk, Tally, Apart, Stored, At;
      var npkt := Announce(message);
      if npkt == None {
        return;
      }
      if registered && taken {
        Put(npkt.value, Up);
      } else {
        ReceiveComplete(npkt.value);
      }
    }

    /** Everybody else runs: the DMA engine, upstream threads, the advertiser. */
    method World()
      requires Inv()
      modifies this`engine, this`pending, this`arrived, this`traffic, this`place, this`addr, this`mem, this`free
      modifies this`numFree, bd
      ensures Inv() && OthersRan()
    {
      hide RingOk, PlacesOk, FreeOk, Tally, Apart, Stored, At;
      var budget: nat := *;
      while 0 < budget
        invariant Inv() && OthersRan()
      {
        Bounds();
        var who: nat, p: nat, f: Frame, a: nat, bytes: seq<Byte> := *, *, *, *, *;
        var registered: bool, taken: bool := *, *;
        if who == 0 && bd[engine].status.e && 0 < traffic {
          EngineOne(f);
        } else if who == 1 && p < |place| && place[p] == Up {
          ReceiveComplete(p);
        } else if who == 2 {
          Advertise(bytes, registered, taken);
        } else if who == 3 && forall q :: 0 <= q < |place| && q < |addr| && (place[q].Ring? || place[q] == Hand) ==>
              addr[q] != a {
          Overwrite(a, bytes);
        }
        budget := budget - 1;
      }
    }

    lemma Bounds()
      requires RingsOk()
      ensures cidx < n && engine < n
    {
    }

    /** A descriptor found not empty holds the oldest frame not yet handled, and its packet. */
    lemma HeadDelivered()
      requires RingsOk() && !open && cidx < n && !bd[cidx].status.e
      ensures pending != [] && bd[cidx].length == pending[0].length && bd[cidx].status.err == pending[0].err
      ensures pktq[cidx].Some? && pktq[cidx].value < |place| && place[pktq[cidx].value] == Ring(cidx)
    {
      assert SlotOk(addr, n, bd[..][cidx], pktq[..][cidx], cidx, Off(n, cidx, cidx), place, pending, open);
    }

    /** While the slot is open the engine leaves it alone. */
    lemma OpenSlot()
      requires RingsOk() && open
      ensures cidx < n && !bd[Slot(n, cidx, n - 1)].status.e
      ensures bd[Slot(n, cidx, n - 1)].status.w <==> Slot(n, cidx, n - 1) == n - 1
    {
      var s := Slot(n, cidx, n - 1);
      assert SlotOk(addr, n, bd[..][s], pktq[..][s], s, Off(n, cidx, s), place, pending, open);
    }

    /** Takes the delivered packet out of its slot and moves on to the next. */
    method OpenHead() returns (npkt: nat)
      requires Inv() && !open && current == [] && cidx < n && !bd[cidx].status.e
      modifies this`cidx, this`place, this`open, this`current, this`pending, pktq
      ensures Inv() && open && cidx < n && old(cidx) == Slot(n, cidx, n - 1) && pktq[old(cidx)] == None
      ensures current + pending == old(pending) && |current| == 1
      ensures |place| == |old(place)| && npkt < |place| && place == old(place)[npkt := Hand]
      ensures Tally(place, Hand) == Tally(old(place), Hand) + 1
      ensures Tally(place, Ring(0)) == Tally(old(place), Ring(0)) - 1
      ensures Tally(place, Lost) == Tally(old(place), Lost)
      ensures old(place)[npkt].Ring? && old(pktq[cidx]) == Some(npkt)
      ensures npkt < |addr| && At(mem, addr[npkt]) == current[0].bytes
    {
      hide RingOk, PlacesOk, FreeOk, Tally, Apart, Stored, At;
      HeadDelivered();
      OffNext(n, cidx, cidx);
      npkt := pktq[cidx].value;
      SlotOpens(addr, n, bd[..], pktq[..], cidx, engine, place, pending, npkt);
      StoredOpen(addr, n, pktq[..], cidx, mem, pending);
      FreeIgnoresMove(n, free, place, npkt, Hand);
      ApartMove(addr, place, npkt, Hand);
      TallyMove(place, npkt, Hand, Hand);
      TallyMove(place, npkt, Hand, Ring(0));
      TallyMove(place, npkt, Hand, Lost);
      ghost var before := pktq[..];
      pktq[cidx] := None;
      assert pktq[..] == before[cidx := None];
      cidx := (cidx + 1) % n;
      place := place[npkt := Hand];
      open, current, pending := true, pending[..1], pending[1..];
    }

    /** Others run, then buffer or length of the open slot is stored. */
    method FillSlot(idx: nat, buffer: nat, length: Length)
      requires Inv() && open && cidx < n && idx == Slot(n, cidx, n - 1)
      modifies this`engine, this`pending, this`arrived, this`traffic, this`place, this`addr, this`mem, this`free
      modifies this`numFree, bd
      ensures Inv() && Steady() && bd[idx].buffer == buffer && bd[idx].length == length
    {
      hide RingOk, PlacesOk, FreeOk, Tally, Apart, Stored, At;
      OpenSlot();
      World();
      var d := Descriptor(buffer, length, bd[idx].status);
      OpenSlotWrite(addr, n, bd[..], pktq[..], cidx, engine, place, pending, d);
      ghost var before := bd[..];
      bd[idx] := d;
      assert bd[..] == before[idx := d];
    }

    /** Others run, then the E flag hands the slot to the engine. */
    method ArmSlot(npkt: nat, idx: nat)
      requires Inv() && open && cidx < n && idx == Slot(n, cidx, n - 1)
      requires npkt < |place| && place[npkt] == Ring(idx) && pktq[idx] == Some(npkt) && bd[idx].buffer == addr[npkt]
      modifies this`engine, this`pending, this`arrived, this`traffic, this`place, this`addr, this`mem, this`free
      modifies this`numFree, this`open, bd
      ensures Inv() && Steady() && !open
    {
      hide RingOk, PlacesOk, FreeOk, Tally, Apart, Stored, At;
      OpenSlot();
      World();
      var d := bd[idx].(status := Status(true, idx == n - 1, false));
      SlotArmed(addr, n, bd[..], pktq[..], cidx, engine, place, pending, npkt, d);
      ghost var before := bd[..];
      bd[idx] := d;
      assert bd[..] == before[idx := d];
      open := false;
    }

    lemma OpenRoom()
      requires RingsOk() && open
      ensures cidx < n && |pending| < n == pktq.Length
    {
    }

    /** mx35_fec_add_pkt: puts a packet into the open slot and arms it, E last. */
    method AddPkt(npkt: nat, idx: nat)
      requires Inv() && open && cidx < n && idx == Slot(n, cidx, n - 1) && pktq[idx] == None
      requires npkt < |place| && place[npkt] == Hand
      modifies this`engine, this`pending, this`arrived, this`traffic, this`place, this`addr, this`mem, this`free
      modifies this`numFree, this`open, bd, pktq
      ensures Inv() && !open && |old(place)| <= |place|
      ensures pktq[idx] == Some(npkt) && place[npkt] == Ring(idx)
      ensures forall q :: 0 <= q < |old(place)| && q != npkt && old(place)[q] == Hand ==> place[q] == Hand
      ensures Tally(place, Hand) == Tally(old(place), Hand) - 1
      ensures Tally(place, Ring(0)) == Tally(old(place), Ring(0)) + 1
      ensures Tally(place, Lost) == Tally(old(place), Lost)
      ensures traffic + |pending| == old(traffic) + |old(pending)|
    {
      hide RingOk, PlacesOk, FreeOk, Tally, Apart, Stored, At;
      SlotRefilled(addr, n, bd[..], pktq[..], cidx, engine, place, pending, npkt);
      FreeIgnoresMove(n, free, place, npkt, Ring(idx));
      ApartMove(addr, place, npkt, Ring(idx));
      OpenRoom();
      StoredRefill(addr, n, pktq[..], cidx, mem, pending, npkt);
      TallyMove(place, npkt, Ring(idx), Hand);
      TallyMove(place, npkt, Ring(idx), Ring(0));
      TallyMove(place, npkt, Ring(idx), Lost);
      ghost var before := pktq[..];
      pktq[idx] := Some(npkt);
      assert pktq[..] == before[idx := Some(npkt)];
      place := place[npkt := Ring(idx)];
      FillSlot(idx, addr[npkt], bd[idx].length);
      FillSlot(idx, addr[npkt], 0);
      ArmSlot(npkt, idx);
    }

    /** Records what became of the current frame. */
    ghost method Settle(npkt: nat, fate: Fate)
      requires Inv() && |current| == 1 && FatesOk(handled)
      requires fate.Errored? <==> current[0].err
      requires calls == CallsOf(handled) + CallsFor(Handled(current[0], npkt, fate))
      modifies this`current, this`handled
      ensures Inv() && current == [] && FatesOk(handled) && calls == CallsOf(handled)
      ensures handled == old(handled) + [Handled(old(current)[0], npkt, fate)]
      ensures Erred(handled) == Erred(old(handled)) + if fate.Errored? then 1 else 0
    {
      hide RingOk, PlacesOk, FreeOk, Apart, Stored, Erred, CallsOf;
      HandledSnoc(handled, Handled(current[0], npkt, fate));
      handled, current := handled + [Handled(current[0], npkt, fate)], [];
    }

    /** ion_add_done: the packet is registered for its completion, or not. */
    method Register(npkt: nat) returns (ok: bool)
      modifies this`calls
      ensures calls == old(calls) + [AddDone(npkt, ok)]
    {
      ok := *;
      calls := calls + [AddDone(npkt, ok)];
    }

    /** tx_up: upstream sees the packet as it is, and takes it or not. */
    method Offer(npkt: nat, framelen: nat) returns (taken: bool)
      requires Inv() && npkt < |place| && place[npkt] == Hand
      modifies this`place, this`calls
      ensures Inv() && Moved(npkt, if taken then Up else Hand)
      ensures calls == old(calls) + [TxUp(npkt, framelen, At(mem, addr[npkt]), taken)]
    {
      hide RingOk, PlacesOk, FreeOk, Tally, Apart, Stored, At;
      taken := *;
      calls := calls + [TxUp(npkt, framelen, At(mem, addr[npkt]), taken)];
      Put(npkt, if taken then Up else Hand);
    }

    /** While a frame is handled: its packet and the replacement are in hand, its slot is open. */
    ghost predicate Handling(npkt: nat, new_: nat, idx: nat)
      reads `cidx, `engine, `place, `addr, `pending, `open, `mem, `free, `numFree, `arrived, `handled,
        `current, bd, pktq, `calls
    {
      && Inv() && open && |current| == 1 && FatesOk(handled) && calls == CallsOf(handled)
      && cidx < n && idx == Slot(n, cidx, n - 1) && pktq[idx] == None
      && npkt < |place| && place[npkt] == Hand && new_ < |place| && place[new_] == Hand && npkt != new_
      && At(mem, addr[npkt]) == current[0].bytes
      && Tally(place, Ring(0)) == n - 1 && Tally(place, Hand) == 2 && Tally(place, Lost) == Erred(handled)
    }

    /** An errored frame: its packet is armed again, and the replacement is forgotten. */
    method DropFrame(npkt: nat, new_: nat, idx: nat)
      requires Handling(npkt, new_, idx) && current[0].err
      modifies this, bd, pktq
      ensures Valid() && traffic + |pending| == old(traffic) + |old(pending)|
      ensures handled == old(handled) + [Handled(old(current)[0], npkt, Errored)]
      ensures idx < pktq.Length && pktq[idx] == Some(npkt) && npkt < |place| && place[npkt] == Ring(idx)
      ensures new_ < |place| && place[new_] == Lost && Tally(place, Lost) == Tally(old(place), Lost) + 1
    {
      hide RingOk, PlacesOk, FreeOk, Tally, Apart, Stored, At, Erred, FatesOk, CallsOf;
      Settle(npkt, Errored);
      AddPkt(npkt, idx);
      Put(new_, Lost);
    }

    /** A packet goes up with its length, and comes back if it is not taken. */
    method PassUp(npkt: nat, framelen: nat) returns (fate: Fate)
      requires Inv() && npkt < |place| && place[npkt] == Hand
      modifies this`place, this`free, this`numFree, this`calls
      ensures Inv() && fate != Errored && |place| == |old(place)|
      ensures place == old(place)[npkt := if fate == Taken then Up else if old(numFree) < n then Free else Freed]
      ensures Tally(place, Hand) == Tally(old(place), Hand) - 1
      ensures Tally(place, Ring(0)) == Tally(old(place), Ring(0))
      ensures Tally(place, Lost) == Tally(old(place), Lost)
      ensures calls == old(calls) + match fate
        case Taken => [AddDone(npkt, true), TxUp(npkt, framelen, At(mem, addr[npkt]), true)]
        case Refused => [AddDone(npkt, true), TxUp(npkt, framelen, At(mem, addr[npkt]), false)]
        case _ => [AddDone(npkt, false)]
    {
      hide RingOk, PlacesOk, FreeOk, Tally, Apart, Stored, At;
      var ok := Register(npkt);
      if !ok {
        ReceiveComplete(npkt);
        return Unregistered;
      }
      var taken := Offer(npkt, framelen);
      if taken {
        return Taken;
      }
      ReceiveComplete(npkt);
      fate := Refused;
    }

    /** A good frame: its packet goes up with the frame's length; the replacement is armed. */
    method PassFrame(npkt: nat, new_: nat, idx: nat) returns (fate: Fate)
      requires Handling(npkt, new_, idx) && !current[0].err && bd[idx].length == current[0].length
      modifies this, bd, pktq
      ensures Valid() && traffic + |pending| == old(traffic) + |old(pending)|
      ensures handled == old(handled) + [Handled(old(current)[0], npkt, fate)]
      ensures idx < pktq.Length && pktq[idx] == Some(new_) && new_ < |place| && place[new_] == Ring(idx)
      ensures Tally(place, Lost) == Tally(old(place), Lost)
      ensures fate == Unregistered ==> calls == old(calls) + [AddDone(npkt, false)]
      ensures fate != Unregistered ==>
        && |calls| == |old(calls)| + 2 && old(calls) <= calls && calls[|old(calls)|] == AddDone(npkt, true)
        && var c, f := calls[|old(calls)| + 1], old(current)[0];
           && c.TxUp? && c.pkt == npkt && c.bytes == f.bytes && (c.taken <==> fate == Taken)
           && c.framelen + 4 == f.length + if f.length < 4 then 0x1_0000_0000 else 0
    {
      hide RingOk, PlacesOk, FreeOk, Tally, Apart, Stored, At, Erred, FatesOk, CallsOf;
      fate := PassUp(npkt, (bd[idx].length - CRC_LENGTH) % WORD);
      Settle(npkt, fate);
      AddPkt(new_, idx);
    }

    /** One round of mx35_fec_receive for a delivered frame, with a replacement packet at hand. */
    method HandleFrame(new_: nat)
      requires Inv() && !open && current == [] && FatesOk(handled) && cidx < n && !bd[cidx].status.e
      requires new_ < |place| && place[new_] == Hand && calls == CallsOf(handled)
      requires Tally(place, Ring(0)) == n && Tally(place, Hand) == 1 && Tally(place, Lost) == Erred(handled)
      modifies this, bd, pktq
      ensures Valid() && traffic + |pending| == old(traffic) + |old(pending)| - 1
      ensures |handled| == |old(handled)| + 1 && old(handled) <= handled && old(pending) != []
      ensures var h := handled[|old(handled)|];
        h.frame == old(pending)[0] && Some(h.pkt) == old(pktq[cidx]) && h.frame.err == old(bd[cidx].status.err)
      ensures pktq[old(cidx)] == if old(bd[cidx].status.err) then old(pktq[cidx]) else Some(new_)
      ensures Tally(place, Lost) == Tally(old(place), Lost) + if old(bd[cidx].status.err) then 1 else 0
    {
      hide RingOk, PlacesOk, FreeOk, Tally, Apart, Stored, At, Erred, FatesOk, CallsOf;
      HeadDelivered();
      var idx, status := cidx, bd[cidx].status;
      World();
      var npkt := OpenHead();
      World();
      if status.err {
        DropFrame(npkt, new_, idx);
      } else {
        var fate := PassFrame(npkt, new_, idx);
      }
    }

    /** The loop body of mx35_fec_receive. */
    method Round() returns (empty: bool, starved: bool)
      requires Valid()
      modifies this, bd, pktq
      ensures Valid() && old(handled) <= handled && (empty ==> pending == [])
      ensures !empty && !starved ==> traffic + |pending| < old(traffic) + |old(pending)|
    {
      hide RingOk, PlacesOk, FreeOk, Tally, Apart, Stored, At, Erred, FatesOk, CallsOf;
      empty, starved := false, false;
      World();
      Bounds();
      HeadEmpty();
      if bd[cidx].status.e {
        empty := true;
        return;
      }
      World();
      var memory := Allocate();
      var new_ := TakePacket(memory);
      if new_ == None {
        starved := true;
        return;
      }
      HandleFrame(new_.value);
    }

    /**
     mx35_fec_receive: handles delivered frames oldest first until it finds an armed descriptor,
     or until no replacement packet can be had, which it reports.
     */
    method Receive() returns (starved: bool)
      requires Valid()
      modifies this, bd, pktq
      ensures Valid() && old(handled) <= handled
      ensures !starved ==> pending == []
    {
      hide Valid;
      while true
        invariant Valid() && old(handled) <= handled
        decreases traffic + |pending|
      {
        var empty;
        empty, starved := Round();
        if empty || starved {
          return;
        }
      }
    }

    /** An armed descriptor at the consumer index means every delivered frame has been handled. */
    lemma HeadEmpty()
      requires RingsOk() && !open
      ensures cidx < n && (bd[cidx].status.e <==> pending == [])
    {
      assert SlotOk(addr, n, bd[..][cidx], pktq[..][cidx], cidx, Off(n, cidx, cidx), place, pending, open);
    }
  }
}
