/**
 What the MMC driver's bus traffic has to look like: a monitor for CMD12 after multi-block
 transfers, and the blocks a series of data commands covers.
 */
module MmcTrace {

  const WORD := 0x1_0000_0000
  const MAX_STOPS := 7

  /**
   * A data command: opcode, argument, first block, number of blocks, DMA address, several blocks,
   * stopped by the host.
   */
  datatype Data = Data(opcode: nat, arg: nat, block: nat, blocks: nat, buf: nat, multi: bool, auto: bool)

  /** Commands sent, error-free ends of CMD12, and requests posted as completed or failed. */
  datatype Event = Xfer(d: Data) | Stop | StopDone | Completed | Failed

  /** The monitor: Stopping(k) after k CMD12s that have not ended well. */
  datatype Watch = Free | NeedStop | Stopping(k: nat) | Bad

  function After(w: Watch, e: Event): Watch
  {
    match e
    case Xfer(d) => if w != Free then Bad else if d.multi && !d.auto then NeedStop else Free
    case Stop =>
      (match w
       case NeedStop => Stopping(1)
       case Stopping(k) => if k < MAX_STOPS then Stopping(k + 1) else Bad
       case _ => Bad)
    case StopDone => if w.Stopping? then Free else Bad
    case Completed => if w == Free then Free else Bad
    case Failed => if w == Bad then Bad else Free
  }

  function Watched(trace: seq<Event>): Watch
  {
    if trace == [] then Free else After(Watched(trace[..|trace| - 1]), trace[|trace| - 1])
  }

  lemma WatchedSnoc(trace: seq<Event>, e: Event)
    ensures Watched(trace + [e]) == After(Watched(trace), e)
  {
    assert (trace + [e])[..|trace + [e]| - 1] == trace;
  }

  /** A trace the monitor accepts was accepted all along. */
  lemma {:induction false} AcceptedBefore(trace: seq<Event>, n: nat)
    requires n <= |trace| && Watched(trace) != Bad
    ensures Watched(trace[..n]) != Bad
  {
    if n < |trace| {
      assert trace[..|trace| - 1][..n] == trace[..n];
      AcceptedBefore(trace[..|trace| - 1], n);
    } else {
      assert trace[..n] == trace;
    }
  }

  predicate Ends(e: Event)
  {
    e == StopDone || e == Failed
  }

  /** After a multi-block command the monitor waits until a CMD12 ends well or the request fails. */
  lemma {:induction false} WaitsForStop(trace: seq<Event>, i: nat)
    requires i < |trace| && Watched(trace) != Bad
    requires trace[i].Xfer? && trace[i].d.multi && !trace[i].d.auto
    requires forall k :: i < k < |trace| ==> !Ends(trace[k])
    ensures Watched(trace) == NeedStop || Watched(trace).Stopping?
  {
    if i < |trace| - 1 {
      var before := trace[..|trace| - 1];
      AcceptedBefore(trace, |trace| - 1);
      WaitsForStop(before, i);
    }
  }

  /**
   In an accepted trace, a multi-block command the host does not stop by itself is followed by an
   error-free CMD12 before the next data command and before the request completes, unless the
   request has failed in between.
   */
  lemma StopInBetween(trace: seq<Event>, i: nat, j: nat)
    requires i < j < |trace| && Watched(trace) != Bad
    requires trace[i].Xfer? && trace[i].d.multi && !trace[i].d.auto
    requires trace[j].Xfer? || trace[j] == Completed
    ensures exists k :: i < k < j && Ends(trace[k])
  {
    if forall k :: i < k < j ==> !Ends(trace[k]) {
      AcceptedBefore(trace, j);
      AcceptedBefore(trace, j + 1);
      assert trace[..j + 1] == trace[..j] + [trace[j]];
      WatchedSnoc(trace[..j], trace[j]);
      WaitsForStop(trace[..j], i);
    }
  }

  /**
   What directly follows such a command is CMD12 or the failure of its request. After a failure no
   CMD12 is sent for it any more.
   */
  lemma StopOrFailure(trace: seq<Event>, i: nat)
    requires i + 1 < |trace| && Watched(trace) != Bad
    requires trace[i].Xfer? && trace[i].d.multi && !trace[i].d.auto
    ensures trace[i + 1] == Stop || trace[i + 1] == Failed
    ensures trace[i + 1] == Failed && i + 2 < |trace| ==> trace[i + 2] != Stop && trace[i + 2] != StopDone
  {
    AcceptedAt(trace, i);
    AcceptedAt(trace, i + 1);
    if i + 2 < |trace| {
      AcceptedAt(trace, i + 2);
    }
  }

  lemma AcceptedAt(trace: seq<Event>, i: nat)
    requires i < |trace| && Watched(trace) != Bad
    ensures Watched(trace[..i]) != Bad && Watched(trace[..i + 1]) == After(Watched(trace[..i]), trace[i]) != Bad
  {
    AcceptedBefore(trace, i);
    AcceptedBefore(trace, i + 1);
    assert trace[..i + 1] == trace[..i] + [trace[i]];
    WatchedSnoc(trace[..i], trace[i]);
  }

  /** How many CMD12s the trace ends with. */
  function Stops(trace: seq<Event>): nat
  {
    if trace == [] || trace[|trace| - 1] != Stop then 0 else 1 + Stops(trace[..|trace| - 1])
  }

  /** No more than seven CMD12s in a row are ever sent, and every CMD12 has a transfer to stop. */
  lemma {:induction false} StopsBounded(trace: seq<Event>)
    requires Watched(trace) != Bad
    ensures Stops(trace) <= 7
    ensures Watched(trace).Stopping? ==> Stops(trace) == Watched(trace).k
    ensures !Watched(trace).Stopping? ==> Stops(trace) == 0
  {
    if trace != [] {
      StopsBounded(trace[..|trace| - 1]);
    }
  }

  // ----- Coverage

  /** n consecutive block numbers from first on, in 32 bits. */
  function Range(first: nat, n: nat): (r: seq<nat>)
    ensures |r| == n
  {
    seq(n, i requires 0 <= i < n => (first + i) % WORD)
  }

  /** The blocks a series of data commands transfers, in order. */
  function Blocks(xfers: seq<Data>): seq<nat>
  {
    if xfers == [] then []
    else
      var d := xfers[|xfers| - 1];
      Blocks(xfers[..|xfers| - 1]) + Range(d.block, d.blocks)
  }

  lemma ModShift(first: nat, n: nat, j: nat)
    ensures ((first + n) % WORD + j) % WORD == (first + n + j) % WORD
  {
  }

  /** A range continued where it left off. */
  lemma RangeJoin(first: nat, n: nat, m: nat)
    ensures Range(first, n) + Range((first + n) % WORD, m) == Range(first, n + m)
  {
    var whole, part := Range(first, n + m), Range((first + n) % WORD, m);
    forall j | 0 <= j < m
      ensures part[j] == whole[n + j]
    {
      ModShift(first, n, j);
    }
    assert forall i :: n <= i < n + m ==> (Range(first, n) + part)[i] == part[i - n] == whole[n + (i - n)];
  }

  /** The data commands in a trace. */
  function Sends(trace: seq<Event>): seq<Data>
  {
    if trace == [] then []
    else
      var e := trace[|trace| - 1];
      Sends(trace[..|trace| - 1]) + if e.Xfer? then [e.d] else []
  }

  lemma {:induction false} SendsAt(trace: seq<Event>, k: nat)
    requires k < |trace| && trace[k].Xfer?
    ensures trace[k].d in Sends(trace)
  {
    if k < |trace| - 1 {
      SendsAt(trace[..|trace| - 1], k);
    }
  }

  lemma SendsSnoc(trace: seq<Event>, e: Event)
    ensures Sends(trace + [e]) == Sends(trace) + if e.Xfer? then [e.d] else []
  {
    assert (trace + [e])[..|trace + [e]| - 1] == trace;
  }
}
