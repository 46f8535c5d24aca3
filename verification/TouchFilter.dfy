/**
 The MC13892 touch filter: a release test, a spread test on two samples per axis, and a hysteresis
 of two entries per axis that later samples are averaged with.
 */
module TouchFilter {

  const VARIANCE := 24
  const BOUND := 4 * VARIANCE

  type Slot = s: nat | s < 2

  function Abs(n: int): nat
  {
    if n < 0 then -n else n
  }

  /** Two raw readings of x, of y and of the resistance, 16 bits each. */
  datatype Sample = Sample(x0: nat, x1: nat, y0: nat, y1: nat, r0: nat, r1: nat) {
    /** All coordinates at most max. */
    predicate Within(max: nat) {
      x0 <= max && x1 <= max && y0 <= max && y1 <= max
    }
  }

  /** The hysteresis entries of one axis. */
  datatype Axis = Axis(h0: nat, h1: nat) {
    predicate Close() {
      Abs(h0 - h1) <= BOUND
    }

    predicate Within(max: nat) {
      h0 <= max && h1 <= max
    }

    /** Whether a pair of readings with this sum is near enough. */
    predicate Takes(sum: nat) {
      Abs(sum - (h0 + h1)) <= 8 * VARIANCE
    }

    function Average(sum: nat): nat {
      (h0 + h1 + sum) / 4
    }

    function Replaced(slot: Slot, v: nat): Axis {
      if slot == 0 then Axis(v, h1) else Axis(h0, v)
    }

    /** The entry that is replaced last. */
    function Newest(slot: Slot): nat {
      if slot == 0 then h1 else h0
    }
  }

  /** The filter: both axes, the entry replaced next, pen down. */
  datatype State = State(x: Axis, y: Axis, slot: Slot, down: bool) {
    predicate Close() {
      down ==> x.Close() && y.Close()
    }

    predicate Within(max: nat) {
      down ==> x.Within(max) && y.Within(max)
    }
  }

  predicate Released(s: Sample, threshold: int)
  {
    s.r0 > threshold || s.r1 > threshold
  }

  predicate Accepted(f: State, s: Sample, threshold: int)
  {
    && !Released(s, threshold)
    && Abs(s.x0 - s.x1) <= VARIANCE && Abs(s.y0 - s.y1) <= VARIANCE
    && (f.down ==> f.x.Takes(s.x0 + s.x1) && f.y.Takes(s.y0 + s.y1))
  }

  /** The report an accepted sample leads to. */
  function Report(f: State, s: Sample): (nat, nat)
  {
    if f.down then (f.x.Average(s.x0 + s.x1), f.y.Average(s.y0 + s.y1))
    else ((s.x0 + s.x1) / 2, (s.y0 + s.y1) / 2)
  }

  function Step(f: State, s: Sample, threshold: int): State
  {
    if Released(s, threshold) then f.(down := false)
    else if !Accepted(f, s, threshold) then f
    else
      var (x, y) := Report(f, s);
      if f.down then State(f.x.Replaced(f.slot, x), f.y.Replaced(f.slot, y), 1 - f.slot, true)
      else State(Axis(x, x), Axis(y, y), f.slot, true)
  }

  function Run(f: State, ss: seq<Sample>, threshold: int): State
  {
    if ss == [] then f else Step(Run(f, ss[..|ss| - 1], threshold), ss[|ss| - 1], threshold)
  }

  /** The last report of the touch the run ends in, if it ends in one. */
  function LastReport(f: State, ss: seq<Sample>, threshold: int): (r: (bool, nat, nat))
  {
    if ss == [] then (false, 0, 0)
    else
      var before, s := ss[..|ss| - 1], ss[|ss| - 1];
      var g := Run(f, before, threshold);
      if Released(s, threshold) then (false, 0, 0)
      else if Accepted(g, s, threshold) then (true, Report(g, s).0, Report(g, s).1)
      else LastReport(f, before, threshold)
  }

  /** A new entry stays near the one that remains. */
  lemma AverageClose(a: Axis, sum: nat)
    requires a.Close() && a.Takes(sum)
    ensures Abs(a.Average(sum) - a.h0) <= BOUND && Abs(a.Average(sum) - a.h1) <= BOUND
  {
  }

  lemma StepKeeps(f: State, s: Sample, threshold: int, max: nat)
    requires f.Close() && f.Within(max) && s.Within(max)
    ensures Step(f, s, threshold).Close() && Step(f, s, threshold).Within(max)
    ensures Accepted(f, s, threshold) ==> Report(f, s).0 <= max && Report(f, s).1 <= max
  {
    if f.down && Accepted(f, s, threshold) {
      AverageClose(f.x, s.x0 + s.x1);
      AverageClose(f.y, s.y0 + s.y1);
    }
  }

  /** Over any number of samples the two entries of an axis never drift apart by more than 96. */
  lemma {:induction false} RunKeeps(f: State, ss: seq<Sample>, threshold: int, max: nat)
    requires f.Close() && f.Within(max) && forall i :: 0 <= i < |ss| ==> ss[i].Within(max)
    ensures Run(f, ss, threshold).Close() && Run(f, ss, threshold).Within(max)
  {
    if ss != [] {
      RunKeeps(f, ss[..|ss| - 1], threshold, max);
      StepKeeps(Run(f, ss[..|ss| - 1], threshold), ss[|ss| - 1], threshold, max);
    }
  }

  /** The filter remembers the last report of the touch as its newest entry. */
  lemma {:induction false} NewestIsReported(f: State, ss: seq<Sample>, threshold: int)
    requires !f.down
    ensures var g, r := Run(f, ss, threshold), LastReport(f, ss, threshold);
      && g.down == r.0
      && (g.down ==> r.1 == g.x.Newest(g.slot) && r.2 == g.y.Newest(g.slot))
  {
    if ss != [] {
      NewestIsReported(f, ss[..|ss| - 1], threshold);
    }
  }

  /**
   Within a touch of any length, however many samples are rejected in between, the next report
   moves at most 96 in each direction from the one before.
   */
  lemma ReportsMoveSlowly(f: State, ss: seq<Sample>, next: Sample, threshold: int)
    requires !f.down
    requires LastReport(f, ss, threshold).0 && Accepted(Run(f, ss, threshold), next, threshold)
    ensures var r, n := LastReport(f, ss, threshold), Report(Run(f, ss, threshold), next);
      Abs(n.0 - r.1) <= 96 && Abs(n.1 - r.2) <= 96
  {
    hide Run, LastReport, Step;
    var g := Run(f, ss, threshold);
    Bounded(f, ss, threshold);
    NewestIsReported(f, ss, threshold);
    AverageClose(g.x, next.x0 + next.x1);
    AverageClose(g.y, next.y0 + next.y1);
  }

  lemma {:induction false} Bounded(f: State, ss: seq<Sample>, threshold: int)
    requires f.Close()
    ensures Run(f, ss, threshold).Close()
  {
    if ss != [] {
      Bounded(f, ss[..|ss| - 1], threshold);
      StepClose(Run(f, ss[..|ss| - 1], threshold), ss[|ss| - 1], threshold);
    }
  }

  lemma StepClose(f: State, s: Sample, threshold: int)
    requires f.Close()
    ensures Step(f, s, threshold).Close()
  {
    if f.down && Accepted(f, s, threshold) {
      AverageClose(f.x, s.x0 + s.x1);
      AverageClose(f.y, s.y0 + s.y1);
    }
  }

  // ----- A finger that stays put

  /** An axis and the entry replaced next. */
  datatype Turn = Turn(a: Axis, slot: Slot) {
    /** After two equal readings v. */
    function Read(v: nat): Turn {
      Turn(a.Replaced(slot, a.Average(2 * v)), 1 - slot)
    }

    /** Both entries at most e away from v. */
    predicate Near(v: nat, e: nat) {
      Abs(a.h0 - v) <= e && Abs(a.h1 - v) <= e
    }

    predicate Settled(v: nat) {
      a.h0 <= v <= a.h0 + 1 && a.h1 <= v <= a.h1 + 1
    }

    predicate Takes(v: nat) {
      a.Close() && a.Takes(2 * v)
    }
  }

  /** After n readings of v. */
  function Held(t: Turn, v: nat, n: nat): Turn
    decreases n
  {
    if n == 0 then t else Held(t.Read(v), v, n - 1)
  }

  lemma {:induction false} HeldOn(t: Turn, v: nat, m: nat, n: nat)
    ensures Held(t, v, m + n) == Held(Held(t, v, m), v, n)
    decreases m
  {
    hide Turn.Read;
    if m != 0 {
      HeldOn(t.Read(v), v, m - 1, n);
    }
  }

  lemma HeldStep(t: Turn, v: nat, n: nat)
    requires 0 < n
    ensures Held(t, v, n) == Held(t, v, n - 1).Read(v)
  {
    HeldOn(t, v, n - 1, 1);
    assert Held(Held(t, v, n - 1), v, 1) == Held(Held(t, v, n - 1).Read(v), v, 0);
  }

  lemma HeldTwo(t: Turn, v: nat)
    ensures Held(t, v, 2) == t.Read(v).Read(v)
  {
    assert Held(t, v, 2) == Held(t.Read(v), v, 1) == Held(t.Read(v).Read(v), v, 0);
  }

  /** Two readings halve the distance. */
  lemma TwoHalve(t: Turn, v: nat, e: nat)
    requires t.Near(v, e)
    ensures t.Read(v).Read(v).Near(v, (e + 1) / 2)
  {
  }

  lemma TwoSettle(t: Turn, v: nat)
    requires t.Near(v, 1)
    ensures t.Read(v).Read(v).Settled(v)
  {
  }

  /** From a distance of at most 2^k, 2k readings bring an axis to within one of the position. */
  lemma {:induction false} HeldNear(t: Turn, v: nat, e: nat, k: nat)
    requires t.Near(v, e) && e <= Power(k)
    ensures Held(t, v, 2 * k).Near(v, 1)
    decreases k
  {
    hide Turn.Read, Turn.Near;
    if k != 0 {
      HeldOn(t, v, 2, 2 * k - 2);
      HeldTwo(t, v);
      TwoHalve(t, v, e);
      HeldNear(t.Read(v).Read(v), v, (e + 1) / 2, k - 1);
    } else {
      Nearer(t, v, e);
    }
  }

  lemma Nearer(t: Turn, v: nat, e: nat)
    requires t.Near(v, e) && e <= 1
    ensures t.Near(v, 1)
  {
  }

  function Power(k: nat): (p: nat)
    ensures 1 <= p
  {
    if k == 0 then 1 else 2 * Power(k - 1)
  }

  lemma TakesNear(t: Turn, v: nat)
    requires t.Takes(v)
    ensures t.Near(v, 144)
  {
  }

  /** From wherever the filter takes its readings, eighteen of them settle an axis. */
  lemma HeldSettles(t: Turn, v: nat)
    requires t.Takes(v)
    ensures Held(t, v, 18).Settled(v)
  {
    assert Power(4) == 16 && Power(8) == 256;
    hide Held, Power, Turn.Read, Turn.Near, Turn.Settled, Turn.Takes;
    TakesNear(t, v);
    HeldNear(t, v, 144, 8);
    HeldOn(t, v, 16, 2);
    HeldTwo(Held(t, v, 16), v);
    TwoSettle(Held(t, v, 16), v);
  }

  lemma ReadTaken(t: Turn, v: nat)
    requires t.Takes(v)
    ensures t.Read(v).Takes(v)
  {
    AverageClose(t.a, 2 * v);
  }

  /** Once taken, a still finger's readings go on being taken. */
  lemma {:induction false} HeldTaken(t: Turn, v: nat, n: nat)
    requires t.Takes(v)
    ensures Held(t, v, n).Takes(v)
    decreases n
  {
    hide Turn.Read, Turn.Takes;
    if n != 0 {
      ReadTaken(t, v);
      HeldTaken(t.Read(v), v, n - 1);
    }
  }

  /** A pen that is down and does not move. */
  predicate Still(f: State, s: Sample, threshold: int)
  {
    f.down && f.Close() && Accepted(f, s, threshold) && s.x0 == s.x1 && s.y0 == s.y1
  }

  lemma StillStep(f: State, s: Sample, threshold: int)
    requires Still(f, s, threshold)
    ensures var x, y := Turn(f.x, f.slot).Read(s.x0), Turn(f.y, f.slot).Read(s.y0);
      Step(f, s, threshold) == State(x.a, y.a, x.slot, true)
    ensures Still(Step(f, s, threshold), s, threshold)
  {
    ReadTaken(Turn(f.x, f.slot), s.x0);
    ReadTaken(Turn(f.y, f.slot), s.y0);
  }

  /** The filter follows a still finger on both axes. */
  lemma {:induction false} StillRun(f: State, s: Sample, n: nat, threshold: int)
    requires Still(f, s, threshold)
    ensures var x, y := Held(Turn(f.x, f.slot), s.x0, n), Held(Turn(f.y, f.slot), s.y0, n);
      Run(f, seq(n, i => s), threshold) == State(x.a, y.a, x.slot, true) && x.slot == y.slot
    ensures Still(Run(f, seq(n, i => s), threshold), s, threshold)
  {
    hide Step, Held, Turn.Read, Still;
    var ss := seq(n, i => s);
    if n != 0 {
      assert ss[..n - 1] == seq(n - 1, i => s) && ss[n - 1] == s;
      StillRun(f, s, n - 1, threshold);
      StillStep(Run(f, ss[..n - 1], threshold), s, threshold);
      HeldStep(Turn(f.x, f.slot), s.x0, n);
      HeldStep(Turn(f.y, f.slot), s.y0, n);
      ReadSlot(Held(Turn(f.x, f.slot), s.x0, n - 1), s.x0);
      ReadSlot(Held(Turn(f.y, f.slot), s.y0, n - 1), s.y0);
    } else {
      HeldNone(Turn(f.x, f.slot), s.x0);
      HeldNone(Turn(f.y, f.slot), s.y0);
      StillDown(f, s, threshold);
    }
  }

  lemma HeldNone(t: Turn, v: nat)
    ensures Held(t, v, 0) == t
  {
  }

  lemma StillDown(f: State, s: Sample, threshold: int)
    requires Still(f, s, threshold)
    ensures f.down
  {
  }

  lemma ReadSlot(t: Turn, v: nat)
    ensures t.Read(v).slot == 1 - t.slot
  {
  }

  /**
   A finger held still where the filter takes its readings is reported at its position, or one
   below on an axis, after eighteen samples.
   */
  lemma StillFingerSettles(f: State, s: Sample, threshold: int)
    requires f.down && f.Close() && Accepted(f, s, threshold) && s.x0 == s.x1 && s.y0 == s.y1
    ensures var g := Run(f, seq(18, i => s), threshold);
      && Accepted(g, s, threshold)
      && s.x0 - 1 <= Report(g, s).0 <= s.x0 && s.y0 - 1 <= Report(g, s).1 <= s.y0
  {
    hide Run, Held;
    StillRun(f, s, 18, threshold);
    HeldSettles(Turn(f.x, f.slot), s.x0);
    HeldSettles(Turn(f.y, f.slot), s.y0);
  }

  // ----- What the driver passes on

  type Point = (int, int)

  predicate InRange(p: Point, max: nat)
  {
    0 <= p.0 <= max && 0 <= p.1 <= max
  }

  /** What a rejected sample leaves in coordinates that held p: sums of two readings, up to the test it fails. */
  function Leftover(s: Sample, p: Point): Point
  {
    if VARIANCE < Abs(s.x0 - s.x1) then p
    else if VARIANCE < Abs(s.y0 - s.y1) then (s.x0 + s.x1, p.1)
    else (s.x0 + s.x1, s.y0 + s.y1)
  }

  /** The coordinates passed on for a sample, called with p, after last had been passed on before. */
  function Passed(f: State, s: Sample, threshold: int, p: Point, last: Point): Point
  {
    if Released(s, threshold) then last
    else if Accepted(f, s, threshold) then (Report(f, s).0, Report(f, s).1)
    else Leftover(s, p)
  }

  predicate Rejected(f: State, s: Sample, threshold: int)
  {
    !Released(s, threshold) && !Accepted(f, s, threshold)
  }

  /** Exactly when what is passed on is in the range of the readings. */
  lemma PassedInRange(f: State, s: Sample, threshold: int, p: Point, last: Point, max: nat)
    requires f.Close() && f.Within(max) && s.Within(max)
    ensures InRange(Passed(f, s, threshold, p, last), max) <==>
      || Accepted(f, s, threshold)
      || (Released(s, threshold) && InRange(last, max))
      || (Rejected(f, s, threshold) && InRange(Leftover(s, p), max))
  {
    StepKeeps(f, s, threshold, max);
    hide Report;
  }

  /** One poll: a sample, and what the coordinates hold before the call. */
  datatype Poll = Poll(s: Sample, p: Point)

  function Samples(ps: seq<Poll>): (ss: seq<Sample>)
    ensures |ss| == |ps|
  {
    seq(|ps|, i requires 0 <= i < |ps| => ps[i].s)
  }

  /** The filter before poll i of a run. */
  function Before(f: State, ps: seq<Poll>, threshold: int, i: nat): State
    requires i <= |ps|
  {
    Run(f, Samples(ps)[..i], threshold)
  }

  /** The coordinates passed on last. */
  function Last(f: State, ps: seq<Poll>, threshold: int, last: Point): Point
  {
    if ps == [] then last
    else
      var init, poll := ps[..|ps| - 1], ps[|ps| - 1];
      Passed(Run(f, Samples(init), threshold), poll.s, threshold, poll.p, Last(f, init, threshold, last))
  }

  /** All coordinates passed on over a run. */
  function Reports(f: State, ps: seq<Poll>, threshold: int, last: Point): (rs: seq<Point>)
    ensures |rs| == |ps|
  {
    seq(|ps|, i requires 0 <= i < |ps| => Last(f, ps[..i + 1], threshold, last))
  }

  /** No sample of the run is rejected with coordinates out of range left behind. */
  ghost predicate CleanRejects(f: State, ps: seq<Poll>, threshold: int, max: nat)
  {
    forall i :: 0 <= i < |ps| ==>
      (Rejected(Before(f, ps, threshold, i), ps[i].s, threshold) ==> InRange(Leftover(ps[i].s, ps[i].p), max))
  }

  ghost predicate AllInRange(rs: seq<Point>, max: nat)
  {
    forall i :: 0 <= i < |rs| ==> InRange(rs[i], max)
  }

  lemma ReportsSnoc(f: State, ps: seq<Poll>, poll: Poll, threshold: int, last: Point, max: nat)
    ensures var all := ps + [poll];
      && Samples(all) == Samples(ps) + [poll.s]
      && Reports(f, all, threshold, last) == Reports(f, ps, threshold, last) + [Last(f, all, threshold, last)]
      && (AllInRange(Reports(f, all, threshold, last), max) <==>
            AllInRange(Reports(f, ps, threshold, last), max) && InRange(Last(f, all, threshold, last), max))
  {
    var all, before := ps + [poll], Reports(f, ps, threshold, last);
    var rs := Reports(f, all, threshold, last);
    forall i | 0 <= i < |ps|
      ensures rs[i] == before[i]
    {
      assert all[..i + 1] == ps[..i + 1];
    }
    assert all[..|ps| + 1] == all && rs == before + [rs[|ps|]];
    assert rs[|ps|] == Last(f, all, threshold, last);
    assert forall i :: 0 <= i < |before| ==> rs[i] == before[i];
  }

  lemma CleanSnoc(f: State, ps: seq<Poll>, poll: Poll, threshold: int, max: nat)
    ensures CleanRejects(f, ps + [poll], threshold, max) <==>
      && CleanRejects(f, ps, threshold, max)
      && (Rejected(Run(f, Samples(ps), threshold), poll.s, threshold) ==> InRange(Leftover(poll.s, poll.p), max))
  {
    var all := ps + [poll];
    assert forall i :: 0 <= i < |ps| ==> all[i] == ps[i];
    forall i | 0 <= i <= |ps|
      ensures Before(f, all, threshold, i) == Before(f, ps, threshold, i)
    {
      assert Samples(all)[..i] == Samples(ps)[..i];
    }
    assert Samples(ps)[..|ps|] == Samples(ps);
    assert all[|ps|] == poll;
  }

  /**
   Over any run, everything the driver passes on is in the range of the readings exactly if every
   rejected sample leaves coordinates in range behind; releases repeat what was passed on before.
   */
  lemma {:induction false} RunInRange(f: State, ps: seq<Poll>, threshold: int, last: Point, max: nat)
    requires f.Close() && f.Within(max) && InRange(last, max)
    requires forall i :: 0 <= i < |ps| ==> ps[i].s.Within(max)
    ensures AllInRange(Reports(f, ps, threshold, last), max) <==> CleanRejects(f, ps, threshold, max)
    ensures AllInRange(Reports(f, ps, threshold, last), max) ==> InRange(Last(f, ps, threshold, last), max)
  {
    if ps != [] {
      var init, poll := ps[..|ps| - 1], ps[|ps| - 1];
      RunInRange(f, init, threshold, last, max);
      assert ps == init + [poll];
      ReportsSnoc(f, init, poll, threshold, last, max);
      CleanSnoc(f, init, poll, threshold, max);
      RunKeeps(f, Samples(init), threshold, max);
      hide Run, Passed, Reports, CleanRejects, AllInRange, Accepted, Released;
      var g := Run(f, Samples(init), threshold);
      PassedInRange(g, poll.s, threshold, poll.p, Last(f, init, threshold, last), max);
      OneOfThree(g, poll.s, threshold);
    }
  }

  lemma OneOfThree(f: State, s: Sample, threshold: int)
    ensures Accepted(f, s, threshold) || Released(s, threshold) || Rejected(f, s, threshold)
    ensures Rejected(f, s, threshold) ==> !Accepted(f, s, threshold) && !Released(s, threshold)
    ensures Released(s, threshold) ==> !Accepted(f, s, threshold)
  {
  }

  // ----- The run in plain numbers

  lemma StepReleased(f: State, s: Sample, threshold: int, p: Point, last: Point)
    requires threshold < s.r0 || threshold < s.r1
    ensures Released(s, threshold) && !Accepted(f, s, threshold)
    ensures Step(f, s, threshold) == f.(down := false) && Passed(f, s, threshold, p, last) == last
  {
  }

  lemma StepRejected(f: State, s: Sample, threshold: int, p: Point, last: Point)
    requires s.r0 <= threshold && s.r1 <= threshold
    requires
      || !(-24 <= s.x0 - s.x1 <= 24) || !(-24 <= s.y0 - s.y1 <= 24)
      || (f.down && !(-192 <= s.x0 + s.x1 - (f.x.h0 + f.x.h1) <= 192))
      || (f.down && !(-192 <= s.y0 + s.y1 - (f.y.h0 + f.y.h1) <= 192))
    ensures !Released(s, threshold) && !Accepted(f, s, threshold) && Step(f, s, threshold) == f
    ensures Passed(f, s, threshold, p, last).0 == if -24 <= s.x0 - s.x1 <= 24 then s.x0 + s.x1 else p.0
    ensures Passed(f, s, threshold, p, last).1
         == if -24 <= s.x0 - s.x1 <= 24 && -24 <= s.y0 - s.y1 <= 24 then s.y0 + s.y1 else p.1
  {
    hide Report;
  }

  lemma StepFirst(f: State, s: Sample, threshold: int, p: Point, last: Point)
    requires s.r0 <= threshold && s.r1 <= threshold && !f.down
    requires -24 <= s.x0 - s.x1 <= 24 && -24 <= s.y0 - s.y1 <= 24
    ensures !Released(s, threshold) && Accepted(f, s, threshold)
    ensures var x, y := (s.x0 + s.x1) / 2, (s.y0 + s.y1) / 2;
      && Step(f, s, threshold) == State(Axis(x, x), Axis(y, y), f.slot, true)
      && Passed(f, s, threshold, p, last) == (x, y)
  {
  }

  lemma StepLater(f: State, s: Sample, threshold: int, p: Point, last: Point)
    requires s.r0 <= threshold && s.r1 <= threshold && f.down
    requires -24 <= s.x0 - s.x1 <= 24 && -24 <= s.y0 - s.y1 <= 24
    requires -192 <= s.x0 + s.x1 - (f.x.h0 + f.x.h1) <= 192
    requires -192 <= s.y0 + s.y1 - (f.y.h0 + f.y.h1) <= 192
    ensures !Released(s, threshold) && Accepted(f, s, threshold)
    ensures var x, y := (f.x.h0 + f.x.h1 + s.x0 + s.x1) / 4, (f.y.h0 + f.y.h1 + s.y0 + s.y1) / 4;
      && Passed(f, s, threshold, p, last) == (x, y)
      && (f.slot == 0 ==> Step(f, s, threshold) == State(Axis(x, f.x.h1), Axis(y, f.y.h1), 1, true))
      && (f.slot == 1 ==> Step(f, s, threshold) == State(Axis(f.x.h0, x), Axis(f.y.h0, y), 0, true))
  {
  }

  lemma ReportsAt(f: State, ps: seq<Poll>, threshold: int, last: Point, k: nat)
    requires k < |ps|
    ensures var g, s := Before(f, ps, threshold, k), ps[k].s;
      && Before(f, ps, threshold, k + 1) == Step(g, s, threshold)
      && Reports(f, ps, threshold, last)[k]
      == Passed(g, s, threshold, ps[k].p, if k == 0 then last else Reports(f, ps, threshold, last)[k - 1])
  {
    hide Step, Passed;
    var ss := Samples(ps);
    assert ss[..k + 1][..k] == ss[..k];
    assert ps[..k + 1][..k] == ps[..k] && Samples(ps[..k]) == ss[..k];
    assert ps[..k + 1] != [] && ps[..k + 1][|ps[..k + 1]| - 1] == ps[k];
    assert Last(f, ps[..k + 1], threshold, last)
        == Passed(Before(f, ps, threshold, k), ps[k].s, threshold, ps[k].p, Last(f, ps[..k], threshold, last));
    if k != 0 {
      assert ps[..(k - 1) + 1] == ps[..k];
      assert Reports(f, ps, threshold, last)[k - 1] == Last(f, ps[..k], threshold, last);
    }
  }

  /**
   The first report of a touch, on each axis, is half the sum of its two readings, rounded down, and
   that is what the filter then remembers: for readings at most 24 apart without a release.
   */
  lemma FirstReport(f: State, ps: seq<Poll>, threshold: int, last: Point, k: nat)
    requires k < |ps| && !Before(f, ps, threshold, k).down
    requires ps[k].s.r0 <= threshold && ps[k].s.r1 <= threshold
    requires -24 <= ps[k].s.x0 - ps[k].s.x1 <= 24 && -24 <= ps[k].s.y0 - ps[k].s.y1 <= 24
    ensures var s, (x, y) := ps[k].s, Reports(f, ps, threshold, last)[k];
      && 2 * x <= s.x0 + s.x1 <= 2 * x + 1
      && 2 * y <= s.y0 + s.y1 <= 2 * y + 1
      && Before(f, ps, threshold, k + 1)
      == State(Axis(x, x), Axis(y, y), Before(f, ps, threshold, k).slot, true)
  {
    ReportsAt(f, ps, threshold, last, k);
    var before := if k == 0 then last else Reports(f, ps, threshold, last)[k - 1];
    StepFirst(Before(f, ps, threshold, k), ps[k].s, threshold, ps[k].p, before);
    hide Before, Reports, Step, Passed;
  }

  /**
   A later report is, on each axis, a quarter of the sum of its readings and the two entries, rounded
   down, and replaces one of them: for readings whose sum is at most 192 away from that of the entries.
   */
  lemma LaterReport(f: State, ps: seq<Poll>, threshold: int, last: Point, k: nat)
    requires k < |ps| && Before(f, ps, threshold, k).down
    requires ps[k].s.r0 <= threshold && ps[k].s.r1 <= threshold
    requires -24 <= ps[k].s.x0 - ps[k].s.x1 <= 24 && -24 <= ps[k].s.y0 - ps[k].s.y1 <= 24
    requires var s, g := ps[k].s, Before(f, ps, threshold, k);
      && -192 <= s.x0 + s.x1 - (g.x.h0 + g.x.h1) <= 192
      && -192 <= s.y0 + s.y1 - (g.y.h0 + g.y.h1) <= 192
    ensures var s, (x, y) := ps[k].s, Reports(f, ps, threshold, last)[k];
      var g, h := Before(f, ps, threshold, k), Before(f, ps, threshold, k + 1);
      && 4 * x <= g.x.h0 + g.x.h1 + s.x0 + s.x1 <= 4 * x + 3
      && 4 * y <= g.y.h0 + g.y.h1 + s.y0 + s.y1 <= 4 * y + 3
      && (g.slot == 0 ==> h == State(Axis(x, g.x.h1), Axis(y, g.y.h1), 1, true))
      && (g.slot == 1 ==> h == State(Axis(g.x.h0, x), Axis(g.y.h0, y), 0, true))
  {
    ReportsAt(f, ps, threshold, last, k);
    var before := if k == 0 then last else Reports(f, ps, threshold, last)[k - 1];
    StepLater(Before(f, ps, threshold, k), ps[k].s, threshold, ps[k].p, before);
    hide Before, Reports, Step, Passed;
  }

  /** A release repeats what was passed on before, and lifts the pen. */
  lemma ReleaseRepeats(f: State, ps: seq<Poll>, threshold: int, last: Point, k: nat)
    requires k < |ps| && (threshold < ps[k].s.r0 || threshold < ps[k].s.r1)
    ensures var g, rs := Before(f, ps, threshold, k), Reports(f, ps, threshold, last);
      && rs[k] == (if k == 0 then last else rs[k - 1])
      && Before(f, ps, threshold, k + 1) == g.(down := false)
  {
    ReportsAt(f, ps, threshold, last, k);
    var before := if k == 0 then last else Reports(f, ps, threshold, last)[k - 1];
    StepReleased(Before(f, ps, threshold, k), ps[k].s, threshold, ps[k].p, before);
    hide Before, Reports, Step, Passed;
  }

  /**
   Any other sample changes nothing in the filter, and passes on the sums of its readings up to the
   first spread above 24, with what the coordinates held before beyond it.
   */
  lemma RejectedPasses(f: State, ps: seq<Poll>, threshold: int, last: Point, k: nat)
    requires k < |ps| && ps[k].s.r0 <= threshold && ps[k].s.r1 <= threshold
    requires var s, g := ps[k].s, Before(f, ps, threshold, k);
      || !(-24 <= s.x0 - s.x1 <= 24) || !(-24 <= s.y0 - s.y1 <= 24)
      || (g.down && !(-192 <= s.x0 + s.x1 - (g.x.h0 + g.x.h1) <= 192))
      || (g.down && !(-192 <= s.y0 + s.y1 - (g.y.h0 + g.y.h1) <= 192))
    ensures var s, p, (x, y) := ps[k].s, ps[k].p, Reports(f, ps, threshold, last)[k];
      && Before(f, ps, threshold, k + 1) == Before(f, ps, threshold, k)
      && x == (if -24 <= s.x0 - s.x1 <= 24 then s.x0 + s.x1 else p.0)
      && y == (if -24 <= s.x0 - s.x1 <= 24 && -24 <= s.y0 - s.y1 <= 24 then s.y0 + s.y1 else p.1)
  {
    ReportsAt(f, ps, threshold, last, k);
    var before := if k == 0 then last else Reports(f, ps, threshold, last)[k - 1];
    StepRejected(Before(f, ps, threshold, k), ps[k].s, threshold, ps[k].p, before);
    hide Before, Reports, Step, Passed;
  }

  // ----- process_data

  class Filter {
    const threshold: int
    const hysX: array<nat>
    const hysY: array<nat>
    var hysIndex: nat         // 32 bits
    var buttons: bool
    var lastX: int
    var lastY: int

    ghost predicate Valid()
      reads this
    {
      hysX != hysY && hysX.Length == hysY.Length == 2 && hysIndex < 0x1_0000_0000
    }

    ghost function S(): State
      requires Valid()
      reads this, hysX, hysY
    {
      State(Axis(hysX[0], hysX[1]), Axis(hysY[0], hysY[1]), hysIndex % 2, buttons)
    }

    constructor (threshold: int)
      ensures Valid() && fresh(hysX) && fresh(hysY) && S() == State(Axis(0, 0), Axis(0, 0), 0, false)
    {
      this.threshold := threshold;
      hysX, hysY := new nat[2](i => 0), new nat[2](i => 0);
      hysIndex, buttons, lastX, lastY := 0, false, 0, 0;
    }

    /**
     process_data: 0 for an accepted sample, 1 for a release, -1 for a rejected one. The results
     may have been set to a sum of two readings before the sample is rejected.
     */
    method ProcessData(s: Sample, oldX: int, oldY: int) returns (code: int, x: int, y: int)
      requires Valid()
      modifies `hysIndex, `buttons, hysX, hysY
      ensures Valid() && S() == Step(old(S()), s, threshold)
      ensures code == if Released(s, threshold) then 1 else if Accepted(old(S()), s, threshold) then 0 else -1
      ensures (x, y) == Passed(old(S()), s, threshold, (oldX, oldY), (lastX, lastY))
      ensures code == 1 <==> s.r0 > threshold || s.r1 > threshold
      ensures code == 0 <==>
        && s.r0 <= threshold && s.r1 <= threshold
        && -24 <= s.x0 - s.x1 <= 24 && -24 <= s.y0 - s.y1 <= 24
        && (old(buttons) ==> -192 <= s.x0 + s.x1 - old(hysX[0] + hysX[1]) <= 192)
        && (old(buttons) ==> -192 <= s.y0 + s.y1 - old(hysY[0] + hysY[1]) <= 192)
      ensures code == 0 && !old(buttons) ==>
        && 2 * x <= s.x0 + s.x1 <= 2 * x + 1 && 2 * y <= s.y0 + s.y1 <= 2 * y + 1
        && hysX[0] == hysX[1] == x && hysY[0] == hysY[1] == y && hysIndex == old(hysIndex)
      ensures code == 0 && old(buttons) ==>
        && 4 * x <= old(hysX[0] + hysX[1]) + s.x0 + s.x1 <= 4 * x + 3
        && 4 * y <= old(hysY[0] + hysY[1]) + s.y0 + s.y1 <= 4 * y + 3
        && hysX[..] == old(hysX[..])[old(hysIndex) % 2 := x] && hysY[..] == old(hysY[..])[old(hysIndex) % 2 := y]
        && hysIndex == (old(hysIndex) + 1) % 0x1_0000_0000
      ensures code == 0 ==> buttons
      ensures code == 1 ==> x == lastX && y == lastY && !buttons
      ensures code == -1 ==>
        && buttons == old(buttons)
        && x == (if -24 <= s.x0 - s.x1 <= 24 then s.x0 + s.x1 else oldX)
        && y == (if -24 <= s.x0 - s.x1 <= 24 && -24 <= s.y0 - s.y1 <= 24 then s.y0 + s.y1 else oldY)
      ensures code != 0 ==> hysX[..] == old(hysX[..]) && hysY[..] == old(hysY[..]) && hysIndex == old(hysIndex)
    {
      hide Step, Passed, Accepted, Released;
      ghost var f, p, last := S(), (oldX, oldY), (lastX, lastY);
      x, y := oldX, oldY;
      if s.r0 > threshold || s.r1 > threshold {
        StepReleased(f, s, threshold, p, last);
        x, y, buttons := lastX, lastY, false;
        return 1, x, y;
      }
      if Abs(s.x0 - s.x1) > VARIANCE {
        StepRejected(f, s, threshold, p, last);
        return -1, x, y;
      }
      x := s.x0 + s.x1;
      if Abs(s.y0 - s.y1) > VARIANCE {
        StepRejected(f, s, threshold, p, last);
        return -1, x, y;
      }
      y := s.y0 + s.y1;
      if !buttons {
        StepFirst(f, s, threshold, p, last);
        x, y := x / 2, y / 2;
        hysX[0], hysX[1] := x, x;
        hysY[0], hysY[1] := y, y;
      } else {
        if Abs(x - (hysX[0] + hysX[1])) > VARIANCE * 8 {
          StepRejected(f, s, threshold, p, last);
          return -1, x, y;
        }
        if Abs(y - (hysY[0] + hysY[1])) > VARIANCE * 8 {
          StepRejected(f, s, threshold, p, last);
          return -1, x, y;
        }
        StepLater(f, s, threshold, p, last);
        x := (hysX[0] + hysX[1] + x) / 4;
        y := (hysY[0] + hysY[1] + y) / 4;
        hysX[hysIndex % 2] := x;
        hysY[hysIndex % 2] := y;
        hysIndex := (hysIndex + 1) % 0x1_0000_0000;
      }
      buttons := true;
      code := 0;
    }

    /**
     Polls, as touch_pulse does them: the driver follows the run of its samples, and passes on
     whatever comes back, accepted or not.
     */
    method Polls(ps: seq<Poll>) returns (reports: seq<Point>)
      requires Valid()
      modifies `hysIndex, `buttons, `lastX, `lastY, hysX, hysY
      ensures Valid() && S() == Run(old(S()), Samples(ps), threshold)
      ensures reports == Reports(old(S()), ps, threshold, old((lastX, lastY)))
      ensures (lastX, lastY) == Last(old(S()), ps, threshold, old((lastX, lastY)))
    {
      hide Reports, Passed, Step, AllInRange, InRange, Accepted, Released;
      reports := [];
      ghost var start, first := S(), (lastX, lastY);
      assert Samples([]) == [];
      for k := 0 to |ps|
        invariant Valid() && S() == Run(start, Samples(ps[..k]), threshold)
        invariant reports == Reports(start, ps[..k], threshold, first)
        invariant (lastX, lastY) == Last(start, ps[..k], threshold, first)
      {
        assert ps[..k + 1] == ps[..k] + [ps[k]];
        ReportsSnoc(start, ps[..k], ps[k], threshold, first, 0);
        var code, x, y := ProcessData(ps[k].s, ps[k].p.0, ps[k].p.1);
        assert Samples(ps[..k + 1])[..k] == Samples(ps[..k]);
        lastX, lastY := x, y;
        reports := reports + [(x, y)];
      }
      assert ps[..|ps|] == ps;
    }
  }

  /** The first sample of a touch, rejected for its y readings, passes on an x twice as large as any reading. */
  lemma RejectedOutOfRange(p: Point)
    requires InRange(p, 1023)
    ensures var f, s := State(Axis(0, 0), Axis(0, 0), 0, false), Sample(1000, 1000, 0, 1000, 0, 0);
      s.Within(1023) && Rejected(f, s, 0) && Passed(f, s, 0, p, (0, 0)) == (2000, p.1)
      && !AllInRange(Reports(f, [Poll(s, p)], 0, (0, 0)), 1023)
  {
    var f, s := State(Axis(0, 0), Axis(0, 0), 0, false), Sample(1000, 1000, 0, 1000, 0, 0);
    assert Passed(f, s, 0, p, (0, 0)) == (2000, p.1);
    var ps := [Poll(s, p)];
    assert ps[..1] == ps && ps[..0] == [] && Samples([]) == [];
    assert Reports(f, ps, 0, (0, 0))[0] == Last(f, ps, 0, (0, 0)) == (2000, p.1);
  }
}
