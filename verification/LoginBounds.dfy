/** Bounds on a siege of one login key, over every interleaving of checks and record calls. */
module LoginBounds {
  import opened Common
  import opened LatticePaths
  import opened StaleWrites
  import opened LoginThrottle
  import opened LoginSiege

  lemma PassTime(steps: seq<Step>, i: nat, k: nat, p: Params)
    requires p.maxFailures >= 1 && PassesAt(steps, i, k, p)
    ensures i < |Run(steps, p).passed| && Run(steps, p).passed[i] == steps[k].at
  {
    assert steps[..|steps|] == steps;
    RunSplit(steps, k + 1, |steps|, p);
    var k' := FindPass(steps, i, p);
    PassesInOrder(steps, i, i, k, k', p);
    PassesInOrder(steps, i, i, k', k, p);
  }

  lemma PassedSorted(steps: seq<Step>, i: nat, j: nat, p: Params)
    requires p.maxFailures >= 1 && Clocked(steps) && i <= j < |Run(steps, p).passed|
    ensures Run(steps, p).passed[i] <= Run(steps, p).passed[j]
  {
    var k := FindPass(steps, i, p);
    var n := FindPass(steps, j, p);
    PassesInOrder(steps, i, j, k, n, p);
  }

  // ------------------------------------------------------ any interleaving

  /** With at most `peak` requests of the key in flight, any stretch of at most lockout - 1
      seconds lets at most (peak + maxFailures + 1 over peak) - peak - 1 of them past the check. */
  lemma StretchBound(steps: seq<Step>, p: Params, i: nat, j: nat)
    requires p.maxFailures >= 1 && Covers(p) && Clocked(steps)
    requires var a := Run(steps, p).passed; i <= j < |a| && a[j] - a[i] <= p.lockout - 1.0
    ensures var c := Run(steps, p).peak; c >= 1 && j - i + 1 <= Paths(c, p.maxFailures + 1) - c - 1
  {
    hide Run, Levels, Paths, Potential, Sound;
    var k := FindPass(steps, i, p);
    var n := FindPass(steps, j, p);
    PaidBetween(steps, i, j, k, n, p);
    var s, start, c := Run(steps[..k], p), steps[k].at, Run(steps, p).peak;
    OpenInFlight(s, start, p);
    PotentialAtMost(Levels(s.open, start, p), Distance(s.r, start, p), Unread(s, start, p), c, p.maxFailures);
  }

  lemma OpenInFlight(s: Siege, start: real, p: Params)
    requires Sound(s, p)
    ensures Holders(Levels(s.open, start, p)) <= InFlight(s)
  {
  }

  /** What a record call will write shows its own failure, or the lockout it starts. */
  ghost predicate Marked(s: Siege, p: Params) {
    forall i | 0 <= i < |s.open| && s.open[i].Holding? :: EntryMarked(s.open[i], p)
  }

  ghost predicate EntryMarked(e: Entry, p: Params)
    requires e.Holding?
  {
    e.row.until == e.at + p.lockout || (e.row.fails != [] && Last(e.row.fails) == e.at)
  }

  lemma {:induction false} RunMarked(steps: seq<Step>, p: Params)
    ensures Marked(Run(steps, p), p)
  {
    hide LockedFor, Recent;
    if steps != [] { RunMarked(Init(steps), p); }
  }

  /** No record call that began before the stretch is still under way when it starts. */
  ghost predicate QuietAt(steps: seq<Step>, k: nat, p: Params)
    requires k < |steps|
  {
    forall i | 0 <= i < |Run(steps[..k], p).open| :: Run(steps[..k], p).open[i].at >= steps[k].at
  }

  /** If no record call straddles the start, the bound is (peak + maxFailures over peak) - 1. */
  lemma QuietStretchBound(steps: seq<Step>, p: Params, i: nat, j: nat, k: nat)
    requires p.maxFailures >= 1 && Covers(p) && Clocked(steps) && PassesAt(steps, i, k, p) && QuietAt(steps, k, p)
    requires var a := Run(steps, p).passed; i <= j < |a| && a[j] - steps[k].at <= p.lockout - 1.0
    ensures var c := Run(steps, p).peak; c >= 1 && j - i + 1 <= Paths(c, p.maxFailures) - 1
  {
    hide Run, Paths, Potential, Sound, Distance;
    var n := FindPass(steps, j, p);
    PaidBetween(steps, i, j, k, n, p);
    var s, start, c := Run(steps[..k], p), steps[k].at, Run(steps, p).peak;
    OpenInFlight(s, start, p);
    RunMarked(steps[..k], p);
    var levels := Levels(s.open, start, p);
    forall l | 0 <= l < |levels| ensures levels[l] < p.maxFailures {
      if s.open[l].Holding? { MarkedIsCloser(s.open[l], start, p); }
    }
    QuietPotentialAtMost(levels, Distance(s.r, start, p), Unread(s, start, p), c, p.maxFailures);
  }

  lemma MarkedIsCloser(e: Entry, start: real, p: Params)
    requires p.maxFailures >= 1 && e.Holding? && EntryMarked(e, p) && e.at >= start
    ensures Distance(e.row, start, p) < p.maxFailures
  {
  }

  // ------------------------------------------------ records that do not overlap

  /** Nothing in the row is later than t. */
  ghost predicate RowUpTo(r: Rec, t: real, p: Params) {
    (forall i | 0 <= i < |r.fails| :: r.fails[i] <= t) && r.until <= t + p.lockout
  }

  ghost predicate EntryPast(s: Siege, e: Entry, now: real, p: Params) {
    && e.at <= now && e.since <= s.writes
    && (e.Holding? ==> RowUpTo(e.row, now, p))
    && (e.since == s.writes ==> RowUpTo(s.r, e.at, p) && (e.Holding? ==> e.row == Failed(s.r, e.at, p)))
  }

  /** A record call that no write has overtaken holds the outcome of an uninterrupted one. */
  ghost predicate Past(s: Siege, now: real, p: Params) {
    RowUpTo(s.r, now, p) && forall i | 0 <= i < |s.open| :: EntryPast(s, s.open[i], now, p)
  }

  lemma {:induction false} RecentUpTo(fails: seq<real>, now: real, window: real, t: real)
    requires forall i | 0 <= i < |fails| :: fails[i] <= t
    ensures forall i | 0 <= i < |Recent(fails, now, window)| :: Recent(fails, now, window)[i] <= t
  {
    if fails != [] { RecentUpTo(fails[..|fails| - 1], now, window, t); }
  }

  lemma FailedUpTo(r: Rec, at: real, now: real, p: Params)
    requires RowUpTo(r, now, p) && at <= now
    ensures RowUpTo(Failed(r, at, p), now, p)
  {
    RecentUpTo(r.fails, at, p.window, now);
  }

  lemma PastLater(s: Siege, now: real, later: real, p: Params)
    requires Past(s, now, p) && now <= later
    ensures Past(s, later, p)
  {
    hide Failed;
    forall i | 0 <= i < |s.open| ensures EntryPast(s, s.open[i], later, p) {
      assert EntryPast(s, s.open[i], now, p);
    }
  }

  lemma PastStep(s: Siege, step: Step, p: Params)
    requires Past(s, step.at, p)
    ensures Past(Apply(s, step, p), step.at, p)
  {
    hide Failed, LockedFor, RowUpTo;
    var s' := Apply(s, step, p);
    match step
    case Check(_) =>
      forall i | 0 <= i < |s'.open| ensures EntryPast(s', s'.open[i], step.at, p) {
        assert EntryPast(s, s.open[i], step.at, p);
      }
    case Begin(at) =>
      forall i | 0 <= i < |s'.open| ensures EntryPast(s', s'.open[i], step.at, p) {
        if i < |s.open| { assert EntryPast(s, s.open[i], step.at, p); }
      }
    case Read(l, at) =>
      if l < |s.open| {
        assert EntryPast(s, s.open[l], at, p);
        FailedUpTo(s.r, s.open[l].at, at, p);
      }
      forall i | 0 <= i < |s'.open| ensures EntryPast(s', s'.open[i], step.at, p) {
        assert EntryPast(s, s.open[i], step.at, p);
      }
    case Write(l, at) =>
      if l < |s.open| { assert EntryPast(s, s.open[l], at, p); }
      if s' != s {
        forall i | 0 <= i < |s'.open| ensures EntryPast(s', s'.open[i], step.at, p) {
          assert EntryPast(s, s.open[if i < l then i else i + 1], step.at, p);
        }
      }
  }

  lemma {:induction false} RunPast(steps: seq<Step>, now: real, p: Params)
    requires p.lockout >= 0.0 && Clocked(steps) && now >= 0.0 && forall i | 0 <= i < |steps| :: steps[i].at <= now
    ensures Past(Run(steps, p), now, p)
  {
    hide Apply;
    if steps != [] {
      var init, last := Init(steps), Last(steps);
      assert forall i | 0 <= i < |init| :: init[i] == steps[i];
      RunPast(init, last.at, p);
      PastStep(Run(init, p), last, p);
      PastLater(Run(steps, p), last.at, now, p);
    }
  }

  lemma {:induction false} OldRowIsFar(fails: seq<real>, start: real)
    requires forall i | 0 <= i < |fails| :: fails[i] < start
    ensures NewFails(fails, start) == 0
  {
    if fails != [] { OldRowIsFar(Init(fails), start); }
  }

  function Ages(open: seq<Entry>, start: real): (a: seq<int>)
    ensures |a| == |open| && forall i | 0 <= i < |open| :: a[i] == if open[i].at < start then 0 else -1
  {
    seq(|open|, i requires 0 <= i < |open| => if open[i].at < start then 0 else -1)
  }

  /** How many record calls under way began before the stretch. */
  function Olds(open: seq<Entry>, start: real): nat { Holders(Ages(open, start)) }

  ghost predicate AtomicInv(s: Siege, start: real, c: int, had: int, p: Params) {
    var gained, d := |s.passed| - had, Distance(s.r, start, p);
    && gained <= p.maxFailures + c - 1
    && (d > 0 ==> gained + c - InFlight(s) + Olds(s.open, start) + d - 1 <= p.maxFailures + c - 1)
  }

  lemma AtomicWrite(s: Siege, i: nat, at: real, start: real, c: int, had: int, p: Params)
    requires p.maxFailures >= 1 && Covers(p) && AtomicInv(s, start, c, had, p) && Past(s, at, p)
    requires i < |s.open| && s.open[i].Holding? && s.open[i].since == s.writes && at <= start + p.lockout - 1.0
    ensures AtomicInv(Apply(s, Write(i, at), p), start, c, had, p)
  {
    hide Distance, Failed, Covers;
    var e := s.open[i];
    assert EntryPast(s, e, at, p);
    var ages := Ages(s.open, start);
    assert Ages(Without(s.open, i), start) == Without(ages, i);
    AtLeastParts(ages, i, 0);
    if e.at >= start {
      FailedIsCloser(s.r, start, e.at, p);
    } else {
      OldFreshFar(s.r, e.at, start, p);
      DistanceAtMost(e.row, start, p);
    }
  }

  lemma OldFreshFar(r: Rec, at: real, start: real, p: Params)
    requires p.maxFailures >= 1 && RowUpTo(r, at, p) && at < start
    ensures Distance(r, start, p) == p.maxFailures
  {
    OldRowIsFar(r.fails, start);
  }

  lemma AtomicStep(s: Siege, step: Step, start: real, c: int, had: int, p: Params)
    requires p.maxFailures >= 1 && Covers(p) && Sound(s, p) && AtomicInv(s, start, c, had, p) && Past(s, step.at, p)
    requires start <= step.at <= start + p.lockout - 1.0
    requires Apply(s, step, p).peak <= c && !Apply(s, step, p).overlapped
    ensures AtomicInv(Apply(s, step, p), start, c, had, p)
  {
    hide Distance, Failed, Covers;
    match step
    case Check(at) =>
      if LockedFor(s.r, at) <= 0 { PassedUnlocked(s.r, start, at, p); }
    case Begin(at) =>
      if Waiting(s) > 0 {
        var ages := Ages(s.open, start);
        assert Ages(s.open + [Stamped(at, s.writes)], start) == ages + [-1];
        assert Init(ages + [-1]) == ages;
      }
    case Read(i, at) =>
      assert Ages(Apply(s, step, p).open, start) == Ages(s.open, start);
    case Write(i, at) =>
      if i < |s.open| && s.open[i].Holding? { AtomicWrite(s, i, at, start, c, had, p); }
  }

  lemma {:induction false} AtomicFrom(s: Siege, steps: seq<Step>, start: real, c: int, had: int, p: Params)
    requires p.maxFailures >= 1 && Covers(p) && Sound(s, p) && AtomicInv(s, start, c, had, p)
    requires Within(steps, start, start + p.lockout - 1.0) && Clocked(steps)
    requires steps != [] ==> Past(s, steps[0].at, p)
    requires From(s, steps, p).peak <= c && !From(s, steps, p).overlapped
    ensures AtomicInv(From(s, steps, p), start, c, had, p)
    ensures steps != [] ==> Past(From(s, steps, p), Last(steps).at, p)
  {
    hide Sound, Past, AtomicInv, Covers, Apply;
    if steps != [] {
      var init, last := Init(steps), Last(steps);
      assert forall i | 0 <= i < |init| :: init[i] == steps[i];
      var before := From(s, init, p);
      SoundFrom(s, init, p);
      SoundStep(before, last, p);
      AtomicFrom(s, init, start, c, had, p);
      if init != [] { PastLater(before, Last(init).at, last.at, p); }
      AtomicStep(before, last, start, c, had, p);
      PastStep(before, last, p);
    }
  }

  /** In a run where no record call writes after another one has since it began, the
      bound is maxFailures + peak - 1. */
  lemma AtomicStretchBound(steps: seq<Step>, p: Params, i: nat, j: nat)
    requires p.maxFailures >= 1 && Covers(p) && Clocked(steps) && !Run(steps, p).overlapped
    requires var a := Run(steps, p).passed; i <= j < |a| && a[j] - a[i] <= p.lockout - 1.0
    ensures j - i + 1 <= p.maxFailures + Run(steps, p).peak - 1
  {
    hide Run, Levels, Paths, Potential, Sound, Past, AtomicInv, Covers;
    var k := FindPass(steps, i, p);
    var n := FindPass(steps, j, p);
    PaidBetween(steps, i, j, k, n, p);
    PassesInOrder(steps, i, j, k, n, p);
    var s, start, c := Run(steps[..k], p), steps[k].at, Run(steps, p).peak;
    var part := steps[k..n + 1];
    RunSplit(steps, k, n + 1, p);
    assert forall l | 0 <= l < |part| :: part[l] == steps[k + l];
    RunPast(steps[..k], start, p);
    AtomicStart(s, start, c, p);
    AtomicFrom(s, part, start, c, i, p);
    AtomicGain(Run(steps[..n + 1], p), start, c, i, p);
  }

  lemma AtomicStart(s: Siege, start: real, c: int, p: Params)
    requires p.maxFailures >= 1 && Sound(s, p) && InFlight(s) < c
    ensures AtomicInv(s, start, c, |s.passed|, p)
  {
    DistanceAtMost(s.r, start, p);
  }

  lemma AtomicGain(s: Siege, start: real, c: int, had: int, p: Params)
    requires AtomicInv(s, start, c, had, p)
    ensures |s.passed| - had <= p.maxFailures + c - 1
  {
  }

  // ------------------------------------------------------------- whole runs

  ghost predicate Sorted(times: seq<real>) { forall i, j | 0 <= i < j < |times| :: times[i] <= times[j] }

  /** Entries n places apart are more than `gap` apart in time. */
  ghost predicate Spread(a: seq<real>, n: int, gap: real) {
    forall i, j | 0 <= i < |a| && 0 <= j < |a| && i + n <= j :: a[j] - a[i] > gap
  }

  lemma {:induction false} Strides(a: seq<real>, n: int, gap: real, c: nat)
    requires n >= 1 && Spread(a, n, gap) && c >= 1 && c * n < |a|
    ensures a[c * n] - a[0] > c as real * gap
  {
    if c == 1 {
      assert a[n] - a[0] > gap;
    } else {
      var before := (c - 1) * n;
      assert before + n == c * n;
      Strides(a, n, gap, c - 1);
      assert a[before + n] - a[before] > gap;
    }
  }

  /** floor(d / stride) + 1: how many strides it takes to exceed d. */
  function StridesBeyond(d: real, stride: real): (c: nat)
    requires d >= 0.0 && stride > 0.0
    ensures c >= 1
  {
    assert d / stride >= 0.0;
    (d / stride).Floor + 1
  }

  lemma StridesExceed(d: real, stride: real)
    requires d >= 0.0 && stride > 0.0
    ensures StridesBeyond(d, stride) as real * stride > d
  {
    var q, c := d / stride, StridesBeyond(d, stride);
    assert c as real > q;
    assert q * stride == d;
    assert (c as real - q) * stride > 0.0;
  }

  lemma AtMost(a: seq<real>, n: int, gap: real)
    requires n >= 1 && gap > 0.0 && Spread(a, n, gap) && a != [] && a[|a| - 1] >= a[0] && Sorted(a)
    ensures |a| <= n * StridesBeyond(a[|a| - 1] - a[0], gap)
  {
    var d := a[|a| - 1] - a[0];
    var c := StridesBeyond(d, gap);
    StridesExceed(d, gap);
    assert forall k | 0 <= k < |a| :: a[k] <= a[|a| - 1];
    assert c * n == n * c;
    if c * n < |a| { Strides(a, n, gap, c); }
  }

  /** Over a run in which the first and the last request to pass lie D seconds apart, the
      stretch bound holds floor(D / (lockout - 1)) + 1 times over. */
  lemma RunBound(steps: seq<Step>, p: Params)
    requires p.maxFailures >= 1 && Covers(p) && p.lockout > 1.0 && Clocked(steps)
    requires Run(steps, p).passed != []
    ensures var s := Run(steps, p);
            var d := s.passed[|s.passed| - 1] - s.passed[0];
            && d >= 0.0 && s.peak >= 1
            && |s.passed| <= (Paths(s.peak, p.maxFailures + 1) - s.peak - 1) * StridesBeyond(d, p.lockout - 1.0)
  {
    hide Run, StridesBeyond, Paths;
    var a, c := Run(steps, p).passed, Run(steps, p).peak;
    StretchBound(steps, p, 0, 0);
    var most := Paths(c, p.maxFailures + 1) - c - 1;
    forall i, j | 0 <= i < |a| && 0 <= j < |a| && i + most <= j ensures a[j] - a[i] > p.lockout - 1.0 {
      if a[j] - a[i] <= p.lockout - 1.0 { StretchBound(steps, p, i, j); }
    }
    forall i, j | 0 <= i < j < |a| ensures a[i] <= a[j] { PassedSorted(steps, i, j, p); }
    PassedSorted(steps, 0, |a| - 1, p);
    AtMost(a, most, p.lockout - 1.0);
  }

  // ---------------------------------------------- one request at a time

  /** Requests handled one after the other, each as the times of its check and its record. */
  function OneByOne(requests: seq<(real, real)>): seq<Step> {
    if requests == [] then []
    else
      var (check, record) := Last(requests);
      OneByOne(Init(requests)) + [Check(check)] + [Begin(record)] + [Read(0, record)] + [Write(0, record)]
  }

  /** Nothing under way, and never more than one request in flight. */
  ghost predicate Idle(s: Siege) { s.open == [] && InFlight(s) == 0 && s.peak <= 1 && !s.overlapped }

  /** One more request: refused, or passed and recorded. */
  lemma OneMore(requests: seq<(real, real)>, request: (real, real), p: Params)
    requires Idle(Run(OneByOne(requests), p))
    ensures var s, s' := Run(OneByOne(requests), p), Run(OneByOne(requests + [request]), p);
            && Idle(s')
            && s' == if LockedFor(s.r, request.0) > 0 then s
                     else s.(r := Failed(s.r, request.1, p), passed := s.passed + [request.0],
                             writes := s.writes + 1, peak := 1)
    ensures Run(OneByOne(requests) + [Check(request.0)], p).passed
            == Run(OneByOne(requests + [request]), p).passed
    ensures Run(OneByOne(requests) + [Check(request.0)], p).peak == Run(OneByOne(requests + [request]), p).peak
  {
    hide Failed, LockedFor, From;
    var steps, at := OneByOne(requests), request.1;
    assert Init(requests + [request]) == requests;
    var s := Run(steps, p);
    FromOne(QUIET, steps, Check(request.0), p);
    FromOne(QUIET, steps + [Check(request.0)], Begin(at), p);
    FromOne(QUIET, steps + [Check(request.0)] + [Begin(at)], Read(0, at), p);
    FromOne(QUIET, steps + [Check(request.0)] + [Begin(at)] + [Read(0, at)], Write(0, at), p);
    if LockedFor(s.r, request.0) <= 0 {
      UninterruptedRecord(Apply(s, Check(request.0), p), at, p);
    }
  }

  lemma {:induction false} OneByOneIdle(requests: seq<(real, real)>, p: Params)
    ensures Idle(Run(OneByOne(requests), p))
  {
    hide Apply;
    if requests != [] {
      OneByOneIdle(Init(requests), p);
      assert Init(requests) + [Last(requests)] == requests;
      OneMore(Init(requests), Last(requests), p);
    }
  }

  /** Where requests do not overlap, any stretch of at most lockout - 1 seconds
      lets at most maxFailures of them past the lock check. */
  lemma SerialStretchBound(requests: seq<(real, real)>, p: Params, i: nat, j: nat)
    requires p.maxFailures >= 1 && Covers(p) && Clocked(OneByOne(requests))
    requires var a := Run(OneByOne(requests), p).passed; i <= j < |a| && a[j] - a[i] <= p.lockout - 1.0
    ensures j - i + 1 <= p.maxFailures
  {
    OneByOneIdle(requests, p);
    AtomicStretchBound(OneByOne(requests), p, i, j);
  }
}
