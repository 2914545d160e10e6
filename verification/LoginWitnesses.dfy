/** Runs that reach the bounds on a siege of one login key, so that none of them can be lower. */
module LoginWitnesses {
  import opened Common
  import opened LatticePaths
  import opened StaleWrites
  import opened LoginThrottle
  import opened LoginSiege
  import opened LoginBounds

  /** t, k times over. */
  function Times(t: real, k: nat): (times: seq<real>)
    ensures |times| == k
  {
    if k == 0 then [] else Times(t, k - 1) + [t]
  }

  lemma TimesMore(before: seq<real>, t: real, k: nat)
    ensures before + Times(t, k) + [t] == before + Times(t, k + 1) && before + Times(t, 0) == before
  {
  }

  lemma {:induction false} TimesAt(t: real, k: nat, window: real)
    requires window > 0.0
    ensures |Times(t, k)| == k && (forall i | 0 <= i < k :: Times(t, k)[i] == t)
    ensures Recent(Times(t, k), t, window) == Times(t, k)
  {
    hide Recent;
    assert Recent([], t, window) == [] by { RecentEmpty(t, window); }
    if k > 0 {
      TimesAt(t, k - 1, window);
      RecentAppend(Times(t, k - 1), t, t, window);
    }
  }

  lemma {:induction false} TimesAdd(t: real, j: nat, k: nat)
    ensures Times(t, j) + Times(t, k) == Times(t, j + k)
  {
    if k > 0 {
      TimesAdd(t, j, k - 1);
      assert Times(t, j) + Times(t, k) == Times(t, j) + Times(t, k - 1) + [t];
    }
  }

  lemma RecentEmpty(now: real, window: real)
    ensures Recent([], now, window) == []
  {
  }

  lemma RecentAppend(times: seq<real>, x: real, now: real, window: real)
    ensures Recent(times + [x], now, window) == Recent(times, now, window) + if now - x < window then [x] else []
  {
    assert (times + [x])[..|times|] == times;
  }

  /** At time t the row shows k failures, all of that very time, and no lockout. */
  predicate Looks(r: Rec, t: real, k: nat, p: Params) {
    Recent(r.fails, t, p.window) == Times(t, k) && LockedFor(r, t) <= 0
  }

  lemma FailedLooks(r: Rec, t: real, k: nat, p: Params)
    requires p.window > 0.0 && k + 1 < p.maxFailures && Looks(r, t, k, p)
    ensures Looks(Failed(r, t, p), t, k + 1, p)
  {
    hide Recent;
    TimesAt(t, k, p.window);
    TimesAt(t, k + 1, p.window);
  }

  ghost predicate AllAt(steps: seq<Step>, t: real) { forall i | 0 <= i < |steps| :: steps[i].at == t }

  // --------------------------------------------------- overlapping records

  /** How to make the most of c free places while the row is `left` failures from the lock, at
      one moment t: one request passes and reads the row; the others exhaust the places that
      remain; then it writes, which takes the row back to one failure more than it had read. */
  function Strategy(c: nat, left: nat, b: nat, t: real): seq<Step>
    decreases c + left
  {
    if c == 0 || left == 0 then []
    else
      [Check(t)] + [Begin(t)] + [Read(b, t)] + Strategy(c - 1, left, b + 1, t)
      + [Write(b, t)] + Strategy(c, left - 1, b, t)
  }

  lemma {:induction false} StrategyAt(c: nat, left: nat, b: nat, t: real)
    ensures AllAt(Strategy(c, left, b, t), t)
    decreases c + left
  {
    if c > 0 && left > 0 {
      StrategyAt(c - 1, left, b + 1, t);
      StrategyAt(c, left - 1, b, t);
    }
  }

  lemma FromThen(s: Siege, a: seq<Step>, step: Step, b: seq<Step>, p: Params)
    ensures From(s, a + [step] + b, p) == From(Apply(From(s, a, p), step, p), b, p)
  {
    hide From, Apply;
    FromConcat(s, a + [step], b, p);
    FromOne(s, a, step, p);
  }

  /** The state after a request has passed and read the row. */
  function Passing(s: Siege, t: real, p: Params): Siege {
    s.(passed := s.passed + [t], peak := Max(s.peak, InFlight(s) + 1),
       open := s.open + [Holding(t, s.writes, Failed(s.r, t, p))])
  }

  lemma PassAndRead(s: Siege, t: real, p: Params)
    requires LockedFor(s.r, t) <= 0 && Waiting(s) >= 0
    ensures From(s, [Check(t)] + [Begin(t)] + [Read(|s.open|, t)], p) == Passing(s, t, p)
  {
    hide Failed, LockedFor;
    var n := |s.open|;
    FromOne(s, [Check(t)] + [Begin(t)], Read(n, t), p);
    FromOne(s, [Check(t)], Begin(t), p);
    FromOne(s, [], Check(t), p);
    assert [] + [Check(t)] == [Check(t)];
    assert From(s, [], p) == s;
    var stamped := s.open + [Stamped(t, s.writes)];
    assert stamped[n := Holding(t, s.writes, Failed(s.r, t, p))] == s.open + [Holding(t, s.writes, Failed(s.r, t, p))];
  }

  lemma StrategySplit(s: Siege, c: nat, left: nat, t: real, p: Params)
    requires c > 0 && left > 0 && LockedFor(s.r, t) <= 0 && Waiting(s) >= 0
    ensures var b := |s.open|;
            var inner := From(Passing(s, t, p), Strategy(c - 1, left, b + 1, t), p);
            From(s, Strategy(c, left, b, t), p)
            == From(Apply(inner, Write(b, t), p), Strategy(c, left - 1, b, t), p)
  {
    hide From, Apply, LockedFor, Passing;
    var b := |s.open|;
    var front := [Check(t)] + [Begin(t)] + [Read(b, t)];
    var mid, rest := Strategy(c - 1, left, b + 1, t), Strategy(c, left - 1, b, t);
    PassAndRead(s, t, p);
    FromConcat(s, front, mid, p);
    FromThen(s, front + mid, Write(b, t), rest, p);
  }

  /** The strategy lets (c + left over c) - 1 requests pass and leaves nothing new under way. */
  lemma {:induction false} StrategyRuns(s: Siege, c: nat, left: nat, t: real, p: Params)
    requires p.window > 0.0 && left <= p.maxFailures && Waiting(s) >= 0
    requires left > 0 ==> Looks(s.r, t, p.maxFailures - left, p)
    ensures var s' := From(s, Strategy(c, left, |s.open|, t), p);
            && s'.open == s.open && InFlight(s') == InFlight(s)
            && s'.passed == s.passed + Times(t, Paths(c, left) - 1)
            && s'.peak == if c == 0 || left == 0 then s.peak else Max(s.peak, InFlight(s) + c)
    decreases c + left
  {
    hide Failed, LockedFor, Recent, From;
    if c == 0 || left == 0 {
      assert From(s, [], p) == s by { FromNothing(s, p); }
      assert s.passed + [] == s.passed;
    } else {
      assert LockedFor(s.r, t) <= 0;
      var b := |s.open|;
      StrategySplit(s, c, left, t, p);
      var one := Passing(s, t, p);
      assert |one.open| == b + 1;
      StrategyRuns(one, c - 1, left, t, p);
      var two := From(one, Strategy(c - 1, left, b + 1, t), p);
      var three := Apply(two, Write(b, t), p);
      assert three.r == Failed(s.r, t, p) && three.open == s.open by {
        assert two.open[b] == one.open[b] == Holding(t, s.writes, Failed(s.r, t, p));
        assert Without(s.open + [one.open[b]], b) == s.open;
      }
      if left > 1 { FailedLooks(s.r, t, p.maxFailures - left, p); }
      StrategyRuns(three, c, left - 1, t, p);
      AddUp(s.passed, t, Paths(c - 1, left) - 1, Paths(c, left - 1) - 1);
    }
  }

  lemma FromNothing(s: Siege, p: Params)
    ensures From(s, [], p) == s
  {
  }

  lemma AddUp(passed: seq<real>, t: real, m: nat, n: nat)
    ensures passed + [t] + Times(t, m) + Times(t, n) == passed + Times(t, m + n + 1)
  {
    TimesAdd(t, 1, m);
    TimesAdd(t, m + 1, n);
    assert Times(t, 1) == [t];
    assert passed + [t] + Times(t, m) + Times(t, n) == passed + (([t] + Times(t, m)) + Times(t, n));
  }

  /** The bound without straddling record calls is exact, for every maxFailures and every number in
      flight: this run starts from nothing and lets that many requests pass at one moment. */
  lemma QuietBoundIsReached(p: Params, t: real, c: nat) returns (steps: seq<Step>)
    requires p.maxFailures >= 1 && p.window > 0.0 && t >= 0.0 && c >= 1
    ensures Clocked(steps) && Run(steps, p).peak == c
    ensures PassesAt(steps, 0, 0, p) && QuietAt(steps, 0, p)
    ensures Run(steps, p).passed == Times(t, Paths(c, p.maxFailures) - 1)
  {
    hide Paths;
    steps := Strategy(c, p.maxFailures, 0, t);
    StrategyAt(c, p.maxFailures, 0, t);
    StrategyRuns(QUIET, c, p.maxFailures, t, p);
    assert [] + Times(t, Paths(c, p.maxFailures) - 1) == Times(t, Paths(c, p.maxFailures) - 1);
    assert steps[0] == Check(t) && steps[..0] == [] && steps[..1] == [] + [Check(t)];
    FromOne(QUIET, [], Check(t), p);
  }

  /** So overlapping records break the bound of those that do not overlap: with a maximum of at
      least 2 and two or more requests in flight, more than maxFailures + c - 1 pass at once. */
  lemma OverlapBreaksAtomicBound(p: Params, t: real, c: nat) returns (steps: seq<Step>, n: nat)
    requires p.maxFailures >= 2 && p.window > 0.0 && t >= 0.0 && c >= 2
    ensures Clocked(steps) && Run(steps, p).peak == c
    ensures n > p.maxFailures + c - 1 && Run(steps, p).passed == Times(t, n)
  {
    hide Run;
    steps := QuietBoundIsReached(p, t, c);
    PathsOutgrowSum(c, p.maxFailures);
    n := Paths(c, p.maxFailures) - 1;
  }

  // ------------------------------------------- record calls that straddle

  /** k requests that pass at t and read the row, and have not written yet. */
  function Hold(k: nat, t: real): seq<Step> {
    if k == 0 then [] else Hold(k - 1, t) + ([Check(t)] + [Begin(t)] + [Read(k - 1, t)])
  }

  lemma {:induction false} HoldAt(k: nat, t: real)
    ensures AllAt(Hold(k, t), t)
  {
    if k > 0 { HoldAt(k - 1, t); }
  }

  lemma {:induction false} HoldRuns(k: nat, t: real, p: Params)
    requires t >= 0.0
    ensures var s := Run(Hold(k, t), p);
            && s.r == FRESH && s.writes == 0 && s.passed == Times(t, k) && |s.open| == k && s.peak == k
            && forall i | 0 <= i < k :: s.open[i] == Holding(t, 0, Failed(FRESH, t, p))
  {
    hide Failed, From;
    if k == 0 {
      FromNothing(QUIET, p);
    } else {
      HoldRuns(k - 1, t, p);
      var s := Run(Hold(k - 1, t), p);
      FromConcat(QUIET, Hold(k - 1, t), [Check(t)] + [Begin(t)] + [Read(k - 1, t)], p);
      PassAndRead(s, t, p);
    }
  }

  /** The strategy on the places left, again after each of the h held rows is written, last one first. */
  function Waves(h: nat, c: nat, max: nat, t: real): seq<Step>
    requires h < c
  {
    if h == 0 then Strategy(c, max, 0, t)
    else Strategy(c - h, max, h, t) + [Write(h - 1, t)] + Waves(h - 1, c, max, t)
  }

  lemma {:induction false} WavesAt(h: nat, c: nat, max: nat, t: real)
    requires h < c
    ensures AllAt(Waves(h, c, max, t), t)
  {
    hide Strategy;
    StrategyAt(c - h, max, h, t);
    if h > 0 { WavesAt(h - 1, c, max, t); }
  }

  function WaveGain(h: nat, c: nat, max: nat): int
    requires h < c
  {
    Paths(c, max + 1) - Paths(c - h - 1, max + 1) - (h + 1)
  }

  lemma WaveGainStep(h: nat, c: nat, max: nat)
    requires h < c
    ensures WaveGain(h, c, max) == Paths(c - h, max) - 1 + if h == 0 then 0 else WaveGain(h - 1, c, max)
    ensures h > 0 ==> WaveGain(h - 1, c, max) >= 0
    decreases h
  {
    if h > 0 { WaveGainStep(h - 1, c, max); }
  }

  ghost predicate HeldLook(s: Siege, t: real, p: Params) {
    forall i | 0 <= i < |s.open| :: s.open[i].Holding? && Looks(s.open[i].row, t, 0, p)
  }

  lemma {:induction false} WavesRun(s: Siege, c: nat, t: real, p: Params)
    requires p.maxFailures >= 1 && p.window > 0.0 && |s.open| < c && Waiting(s) == 0 && s.peak <= c
    requires Looks(s.r, t, 0, p) && HeldLook(s, t, p)
    ensures WaveGain(|s.open|, c, p.maxFailures) >= 0
    ensures var s' := From(s, Waves(|s.open|, c, p.maxFailures, t), p);
            && s'.passed == s.passed + Times(t, WaveGain(|s.open|, c, p.maxFailures)) && s'.peak == c
    decreases |s.open|
  {
    hide Looks, From, WaveGain, Paths, Strategy;
    var h := |s.open|;
    WaveGainStep(h, c, p.maxFailures);
    StrategyRuns(s, c - h, p.maxFailures, t, p);
    if h > 0 {
      var first := Strategy(c - h, p.maxFailures, h, t);
      FromThen(s, first, Write(h - 1, t), Waves(h - 1, c, p.maxFailures, t), p);
      var two := From(s, first, p);
      var three := Apply(two, Write(h - 1, t), p);
      assert three.open == s.open[..h - 1];
      WavesRun(three, c, t, p);
      TimesAdd(t, Paths(c - h, p.maxFailures) - 1, WaveGain(h - 1, c, p.maxFailures));
      assert s.passed + Times(t, Paths(c - h, p.maxFailures) - 1) + Times(t, WaveGain(h - 1, c, p.maxFailures))
          == s.passed + (Times(t, Paths(c - h, p.maxFailures) - 1) + Times(t, WaveGain(h - 1, c, p.maxFailures)));
    }
  }

  lemma OldFailureIsGone(t: real, later: real, p: Params)
    requires t >= 0.0 && p.window > 0.0 && later - t >= p.window && later - t >= p.lockout && later >= t
    ensures Looks(Failed(FRESH, t, p), later, 0, p) && Looks(FRESH, later, 0, p)
  {
    assert Recent([], t, p.window) == [];
    assert [t][..0] == [];
  }

  /** The general bound is exact too: c - 1 record calls that read the row at t write it once
      their failures have left the window, and that many requests pass at one moment then. */
  lemma StretchBoundIsReached(p: Params, t: real, later: real, c: nat) returns (steps: seq<Step>)
    requires p.maxFailures >= 1 && p.window > 0.0 && c >= 1
    requires t >= 0.0 && later >= t && later - t >= p.window && later - t >= p.lockout
    ensures Clocked(steps) && Run(steps, p).peak == c && Paths(c, p.maxFailures + 1) - c - 1 >= 0
    ensures Run(steps, p).passed == Times(t, c - 1) + Times(later, Paths(c, p.maxFailures + 1) - c - 1)
  {
    hide Paths, Looks, From, Hold, Waves, Times, Failed;
    var hold, waves := Hold(c - 1, t), Waves(c - 1, c, p.maxFailures, later);
    steps := hold + waves;
    HoldRuns(c - 1, t, p);
    OldFailureIsGone(t, later, p);
    var s := Run(hold, p);
    WavesRun(s, c, later, p);
    FromConcat(QUIET, hold, waves, p);
    NarrowPaths(p.maxFailures + 1);
    assert Paths(0, p.maxFailures + 1) == 1 by { NoRows(p.maxFailures + 1); }
    HoldAt(c - 1, t);
    WavesAt(c - 1, c, p.maxFailures, later);
  }

  /** Straddling record calls break the bound of runs without them: with two or more in
      flight, more than (c + maxFailures over c) - 1 requests pass at one moment. */
  lemma StraddleBreaksQuietBound(p: Params, t: real, later: real, c: nat) returns (steps: seq<Step>, n: nat)
    requires p.maxFailures >= 1 && p.window > 0.0 && c >= 2
    requires t >= 0.0 && later >= t && later - t >= p.window && later - t >= p.lockout
    ensures Clocked(steps) && Run(steps, p).peak == c
    ensures n > Paths(c, p.maxFailures) - 1 && Run(steps, p).passed == Times(t, c - 1) + Times(later, n)
  {
    hide Run, Paths;
    steps := StretchBoundIsReached(p, t, later, c);
    n := Paths(c, p.maxFailures + 1) - c - 1;
    PathsOutgrowSum(c - 1, p.maxFailures + 1);
    RiseIsPaths(c, p.maxFailures);
  }

  lemma RiseIsPaths(c: nat, j: nat)
    requires c >= 1
    ensures Rise(c, j) == Paths(c - 1, j + 1)
  {
  }

  lemma NoRows(b: nat)
    ensures Paths(0, b) == 1
  {
  }

  // ---------------------------------------------------------- serial requests

  /** k requests at time t. */
  function Pairs(t: real, k: nat): seq<(real, real)> { if k == 0 then [] else Pairs(t, k - 1) + [(t, t)] }

  lemma OneByOneMore(requests: seq<(real, real)>, request: (real, real))
    ensures OneByOne(requests + [request])
            == OneByOne(requests)
               + [Check(request.0)] + [Begin(request.1)] + [Read(0, request.1)] + [Write(0, request.1)]
  {
    assert Init(requests + [request]) == requests;
  }

  /** Requests in time order make a run in time order. */
  lemma {:induction false} OneByOneClock(requests: seq<(real, real)>)
    requires forall i | 0 <= i < |requests| :: 0.0 <= requests[i].0 <= requests[i].1
    requires forall i, j | 0 <= i < j < |requests| :: requests[i].1 <= requests[j].0
    ensures Clocked(OneByOne(requests))
    ensures requests != [] ==> forall i | 0 <= i < |OneByOne(requests)| :: OneByOne(requests)[i].at <= Last(requests).1
  {
    if requests != [] {
      var init, last := Init(requests), Last(requests);
      assert forall i | 0 <= i < |init| :: init[i] == requests[i];
      OneByOneClock(init);
      if init != [] { assert Last(init).1 <= last.0; }
    }
  }

  lemma {:induction false} PairsAt(t: real, k: nat)
    ensures |Pairs(t, k)| == k && forall i | 0 <= i < k :: Pairs(t, k)[i] == (t, t)
  {
    if k > 0 { PairsAt(t, k - 1); }
  }

  /** Serial failures at t while the row shows fewer than maxFailures - k of that time. */
  lemma {:induction false} PairsRun(before: seq<(real, real)>, p: Params, t: real, k: nat)
    requires p.window > 0.0 && k < p.maxFailures && Looks(Run(OneByOne(before), p).r, t, 0, p)
    ensures var s, s' := Run(OneByOne(before), p), Run(OneByOne(before + Pairs(t, k)), p);
            Looks(s'.r, t, k, p) && s'.passed == s.passed + Times(t, k)
  {
    hide Run, Looks, Failed, LockedFor, Recent, Times, OneByOne;
    var passed := Run(OneByOne(before), p).passed;
    if k == 0 {
      assert before + [] == before;
      TimesMore(passed, t, 0);
    } else {
      PairsRun(before, p, t, k - 1);
      var requests := before + Pairs(t, k - 1);
      assert before + Pairs(t, k) == requests + [(t, t)];
      OneByOneIdle(requests, p);
      OneMore(requests, (t, t), p);
      LooksUnlocked(Run(OneByOne(requests), p).r, t, k - 1, p);
      FailedLooks(Run(OneByOne(requests), p).r, t, k - 1, p);
      TimesMore(passed, t, k - 1);
    }
  }

  lemma LooksUnlocked(r: Rec, t: real, k: nat, p: Params)
    requires Looks(r, t, k, p)
    ensures LockedFor(r, t) <= 0
  {
  }

  /** maxFailures serial failures at t, and then the lockout. */
  lemma FullRun(before: seq<(real, real)>, p: Params, t: real)
    requires p.maxFailures >= 1 && p.window > 0.0 && Looks(Run(OneByOne(before), p).r, t, 0, p)
    ensures var s, s' := Run(OneByOne(before), p), Run(OneByOne(before + Pairs(t, p.maxFailures)), p);
            s'.r == Rec([], t + p.lockout) && s'.passed == s.passed + Times(t, p.maxFailures)
  {
    hide Run, LockedFor, Recent, OneByOne;
    var k := p.maxFailures - 1;
    var requests := before + Pairs(t, k);
    PairsRun(before, p, t, k);
    assert before + Pairs(t, k + 1) == requests + [(t, t)];
    OneByOneIdle(requests, p);
    OneMore(requests, (t, t), p);
    TimesAt(t, k, p.window);
    TimesMore(Run(OneByOne(before), p).passed, t, k);
  }

  lemma FreshLooks(t: real, p: Params)
    requires t >= 0.0
    ensures Run(OneByOne([]), p) == QUIET && Looks(FRESH, t, 0, p)
  {
  }

  /** The second is really lost: after maxFailures serial failures one more
      check passes half a second before the lockout ends. */
  lemma LastSecondIsOpen(p: Params, t: real)
    requires p.maxFailures >= 1 && p.lockout > 0.5 && p.window > 0.0 && t >= 0.0
    ensures var u := t + p.lockout - 0.5;
            var s := Run(OneByOne(Pairs(t, p.maxFailures)) + [Check(u)], p);
            s.passed == Times(t, p.maxFailures) + [u] && s.peak == 1
  {
    hide Run, Recent;
    FreshLooks(t, p);
    FullRun([], p, t);
    var requests := Pairs(t, p.maxFailures);
    assert [] + requests == requests && [] + Times(t, p.maxFailures) == Times(t, p.maxFailures);
    OneByOneIdle(requests, p);
    OneMore(requests, (t + p.lockout - 0.5, t + p.lockout - 0.5), p);
  }

  /** Serial requests keep to maxFailures in every stretch. */
  ghost predicate SerialBoundHolds(p: Params) {
    forall requests, i, j :: SerialBoundAt(requests, i, j, p)
  }

  ghost predicate SerialBoundAt(requests: seq<(real, real)>, i: nat, j: nat, p: Params) {
    var a := Run(OneByOne(requests), p).passed;
    Clocked(OneByOne(requests)) && i <= j < |a| && a[j] - a[i] <= p.lockout - 1.0 ==> j - i + 1 <= p.maxFailures
  }

  /** With a positive window, serial requests keep to the bound if and only if the
      window is longer than lockout - 1 seconds or the maximum is 1. */
  lemma SerialBoundIff(p: Params)
    requires p.maxFailures >= 1 && p.window > 0.0
    ensures SerialBoundHolds(p) <==> p.window > p.lockout - 1.0 || p.maxFailures == 1
  {
    if Covers(p) {
      forall requests, i: nat, j: nat ensures SerialBoundAt(requests, i, j, p) {
        var a := Run(OneByOne(requests), p).passed;
        if Clocked(OneByOne(requests)) && i <= j < |a| && a[j] - a[i] <= p.lockout - 1.0 {
          SerialStretchBound(requests, p, i, j);
        }
      }
    } else {
      var requests := WindowMustCover(p, 0.0);
      TimesAt(p.window, p.maxFailures, p.window);
      assert !SerialBoundAt(requests, 0, p.maxFailures, p);
    }
  }

  /** With maxFailures >= 2 and a window of at most lockout - 1 seconds, maxFailures + 1
      serial requests pass within one window. */
  lemma WindowMustCover(p: Params, t: real) returns (requests: seq<(real, real)>)
    requires p.maxFailures >= 2 && 0.0 < p.window <= p.lockout - 1.0 && t >= 0.0
    ensures Clocked(OneByOne(requests))
    ensures Run(OneByOne(requests), p).passed == [t] + Times(t + p.window, p.maxFailures)
  {
    hide Run, Recent;
    var u, first := t + p.window, [(t, t)];
    requests := first + Pairs(u, p.maxFailures);
    FreshLooks(t, p);
    assert [] + first == first && [] + [t] == [t];
    OneByOneIdle([], p);
    OneMore([], (t, t), p);
    FirstIsGone(t, u, p);
    FullRun(first, p, u);
    PairsAt(u, p.maxFailures);
    OneByOneClock(requests);
  }

  lemma FirstIsGone(t: real, u: real, p: Params)
    requires p.maxFailures >= 2 && t >= 0.0 && u - t >= p.window > 0.0
    ensures LockedFor(FRESH, t) <= 0 && Looks(Failed(FRESH, t, p), u, 0, p)
  {
    assert Recent([], t, p.window) == [];
    assert [t][..0] == [];
  }

  // ------------------------------------------------------- checks alone

  function Checks(t: real, k: nat): seq<Step> { if k == 0 then [] else Checks(t, k - 1) + [Check(t)] }

  lemma {:induction false} ChecksAt(t: real, k: nat)
    ensures AllAt(Checks(t, k), t)
  {
    if k > 0 { ChecksAt(t, k - 1); }
  }

  /** While there is no lock, further checks all pass, however many are in flight. */
  lemma {:induction false} ChecksRun(s: Siege, p: Params, t: real, k: nat)
    requires LockedFor(s.r, t) <= 0
    ensures var s' := From(s, Checks(t, k), p);
            && s'.r == s.r && s'.open == s.open && s'.writes == s.writes && s'.overlapped == s.overlapped
            && s'.passed == s.passed + Times(t, k)
            && s'.peak == if k == 0 then s.peak else Max(s.peak, InFlight(s) + k)
  {
    hide From, LockedFor, Times;
    assert Checks(t, k) == if k == 0 then [] else Checks(t, k - 1) + [Check(t)];
    if k == 0 {
      FromNothing(s, p);
      TimesMore(s.passed, t, 0);
    } else {
      ChecksRun(s, p, t, k - 1);
      FromOne(s, Checks(t, k - 1), Check(t), p);
      TimesMore(s.passed, t, k - 1);
    }
  }

  /** The bound for records that do not overlap is exact: maxFailures - 1 serial failures, then c checks. */
  lemma AtomicBoundIsReached(p: Params, t: real, c: nat) returns (steps: seq<Step>)
    requires p.maxFailures >= 1 && p.window > 0.0 && t >= 0.0 && c >= 1
    ensures Clocked(steps) && Run(steps, p).peak == c && !Run(steps, p).overlapped
    ensures Run(steps, p).passed == Times(t, p.maxFailures + c - 1)
  {
    hide From, LockedFor, Looks, Times, OneByOne, Checks;
    var k := p.maxFailures - 1;
    var pairs, checks := OneByOne(Pairs(t, k)), Checks(t, c);
    steps := pairs + checks;
    SerialPart(p, t, k);
    var s := Run(pairs, p);
    ChecksRun(s, p, t, c);
    FromConcat(QUIET, pairs, checks, p);
    TimesAdd(t, k, c);
    PairsStart(t, k);
    ChecksAt(t, c);
  }

  lemma SerialPart(p: Params, t: real, k: nat)
    requires p.window > 0.0 && t >= 0.0 && k < p.maxFailures
    ensures var s := Run(OneByOne(Pairs(t, k)), p);
            Idle(s) && LockedFor(s.r, t) <= 0 && s.passed == Times(t, k)
  {
    hide From, LockedFor, Looks, OneByOne;
    FreshLooks(t, p);
    PairsRun([], p, t, k);
    assert [] + Pairs(t, k) == Pairs(t, k) && [] + Times(t, k) == Times(t, k);
    OneByOneIdle(Pairs(t, k), p);
    LooksUnlocked(Run(OneByOne(Pairs(t, k)), p).r, t, k, p);
  }

  lemma {:induction false} PairsStart(t: real, k: nat)
    ensures AllAt(OneByOne(Pairs(t, k)), t)
  {
    if k > 0 {
      PairsStart(t, k - 1);
      OneByOneMore(Pairs(t, k - 1), (t, t));
    }
  }

  /** No bound without one on the requests in flight: any number of checks that
      precede the first write pass. */
  lemma OverlapIsUnbounded(p: Params, t: real, k: nat)
    requires t >= 0.0
    ensures Clocked(Checks(t, k))
    ensures Run(Checks(t, k), p).passed == Times(t, k) && Run(Checks(t, k), p).writes == 0
  {
    ChecksRun(QUIET, p, t, k);
    assert [] + Times(t, k) == Times(t, k);
    ChecksAt(t, k);
  }

  // -------------------------------------------- two records that overlap

  /** The durable record is a read and a later write. Of two failures one short of the limit
      the second locks; if it read the row before the first wrote, its write
      drops the first failure, and with it the lockout. */
  lemma OverlappingWriteUndoesLock(r: Rec, now: real, p: Params)
    requires p.window > 0.0 && p.lockout >= 1.0 && r.until <= now
    requires |Recent(r.fails, now, p.window)| + 2 == p.maxFailures
    ensures LockedFor(Failed(Failed(r, now, p), now, p), now) >= 1
    ensures LockedFor(Failed(r, now, p), now) == 0 && Failed(r, now, p).until == r.until
  {
    var kept := Recent(r.fails, now, p.window);
    RecentTwice(r.fails, now, p.window);
    assert (kept + [now])[..|kept|] == kept;
  }

  lemma {:induction false} RecentTwice(fails: seq<real>, now: real, window: real)
    ensures Recent(Recent(fails, now, window), now, window) == Recent(fails, now, window)
  {
    if fails != [] {
      var init, last := fails[..|fails| - 1], fails[|fails| - 1];
      RecentTwice(init, now, window);
      var kept := Recent(init, now, window);
      if now - last < window {
        assert (kept + [last])[..|kept|] == kept;
      } else {
        assert Recent(fails, now, window) == kept;
      }
    }
  }
}
