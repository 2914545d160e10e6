/** One key under attack: how many login requests get past the lock check while others are
    still verifying their password or recording their failure. The durable record is a
    SELECT followed later by an upsert (backend/db.py), so records overlap as well. */
module LoginSiege {
  import opened Common
  import opened LatticePaths
  import opened StaleWrites
  import opened LoginThrottle

  /** A record call under way: it took the time and, once it has read the row, holds the row it
      is going to write. `since` is how many writes there had been when it began. */
  datatype Entry =
    | Stamped(at: real, since: int)
    | Holding(at: real, since: int, row: Rec)

  /** A request passes the check, and its record call begins, reads and writes. Which of the
      requests that have passed begins first makes no difference, so they carry no names. */
  datatype Step =
    | Check(at: real)
    | Begin(at: real)
    | Read(i: nat, at: real)
    | Write(i: nat, at: real)

  /** `passed` lists when requests got past the check; at most `peak` of them were in flight at
      once. `overlapped` says that some record call wrote after another one had, since it began. */
  datatype Siege = Siege(
    r: Rec,
    passed: seq<real>,
    open: seq<Entry>,
    writes: int,
    peak: int,
    overlapped: bool)

  const QUIET := Siege(FRESH, [], [], 0, 0, false)

  function InFlight(s: Siege): int { |s.passed| - s.writes }

  function Waiting(s: Siege): int { InFlight(s) - |s.open| }

  function Max(a: int, b: int): int { if a >= b then a else b }

  function Apply(s: Siege, step: Step, p: Params): Siege {
    match step
    case Check(at) =>
      if LockedFor(s.r, at) > 0 then s
      else s.(passed := s.passed + [at], peak := Max(s.peak, InFlight(s) + 1))
    case Begin(at) =>
      if Waiting(s) <= 0 then s else s.(open := s.open + [Stamped(at, s.writes)])
    case Read(i, _) =>
      if i >= |s.open| || !s.open[i].Stamped? then s
      else
        var e := s.open[i];
        s.(open := s.open[i := Holding(e.at, e.since, Failed(s.r, e.at, p))])
    case Write(i, _) =>
      if i >= |s.open| || !s.open[i].Holding? then s
      else
        var e := s.open[i];
        s.(r := e.row, open := Without(s.open, i), writes := s.writes + 1,
           overlapped := s.overlapped || e.since != s.writes)
  }

  function From(s: Siege, steps: seq<Step>, p: Params): Siege {
    if steps == [] then s else Apply(From(s, Init(steps), p), Last(steps), p)
  }

  function Run(steps: seq<Step>, p: Params): Siege { From(QUIET, steps, p) }

  /** The clock starts at 0 and does not go back. */
  ghost predicate Clocked(steps: seq<Step>) {
    && (forall i | 0 <= i < |steps| :: steps[i].at >= 0.0)
    && (forall i, j | 0 <= i < j < |steps| :: steps[i].at <= steps[j].at)
  }

  ghost predicate Within(steps: seq<Step>, from: real, upto: real) {
    forall i | 0 <= i < |steps| :: from <= steps[i].at <= upto
  }

  /** Failures of one stretch stay in the window to its end, or the first failure locks. */
  predicate Covers(p: Params) { p.lockout - 1.0 < p.window || p.maxFailures == 1 }

  lemma FromOne(s: Siege, steps: seq<Step>, step: Step, p: Params)
    ensures From(s, steps + [step], p) == Apply(From(s, steps, p), step, p)
  {
    assert Init(steps + [step]) == steps;
  }

  lemma {:induction false} FromConcat(s: Siege, a: seq<Step>, b: seq<Step>, p: Params)
    ensures From(s, a + b, p) == From(From(s, a, p), b, p)
  {
    if b == [] {
      assert a + b == a;
    } else {
      FromConcat(s, a, Init(b), p);
      assert Init(a + b) == a + Init(b);
    }
  }

  /** A record call that nothing interrupts is one step: the row becomes Failed of itself. */
  lemma UninterruptedRecord(s: Siege, at: real, p: Params)
    requires Waiting(s) > 0
    ensures var n := |s.open|;
            Apply(Apply(Apply(s, Begin(at), p), Read(n, at), p), Write(n, at), p)
            == s.(r := Failed(s.r, at, p), writes := s.writes + 1)
  {
    hide Failed;
    var n := |s.open|;
    var held := Holding(at, s.writes, Failed(s.r, at, p));
    assert (s.open + [Stamped(at, s.writes)])[n := held] == s.open + [held];
    assert Without(s.open + [held], n) == s.open;
  }

  // ------------------------------------------------------------ invariants

  ghost predicate Sound(s: Siege, p: Params) {
    && |s.r.fails| < p.maxFailures
    && (forall i | 0 <= i < |s.open| && s.open[i].Holding? :: |s.open[i].row.fails| < p.maxFailures)
    && 0 <= s.writes && |s.open| + s.writes <= |s.passed| && InFlight(s) <= s.peak
  }

  lemma SoundStep(s: Siege, step: Step, p: Params)
    requires Sound(s, p) && p.maxFailures >= 1
    ensures Sound(Apply(s, step, p), p)
    ensures Apply(s, step, p).peak >= s.peak && |Apply(s, step, p).passed| >= |s.passed|
    ensures s.overlapped ==> Apply(s, step, p).overlapped
  {
    hide LockedFor, Recent;
  }

  lemma {:induction false} SoundFrom(s: Siege, steps: seq<Step>, p: Params)
    requires Sound(s, p) && p.maxFailures >= 1
    ensures Sound(From(s, steps, p), p)
    ensures From(s, steps, p).peak >= s.peak && |From(s, steps, p).passed| >= |s.passed|
    ensures s.overlapped ==> From(s, steps, p).overlapped
  {
    hide Sound, Apply;
    if steps != [] {
      SoundFrom(s, Init(steps), p);
      SoundStep(From(s, Init(steps), p), Last(steps), p);
    }
  }

  // ------------------------------------- one stretch, seen from its start

  function NewFails(fails: seq<real>, start: real): nat {
    if fails == [] then 0 else NewFails(Init(fails), start) + if Last(fails) >= start then 1 else 0
  }

  /** How many more failures of the stretch lock the row for the rest of it; 0 when locked. */
  function Distance(r: Rec, start: real, p: Params): nat {
    var left := p.maxFailures - NewFails(r.fails, start);
    if r.until >= start + p.lockout || left <= 0 then 0 else left
  }

  lemma {:induction false} NewFailsAtMost(fails: seq<real>, start: real)
    ensures NewFails(fails, start) <= |fails|
  {
    if fails != [] { NewFailsAtMost(Init(fails), start); }
  }

  /** Recent drops no failure of the stretch. */
  lemma {:induction false} RecentKeepsNew(fails: seq<real>, start: real, now: real, p: Params)
    requires now <= start + p.lockout - 1.0 && p.lockout - 1.0 < p.window
    ensures NewFails(Recent(fails, now, p.window), start) == NewFails(fails, start)
  {
    if fails != [] {
      var init, last := Init(fails), Last(fails);
      RecentKeepsNew(init, start, now, p);
      var kept := Recent(init, now, p.window);
      assert Init(kept + [last]) == kept;
      assert kept + [] == kept && Recent(fails, now, p.window) == kept + if now - last < p.window then [last] else [];
    }
  }

  /** Whoever passes inside the stretch found the row unlocked. */
  lemma PassedUnlocked(r: Rec, start: real, now: real, p: Params)
    requires now <= start + p.lockout - 1.0 && LockedFor(r, now) <= 0 && |r.fails| < p.maxFailures
    ensures 1 <= Distance(r, start, p) <= p.maxFailures
  {
    NewFailsAtMost(r.fails, start);
  }

  /** A failure of the stretch brings the row one closer to the lock, or keeps it locked. */
  lemma FailedIsCloser(r: Rec, start: real, now: real, p: Params)
    requires p.maxFailures >= 1 && Covers(p) && start <= now <= start + p.lockout - 1.0
    ensures var d, d' := Distance(r, start, p), Distance(Failed(r, now, p), start, p);
            d' <= d && (d > 0 ==> d' < d)
  {
    hide Recent;
    var kept := Recent(r.fails, now, p.window);
    if |kept| + 1 < p.maxFailures {
      RecentKeepsNew(r.fails, start, now, p);
      assert Init(kept + [now]) == kept;
    }
  }

  lemma DistanceAtMost(r: Rec, start: real, p: Params)
    requires p.maxFailures >= 0
    ensures Distance(r, start, p) <= p.maxFailures
  {
  }

  /** What an open record call will leave of the distance, -1 while it has still to read. One
      that began before the stretch may leave all of it, whenever it reads. */
  function Level(e: Entry, start: real, p: Params): int {
    match e
    case Stamped(at, _) => if at < start then p.maxFailures else -1
    case Holding(_, _, row) => Distance(row, start, p)
  }

  function Levels(open: seq<Entry>, start: real, p: Params): (ls: seq<int>)
    ensures |ls| == |open| && forall i | 0 <= i < |open| :: ls[i] == Level(open[i], start, p)
  {
    seq(|open|, i requires 0 <= i < |open| => Level(open[i], start, p))
  }

  ghost function Unread(s: Siege, start: real, p: Params): int { InFlight(s) - Holders(Levels(s.open, start, p)) }

  /** How many more requests can pass within the stretch. */
  ghost function Phi(s: Siege, start: real, c: nat, p: Params): int
    requires p.maxFailures >= 0 && Holders(Levels(s.open, start, p)) <= c
  {
    Potential(Levels(s.open, start, p), Distance(s.r, start, p), Unread(s, start, p), c, p.maxFailures)
  }

  /** A request gains at most what the potential gives up. */
  ghost predicate Pays(s: Siege, s': Siege, start: real, c: nat, p: Params)
    requires p.maxFailures >= 0
  {
    && Holders(Levels(s.open, start, p)) <= c && Holders(Levels(s'.open, start, p)) <= c
    && |s'.passed| + Phi(s', start, c, p) <= |s.passed| + Phi(s, start, c, p)
  }

  lemma HoldersFit(s: Siege, start: real, c: nat, p: Params)
    requires Sound(s, p) && s.peak <= c
    ensures Holders(Levels(s.open, start, p)) <= |s.open| && InFlight(s) <= c && Unread(s, start, p) >= 0
  {
  }

  lemma CheckPays(s: Siege, at: real, start: real, c: nat, p: Params)
    requires p.maxFailures >= 1 && Sound(s, p) && start <= at <= start + p.lockout - 1.0
    requires Apply(s, Check(at), p).peak <= c
    ensures Pays(s, Apply(s, Check(at), p), start, c, p)
  {
    hide Sound, Held, Distance;
    SoundStep(s, Check(at), p);
    HoldersFit(s, start, c, p);
    if LockedFor(s.r, at) <= 0 {
      assert |s.r.fails| < p.maxFailures by { SoundRow(s, p); }
      PassedUnlocked(s.r, start, at, p);
    }
  }

  lemma SoundRow(s: Siege, p: Params)
    requires Sound(s, p)
    ensures |s.r.fails| < p.maxFailures
  {
  }

  lemma BeginPays(s: Siege, at: real, start: real, c: nat, p: Params)
    requires p.maxFailures >= 1 && Sound(s, p) && start <= at && s.peak <= c
    ensures Pays(s, Apply(s, Begin(at), p), start, c, p)
  {
    hide Held, Distance;
    HoldersFit(s, start, c, p);
    var s' := Apply(s, Begin(at), p);
    if Waiting(s) > 0 {
      var levels := Levels(s.open, start, p);
      assert Levels(s'.open, start, p) == levels + [-1];
      assert Init(levels + [-1]) == levels;
      HeldSame(levels, levels + [-1], Distance(s.r, start, p), c, p.maxFailures);
    }
  }

  lemma ReadPays(s: Siege, i: nat, at: real, start: real, c: nat, p: Params)
    requires p.maxFailures >= 1 && Covers(p) && Sound(s, p) && s.peak <= c
    requires i < |s.open| && s.open[i].at <= start + p.lockout - 1.0
    ensures Pays(s, Apply(s, Read(i, at), p), start, c, p)
  {
    hide Held, Distance, Failed, Potential, Covers;
    HoldersFit(s, start, c, p);
    var e := s.open[i];
    if e.Stamped? {
      var levels, row := Levels(s.open, start, p), Distance(s.r, start, p);
      var x := Distance(Failed(s.r, e.at, p), start, p);
      var s' := Apply(s, Read(i, at), p);
      assert Levels(s'.open, start, p) == levels[i := x];
      DistanceAtMost(s.r, start, p);
      DistanceAtMost(Failed(s.r, e.at, p), start, p);
      if e.at >= start {
        FailedIsCloser(s.r, start, e.at, p);
        UnreadIsNoHolder(levels, i);
        ReadKeeps(levels, i, x, row, Unread(s, start, p), c, p.maxFailures);
      } else {
        HeldLower(levels, i, x, row, c, p.maxFailures);
        assert Potential(levels[i := x], row, Unread(s, start, p), c, p.maxFailures)
            <= Potential(levels, row, Unread(s, start, p), c, p.maxFailures) by {
          LowerHeldLowerPotential(levels, levels[i := x], row, Unread(s, start, p), c, p.maxFailures);
        }
      }
    }
  }

  lemma LowerHeldLowerPotential(a: seq<int>, b: seq<int>, row: nat, unread: int, c: nat, max: nat)
    requires Holders(a) == Holders(b) <= c && Held(b, row, c, max) <= Held(a, row, c, max)
    ensures Potential(b, row, unread, c, max) <= Potential(a, row, unread, c, max)
  {
  }

  lemma UnreadIsNoHolder(levels: seq<int>, i: nat)
    requires i < |levels| && levels[i] < 0
    ensures Holders(levels) < |levels|
  {
    AtLeastParts(levels, i, 0);
  }

  lemma WritePays(s: Siege, i: nat, at: real, start: real, c: nat, p: Params)
    requires p.maxFailures >= 1 && Sound(s, p) && s.peak <= c
    ensures Pays(s, Apply(s, Write(i, at), p), start, c, p)
  {
    hide Held, Distance, Potential;
    HoldersFit(s, start, c, p);
    if i < |s.open| && s.open[i].Holding? {
      var levels, s' := Levels(s.open, start, p), Apply(s, Write(i, at), p);
      assert Levels(s'.open, start, p) == Without(levels, i);
      DistanceAtMost(s.open[i].row, start, p);
      WriteKeeps(levels, i, Distance(s.r, start, p), Unread(s, start, p), c, p.maxFailures);
    }
  }

  /** Record calls under way took their time before the steps that follow. */
  ghost predicate Begun(s: Siege, now: real) { forall i | 0 <= i < |s.open| :: s.open[i].at <= now }

  lemma BegunStep(s: Siege, step: Step, p: Params)
    requires Begun(s, step.at)
    ensures Begun(Apply(s, step, p), step.at)
  {
    hide LockedFor, Failed;
  }

  lemma StepPays(s: Siege, step: Step, start: real, c: nat, p: Params)
    requires p.maxFailures >= 1 && Covers(p) && Sound(s, p) && Begun(s, step.at)
    requires start <= step.at <= start + p.lockout - 1.0 && Apply(s, step, p).peak <= c
    ensures Pays(s, Apply(s, step, p), start, c, p)
  {
    hide Sound, Pays, Covers;
    SoundStep(s, step, p);
    match step
    case Check(at) => CheckPays(s, at, start, c, p);
    case Begin(at) => BeginPays(s, at, start, c, p);
    case Read(i, at) =>
      if i < |s.open| { ReadPays(s, i, at, start, c, p); } else { NothingPays(s, start, c, p); }
    case Write(i, at) => WritePays(s, i, at, start, c, p);
  }

  lemma NothingPays(s: Siege, start: real, c: nat, p: Params)
    requires p.maxFailures >= 1 && Sound(s, p) && s.peak <= c
    ensures Pays(s, s, start, c, p)
  {
    HoldersFit(s, start, c, p);
  }

  /** Over the whole stretch the requests that pass are paid for by the potential at its start. */
  lemma {:induction false} StretchPays(s: Siege, steps: seq<Step>, start: real, c: nat, p: Params)
    requires p.maxFailures >= 1 && Covers(p) && Sound(s, p)
    requires Within(steps, start, start + p.lockout - 1.0) && Clocked(steps)
    requires steps != [] ==> Begun(s, steps[0].at)
    requires From(s, steps, p).peak <= c
    ensures Sound(From(s, steps, p), p) && Pays(s, From(s, steps, p), start, c, p)
    ensures steps != [] ==> Begun(From(s, steps, p), Last(steps).at)
  {
    hide Sound, Pays, Covers, Apply, Phi;
    SoundFrom(s, steps, p);
    if steps == [] {
      NothingPays(s, start, c, p);
    } else {
      var init, last := Init(steps), Last(steps);
      assert forall i | 0 <= i < |init| :: init[i] == steps[i];
      var before := From(s, init, p);
      SoundFrom(s, init, p);
      SoundStep(before, last, p);
      StretchPays(s, init, start, c, p);
      assert Begun(before, last.at) by { if init != [] { assert Last(init).at <= last.at; } }
      BegunStep(before, last, p);
      StepPays(before, last, start, c, p);
      PaysAdd(s, before, From(s, steps, p), start, c, p);
    }
  }

  lemma PaysAdd(a: Siege, b: Siege, d: Siege, start: real, c: nat, p: Params)
    requires p.maxFailures >= 0 && Pays(a, b, start, c, p) && Pays(b, d, start, c, p)
    ensures Pays(a, d, start, c, p)
  {
    hide Phi;
  }

  // ------------------------------------------------------- finding the steps

  /** Step k is the check with which request i passes. */
  ghost predicate PassesAt(steps: seq<Step>, i: nat, k: nat, p: Params) {
    && k < |steps| && steps[k].Check?
    && |Run(steps[..k], p).passed| == i && Run(steps[..k + 1], p).passed == Run(steps[..k], p).passed + [steps[k].at]
  }

  lemma {:induction false} FindPass(steps: seq<Step>, i: nat, p: Params) returns (k: nat)
    requires i < |Run(steps, p).passed|
    ensures PassesAt(steps, i, k, p) && steps[k].at == Run(steps, p).passed[i]
  {
    var init, last := Init(steps), Last(steps);
    assert steps[..|init|] == init && steps[..|init| + 1] == steps;
    hide From;
    assert From(QUIET, steps, p) == Apply(From(QUIET, init, p), last, p) by { StepLast(steps, p); }
    if i < |Run(init, p).passed| {
      k := FindPass(init, i, p);
      assert init[..k] == steps[..k] && init[..k + 1] == steps[..k + 1];
    } else {
      k := |init|;
    }
  }

  lemma StepLast(steps: seq<Step>, p: Params)
    requires steps != []
    ensures From(QUIET, steps, p) == Apply(From(QUIET, Init(steps), p), Last(steps), p)
  {
  }

  lemma RunSplit(steps: seq<Step>, k: nat, n: nat, p: Params)
    requires p.maxFailures >= 1 && k <= n <= |steps|
    ensures Run(steps[..n], p) == From(Run(steps[..k], p), steps[k..n], p)
    ensures Sound(Run(steps[..k], p), p) && Run(steps[..k], p).peak <= Run(steps[..n], p).peak <= Run(steps, p).peak
    ensures |Run(steps[..k], p).passed| <= |Run(steps[..n], p).passed|
    ensures Run(steps[..n], p).overlapped ==> Run(steps, p).overlapped
  {
    hide Sound, From;
    assert Sound(QUIET, p) by { QuietIsSound(p); }
    assert steps[..n] == steps[..k] + steps[k..n] && steps == steps[..n] + steps[n..];
    FromConcat(QUIET, steps[..k], steps[k..n], p);
    FromConcat(QUIET, steps[..n], steps[n..], p);
    SoundFrom(QUIET, steps[..k], p);
    SoundFrom(Run(steps[..k], p), steps[k..n], p);
    SoundFrom(Run(steps[..n], p), steps[n..], p);
  }

  lemma QuietIsSound(p: Params)
    requires p.maxFailures >= 1
    ensures Sound(QUIET, p)
  {
  }

  lemma {:induction false} RunBegun(steps: seq<Step>, now: real, p: Params)
    requires Clocked(steps) && forall i | 0 <= i < |steps| :: steps[i].at <= now
    ensures Begun(Run(steps, p), now)
  {
    hide Apply;
    if steps != [] {
      var init, last := Init(steps), Last(steps);
      assert forall i | 0 <= i < |init| :: init[i] == steps[i];
      RunBegun(init, last.at, p);
      BegunStep(Run(init, p), last, p);
    }
  }

  lemma PassesInOrder(steps: seq<Step>, i: nat, j: nat, k: nat, n: nat, p: Params)
    requires p.maxFailures >= 1 && i <= j && PassesAt(steps, i, k, p) && PassesAt(steps, j, n, p)
    ensures k <= n
  {
    if n < k { RunSplit(steps, n + 1, k, p); }
  }

  /** From the check of request i to that of request j: what passes is paid for. */
  lemma PaidBetween(steps: seq<Step>, i: nat, j: nat, k: nat, n: nat, p: Params)
    requires p.maxFailures >= 1 && Covers(p) && Clocked(steps) && i <= j
    requires PassesAt(steps, i, k, p) && PassesAt(steps, j, n, p) && steps[n].at - steps[k].at <= p.lockout - 1.0
    ensures var s, c := Run(steps[..k], p), Run(steps, p).peak;
            && Sound(s, p) && 0 <= InFlight(s) < c && 1 <= Distance(s.r, steps[k].at, p) <= p.maxFailures
            && Holders(Levels(s.open, steps[k].at, p)) <= c && Begun(s, steps[k].at)
            && j - i + 1 <= Phi(s, steps[k].at, c, p)
  {
    hide Sound, Covers, Phi, Distance, From, Apply, Levels;
    PassesInOrder(steps, i, j, k, n, p);
    RunSplit(steps, k, n + 1, p);
    RunSplit(steps, k, k + 1, p);
    PassedStep(steps, i, k, p);
    var start := steps[k].at;
    var c: nat := Run(steps, p).peak;
    var s, part := Run(steps[..k], p), steps[k..n + 1];
    assert Begun(s, start) by { RunBegun(steps[..k], start, p); }
    PartClocked(steps, k, n);
    StretchPays(s, part, start, c, p);
    var s' := From(s, part, p);
    HoldersFit(s', start, c, p);
    PhiNonNegative(s', start, c, p);
  }

  lemma PartClocked(steps: seq<Step>, k: nat, n: nat)
    requires k <= n < |steps| && Clocked(steps)
    ensures var part := steps[k..n + 1];
            Clocked(part) && part[0] == steps[k] && Within(part, steps[k].at, steps[n].at)
    ensures Clocked(steps[..k]) && forall i | 0 <= i < k :: steps[..k][i].at <= steps[k].at
  {
    var part := steps[k..n + 1];
    assert forall l | 0 <= l < |part| :: part[l] == steps[k + l];
  }

  lemma PhiNonNegative(s: Siege, start: real, c: nat, p: Params)
    requires p.maxFailures >= 1 && Sound(s, p) && s.peak <= c
    ensures Holders(Levels(s.open, start, p)) <= c && Phi(s, start, c, p) >= 0
  {
    HoldersFit(s, start, c, p);
    PotentialNonNegative(Levels(s.open, start, p), Distance(s.r, start, p), Unread(s, start, p), c, p.maxFailures);
  }

  lemma PassedStep(steps: seq<Step>, i: nat, k: nat, p: Params)
    requires p.maxFailures >= 1 && PassesAt(steps, i, k, p) && p.lockout >= 1.0
    ensures var s := Run(steps[..k], p);
            0 <= InFlight(s) < Run(steps[..k + 1], p).peak && 1 <= Distance(s.r, steps[k].at, p) <= p.maxFailures
  {
    hide Distance;
    var s := Run(steps[..k], p);
    assert Init(steps[..k + 1]) == steps[..k];
    RunSplit(steps, k, k + 1, p);
    PassedUnlocked(s.r, steps[k].at, steps[k].at, p);
  }

  lemma RecentEmpty(now: real, window: real)
    ensures Recent([], now, window) == []
  {
  }

  lemma RecentAppend(times: seq<real>, x: real, now: real, window: real)
    ensures Recent(times + [x], now, window) == Recent(times, now, window) + if now - x < window then [x] else []
  {
    assert (times + [x])[..|times|] == times;
  }

}
