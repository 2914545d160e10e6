/** The per-source flood guard of the enrolment route (backend/app.py). */
module EnrollFlood {
  import opened Common

  datatype Params = Params(maxn: int, window: int)

  type Table = map<string, seq<real>>

  const TABLE_LIMIT := 10000

  /** [t for t in hits if t >= cutoff] */
  function Kept(hits: seq<real>, cutoff: real): seq<real> {
    if hits == [] then []
    else
      var last := hits[|hits| - 1];
      Kept(hits[..|hits| - 1], cutoff) + if last >= cutoff then [last] else []
  }

  function HitsOf(t: Table, ip: string): seq<real> { if ip in t then t[ip] else [] }

  function Cutoff(p: Params, now: real): real { now - p.window as real }

  predicate Idle(hits: seq<real>, cutoff: real) { hits == [] || hits[|hits| - 1] < cutoff }

  function Evicted(t: Table, cutoff: real): Table {
    if |t| > TABLE_LIMIT then map ip | ip in t && !Idle(t[ip], cutoff) :: t[ip] else t
  }

  predicate Off(p: Params, ip: string) { ip == "" || p.maxn <= 0 || p.window <= 0 }

  /** Python's max(1, int(x)) for x >= 0. */
  function RetryAfter(first: real, p: Params, now: real): (s: int)
    ensures s >= 1 && s as real > first + p.window as real - now - 1.0
    ensures s > 1 ==> s as real <= first + p.window as real - now
  {
    var left := (first + p.window as real - now).Floor;
    if left < 1 then 1 else left
  }

  /** The guard as coded: trims old hits, evicts idle sources. 0 admits. */
  function Guard(t: Table, ip: string, p: Params, now: real): (Table, int) {
    if Off(p, ip) then (t, 0)
    else
      var hits := Kept(HitsOf(t, ip), Cutoff(p, now));
      if |hits| >= p.maxn then (t[ip := hits], RetryAfter(hits[0], p, now))
      else (Evicted(t[ip := hits + [now]], Cutoff(p, now)), 0)
  }

  /** The guard one would write with unlimited memory: nothing is ever forgotten. */
  function FullGuard(t: Table, ip: string, p: Params, now: real): (Table, int) {
    if Off(p, ip) then (t, 0)
    else
      var hits := Kept(HitsOf(t, ip), Cutoff(p, now));
      if |hits| >= p.maxn then (t, RetryAfter(hits[0], p, now))
      else (t[ip := HitsOf(t, ip) + [now]], 0)
  }

  class RateGuard {
    const p: Params
    var rate: Table

    constructor (p: Params)
      ensures this.p == p && rate == map[]
    {
      this.p := p;
      rate := map[];
    }

    method Limited(ip: string, now: real) returns (retryAfter: int)
      modifies this
      ensures (rate, retryAfter) == Guard(old(rate), ip, p, now)
      ensures !Off(p, ip) && retryAfter == 0 ==>
                && (forall k | k in rate && k != ip :: k in old(rate) && rate[k] == old(rate)[k])
                && (|rate| <= TABLE_LIMIT
                    || forall k | k in rate :: rate[k] != [] && Last(rate[k]) >= now - p.window as real)
    {
      if ip == "" || p.maxn <= 0 || p.window <= 0 {
        return 0;
      }
      var cutoff := now - p.window as real;
      var before := if ip in rate then rate[ip] else [];
      var hits := [];
      for k := 0 to |before|
        invariant hits == Kept(before[..k], cutoff)
        invariant rate == old(rate)
      {
        assert before[..k + 1][..k] == before[..k];
        if before[k] >= cutoff {
          hits := hits + [before[k]];
        }
      }
      assert before[..|before|] == before;
      if |hits| >= p.maxn {
        rate := rate[ip := hits];
        var left := (hits[0] + p.window as real - now).Floor;
        return if left < 1 then 1 else left;
      }
      hits := hits + [now];
      rate := rate[ip := hits];
      if |rate| > TABLE_LIMIT {
        var idle := set k | k in rate && (rate[k] == [] || rate[k][|rate[k]| - 1] < cutoff);
        assert rate - idle == Evicted(rate, cutoff);
        rate := rate - idle;
      }
      return 0;
    }
  }

  // --------------------------------------------------------- refinement

  datatype Hit = Hit(ip: string, at: real)

  ghost predicate Clocked(hs: seq<Hit>) { forall i, j | 0 <= i < j < |hs| :: hs[i].at <= hs[j].at }

  function Trimmed(hs: seq<Hit>, p: Params): Table {
    if hs == [] then map[] else Guard(Trimmed(Init(hs), p), Last(hs).ip, p, Last(hs).at).0
  }

  function Full(hs: seq<Hit>, p: Params): Table {
    if hs == [] then map[] else FullGuard(Full(Init(hs), p), Last(hs).ip, p, Last(hs).at).0
  }

  ghost predicate SortedUpTo(times: seq<real>, now: real) {
    && (forall i, j | 0 <= i < j < |times| :: times[i] <= times[j])
    && (forall i | 0 <= i < |times| :: times[i] <= now)
  }

  /** Both tables show the same hits to every cutoff the clock can still produce. */
  ghost predicate SameView(t: Table, full: Table, p: Params, now: real) {
    forall ip, c: real | c >= Cutoff(p, now) :: Kept(HitsOf(t, ip), c) == Kept(HitsOf(full, ip), c)
  }

  ghost predicate Sorted(t: Table, now: real) { forall ip :: SortedUpTo(HitsOf(t, ip), now) }

  lemma {:induction false} KeptTwice(hits: seq<real>, c: real, d: real)
    requires c <= d
    ensures Kept(Kept(hits, c), d) == Kept(hits, d)
  {
    if hits != [] {
      var init, last := hits[..|hits| - 1], hits[|hits| - 1];
      KeptTwice(init, c, d);
      if last >= c {
        KeptAppend(Kept(init, c), last, d);
      } else {
        assert Kept(hits, c) == Kept(init, c) && Kept(hits, d) == Kept(init, d);
      }
    }
  }

  lemma KeptAppend(hits: seq<real>, x: real, c: real)
    ensures Kept(hits + [x], c) == Kept(hits, c) + if x >= c then [x] else []
  {
    assert (hits + [x])[..|hits|] == hits;
  }

  lemma {:induction false} KeptNone(hits: seq<real>, c: real)
    requires forall i | 0 <= i < |hits| :: hits[i] < c
    ensures Kept(hits, c) == []
  {
    if hits != [] { KeptNone(hits[..|hits| - 1], c); }
  }

  lemma IdleShowsNothing(hits: seq<real>, now: real, c: real, d: real)
    requires SortedUpTo(hits, now) && c <= d
    ensures Idle(hits, c) ==> Kept(hits, d) == [] && forall i | 0 <= i < |hits| :: hits[i] < c
  {
    if hits != [] && Idle(hits, c) {
      SortedInit(hits, now);
      KeptNone(hits, d);
    }
  }

  /** In a sorted list the kept hits are a suffix, and those before it are too old. */
  lemma {:induction false} KeptIsSuffix(hits: seq<real>, now: real, c: real) returns (k: nat)
    requires SortedUpTo(hits, now)
    ensures k <= |hits| && Kept(hits, c) == hits[k..]
    ensures forall i | 0 <= i < k :: hits[i] < c
  {
    if hits == [] {
      k := 0;
    } else {
      hide SortedUpTo;
      var init, last := hits[..|hits| - 1], hits[|hits| - 1];
      SortedInit(hits, now);
      if last < c {
        k := |hits|;
        IdleShowsNothing(hits, now, c, c);
      } else {
        k := KeptIsSuffix(init, now, c);
        assert forall i | 0 <= i < k :: hits[i] == init[i];
        SuffixGrows(hits, k);
      }
    }
  }

  lemma SuffixGrows(hits: seq<real>, k: nat)
    requires k < |hits|
    ensures hits[..|hits| - 1][k..] + [hits[|hits| - 1]] == hits[k..]
  {
  }

  lemma SortedInit(hits: seq<real>, now: real)
    requires hits != [] && SortedUpTo(hits, now)
    ensures SortedUpTo(hits[..|hits| - 1], now)
    ensures forall i | 0 <= i < |hits| :: hits[i] <= hits[|hits| - 1]
  {
    var init := hits[..|hits| - 1];
    assert forall i | 0 <= i < |init| :: init[i] == hits[i];
  }

  /** What the guard leaves for one source. */
  lemma GuardHits(t: Table, ip: string, p: Params, now: real, s: string)
    ensures var hits := Kept(HitsOf(t, ip), Cutoff(p, now));
            var admitted := !Off(p, ip) && |hits| < p.maxn;
            var h := if Off(p, ip) || s != ip then HitsOf(t, s) else if admitted then hits + [now] else hits;
            var left := HitsOf(Guard(t, ip, p, now).0, s);
            left == h || (admitted && left == [] && Idle(h, Cutoff(p, now)))
  {
    hide Kept, Idle;
  }

  lemma SortedLater(hits: seq<real>, before: real, now: real, c: real)
    requires SortedUpTo(hits, before) && before <= now
    ensures SortedUpTo(hits, now) && SortedUpTo(Kept(hits, c), now) && SortedUpTo(Kept(hits, c) + [now], now)
  {
    hide Kept;
    var k := KeptIsSuffix(hits, before, c);
    var kept := hits[k..];
    assert forall i | 0 <= i < |kept| :: kept[i] == hits[k + i] && kept[i] <= now;
  }

  lemma SortedStep(t: Table, ip: string, p: Params, before: real, now: real)
    requires Sorted(t, before) && before <= now
    ensures Sorted(Guard(t, ip, p, now).0, now)
  {
    hide Kept, Guard, SortedUpTo;
    SortedLater(HitsOf(t, ip), before, now, Cutoff(p, now));
    forall s ensures SortedUpTo(HitsOf(Guard(t, ip, p, now).0, s), now) {
      GuardHits(t, ip, p, now, s);
      SortedLater(HitsOf(t, s), before, now, 0.0);
      NothingIsSorted(now);
    }
  }

  lemma NothingIsSorted(now: real)
    ensures SortedUpTo([], now)
  {
  }

  /** One step as seen by one source and one later cutoff. */
  lemma SameShown(t: Table, full: Table, ip: string, p: Params, now: real, s: string, c: real)
    requires Sorted(t, now) && c >= Cutoff(p, now)
    requires Kept(HitsOf(t, s), c) == Kept(HitsOf(full, s), c)
    requires Kept(HitsOf(t, ip), Cutoff(p, now)) == Kept(HitsOf(full, ip), Cutoff(p, now))
    ensures Kept(HitsOf(Guard(t, ip, p, now).0, s), c) == Kept(HitsOf(FullGuard(full, ip, p, now).0, s), c)
  {
    hide Kept, Guard, Idle, SortedUpTo, Evicted;
    var cut := Cutoff(p, now);
    var hits := Kept(HitsOf(t, ip), cut);
    GuardHits(t, ip, p, now, s);
    KeptTwice(HitsOf(t, ip), cut, c);
    KeptAppend(hits, now, c);
    KeptAppend(HitsOf(full, ip), now, c);
    SortedLater(HitsOf(t, ip), now, now, cut);
    EmptyShowsNothing(c);
    IdleShowsNothing(HitsOf(t, s), now, cut, c);
    IdleShowsNothing(hits + [now], now, cut, c);
  }

  lemma EmptyShowsNothing(c: real)
    ensures Kept([], c) == []
  {
  }

  lemma SameViewStep(t: Table, full: Table, ip: string, p: Params, before: real, now: real)
    requires before <= now && Sorted(t, before) && SameView(t, full, p, before)
    ensures Guard(t, ip, p, now).1 == FullGuard(full, ip, p, now).1
    ensures SameView(Guard(t, ip, p, now).0, FullGuard(full, ip, p, now).0, p, now)
  {
    hide Kept, Guard, FullGuard, SortedUpTo;
    var cut := Cutoff(p, now);
    assert Sorted(t, now) by {
      forall s ensures SortedUpTo(HitsOf(t, s), now) { SortedLater(HitsOf(t, s), before, now, 0.0); }
    }
    assert Kept(HitsOf(t, ip), cut) == Kept(HitsOf(full, ip), cut);
    forall s, c: real | c >= cut
      ensures Kept(HitsOf(Guard(t, ip, p, now).0, s), c) == Kept(HitsOf(FullGuard(full, ip, p, now).0, s), c)
    {
      SameShown(t, full, ip, p, now, s, c);
    }
    SameDecision(t, full, ip, p, now);
  }

  lemma SameDecision(t: Table, full: Table, ip: string, p: Params, now: real)
    requires Kept(HitsOf(t, ip), Cutoff(p, now)) == Kept(HitsOf(full, ip), Cutoff(p, now))
    ensures Guard(t, ip, p, now).1 == FullGuard(full, ip, p, now).1
  {
    hide Kept, Evicted;
  }

  lemma {:induction false} ViewsAgree(hs: seq<Hit>, p: Params)
    requires Clocked(hs)
    ensures hs != [] ==> Sorted(Trimmed(hs, p), Last(hs).at) && SameView(Trimmed(hs, p), Full(hs, p), p, Last(hs).at)
  {
    if hs != [] {
      var hs0, e := Init(hs), Last(hs);
      assert Clocked(hs0) by { assert forall i | 0 <= i < |hs0| :: hs0[i] == hs[i]; }
      ViewsAgree(hs0, p);
      var before := if hs0 == [] then e.at else Last(hs0).at;
      SortedStep(Trimmed(hs0, p), e.ip, p, before, e.at);
      SameViewStep(Trimmed(hs0, p), Full(hs0, p), e.ip, p, before, e.at);
    }
  }

  /** Trimming old hits and evicting idle sources never changes a decision or a retry hint. */
  lemma ForgettingIsInvisible(hs: seq<Hit>, next: Hit, p: Params)
    requires Clocked(hs + [next])
    ensures Guard(Trimmed(hs, p), next.ip, p, next.at).1 == FullGuard(Full(hs, p), next.ip, p, next.at).1
  {
    assert Clocked(hs) by { assert forall i | 0 <= i < |hs| :: hs[i] == (hs + [next])[i]; }
    ViewsAgree(hs, p);
    var before := if hs == [] then next.at else Last(hs).at;
    assert before <= next.at by {
      if hs != [] { assert (hs + [next])[|hs| - 1] == Last(hs) && (hs + [next])[|hs|] == next; }
    }
    SameViewStep(Trimmed(hs, p), Full(hs, p), next.ip, p, before, next.at);
  }

  // --------------------------------------------------------------- bound

  /** More than maxn admitted requests of one source span more than the window. */
  ghost predicate Spread(admitted: seq<real>, p: Params) {
    forall i | 0 <= i < i + p.maxn < |admitted| :: admitted[i + p.maxn] - admitted[i] > p.window as real
  }

  lemma SpreadGrows(a: seq<real>, p: Params, now: real)
    requires p.maxn > 0 && SortedUpTo(a, now) && Spread(a, p) && |Kept(a, Cutoff(p, now))| < p.maxn
    ensures SortedUpTo(a + [now], now) && Spread(a + [now], p)
  {
    hide Kept;
    var k := KeptIsSuffix(a, now, Cutoff(p, now));
    assert |a| - p.maxn < k;
  }

  lemma {:induction false} FullIsSpread(hs: seq<Hit>, p: Params, ip: string)
    requires Clocked(hs) && p.maxn > 0 && p.window > 0
    ensures Spread(HitsOf(Full(hs, p), ip), p)
    ensures hs != [] ==> SortedUpTo(HitsOf(Full(hs, p), ip), Last(hs).at)
  {
    hide Kept, Spread, SortedUpTo, RetryAfter;
    if hs != [] {
      var hs0, e := Init(hs), Last(hs);
      var a := HitsOf(Full(hs0, p), ip);
      assert Clocked(hs0) && (hs0 != [] ==> Last(hs0).at <= e.at) by {
        assert forall i | 0 <= i < |hs0| :: hs0[i] == hs[i];
      }
      FullIsSpread(hs0, p, ip);
      NothingIsSorted(e.at);
      if hs0 != [] { SortedLater(a, Last(hs0).at, e.at, 0.0); }
      if |Kept(a, Cutoff(p, e.at))| < p.maxn { SpreadGrows(a, p, e.at); }
    } else {
      assert Spread([], p) by { SpreadNothing(p); }
    }
  }

  lemma SpreadNothing(p: Params)
    ensures Spread([], p)
  {
  }

  lemma FarApart(a: seq<real>, p: Params, now: real, i: nat, j: nat)
    requires (a != [] ==> SortedUpTo(a, now)) && Spread(a, p) && p.maxn >= 1
    ensures i + p.maxn <= j < |a| ==> a[j] - a[i] > p.window as real
  {
    if i + p.maxn <= j < |a| {
      assert a[i + p.maxn] - a[i] > p.window as real;
      assert a[i + p.maxn] <= a[j] || i + p.maxn == j;
    }
  }

  /** Per source, any closed window of the configured length holds at most maxn
      admitted requests: a[i] .. a[j] within the window are at most maxn of them. */
  lemma WindowBound(hs: seq<Hit>, p: Params, ip: string, i: nat, j: nat)
    requires Clocked(hs) && p.maxn > 0 && p.window > 0
    requires var a := HitsOf(Full(hs, p), ip); i <= j < |a| && a[j] - a[i] <= p.window as real
    ensures j - i + 1 <= p.maxn
  {
    FullIsSpread(hs, p, ip);
    var a := HitsOf(Full(hs, p), ip);
    FarApart(a, p, if hs == [] then 0.0 else Last(hs).at, i, j);
  }

  function CountFrom(times: seq<real>, start: real): nat {
    if times == [] then 0 else CountFrom(Init(times), start) + if Last(times) >= start then 1 else 0
  }

  lemma {:induction false} KeptCounts(hits: seq<real>, start: real)
    ensures |Kept(hits, start)| == CountFrom(hits, start)
  {
    if hits != [] { KeptCounts(Init(hits), start); }
  }

  /** A request is admitted if and only if fewer than maxn of its source were admitted in
      the closed window that ends with it. */
  lemma AdmittedIff(hs: seq<Hit>, next: Hit, p: Params)
    requires Clocked(hs + [next]) && next.ip != "" && p.maxn > 0 && p.window > 0
    ensures Guard(Trimmed(hs, p), next.ip, p, next.at).1 == 0
            <==> CountFrom(Admissions(hs, p, next.ip), next.at - p.window as real) < p.maxn
  {
    hide Kept, CountFrom, Trimmed, Full, Admissions, Guard;
    assert Clocked(hs) by { assert forall i | 0 <= i < |hs| :: hs[i] == (hs + [next])[i]; }
    ForgettingIsInvisible(hs, next, p);
    FullListsAdmissions(hs, p, next.ip);
    KeptCounts(HitsOf(Full(hs, p), next.ip), Cutoff(p, next.at));
  }

  function Admissions(hs: seq<Hit>, p: Params, ip: string): seq<real> {
    if hs == [] then []
    else
      var e := Last(hs);
      Admissions(Init(hs), p, ip)
      + if e.ip == ip && Guard(Trimmed(Init(hs), p), ip, p, e.at).1 == 0 then [e.at] else []
  }

  /** The full table is exactly what the coded guard has admitted, so the bound is about the code. */
  lemma {:induction false} FullListsAdmissions(hs: seq<Hit>, p: Params, ip: string)
    requires Clocked(hs) && p.maxn > 0 && p.window > 0 && ip != ""
    ensures HitsOf(Full(hs, p), ip) == Admissions(hs, p, ip)
  {
    hide Trimmed, Kept, Guard;
    if hs != [] {
      var hs0, e := Init(hs), Last(hs);
      assert hs0 + [e] == hs;
      assert Clocked(hs0) by { assert forall i | 0 <= i < |hs0| :: hs0[i] == hs[i]; }
      FullListsAdmissions(hs0, p, ip);
      ForgettingIsInvisible(hs0, e, p);
    }
  }
}
