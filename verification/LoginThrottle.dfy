/** The brute-force login throttle: the durable one (backend/db.py) and its
    in-memory twin on the portal (backend/portal_app.py). */
module LoginThrottle {
  import opened Common

  datatype Params = Params(window: real, maxFailures: int, lockout: real)

  datatype Rec = Rec(fails: seq<real>, until: real)

  const FRESH := Rec([], 0.0)

  type Table = map<string, Rec>

  function RecOf(t: Table, key: string): Rec { if key in t then t[key] else FRESH }

  /** [t for t in fails if now - t < window] */
  function Recent(fails: seq<real>, now: real, window: real): seq<real> {
    if fails == [] then []
    else
      var last := fails[|fails| - 1];
      Recent(fails[..|fails| - 1], now, window) + if now - last < window then [last] else []
  }

  /** Whole seconds left on the lockout, truncated. */
  function LockedFor(r: Rec, now: real): int { if r.until - now > 0.0 then (r.until - now).Floor else 0 }

  /** The answer is the time left less a fraction of a second, and 0 in the last second. */
  lemma LockedForMeans(r: Rec, now: real)
    ensures LockedFor(r, now) >= 0
    ensures LockedFor(r, now) > 0 ==> LockedFor(r, now) as real <= r.until - now < LockedFor(r, now) as real + 1.0
    ensures LockedFor(r, now) == 0 <==> r.until - now < 1.0
  {
  }

  /** This failure is the one that starts a lockout. */
  predicate Reaches(r: Rec, now: real, p: Params) { |Recent(r.fails, now, p.window)| + 1 >= p.maxFailures }

  function Failed(r: Rec, now: real, p: Params): Rec {
    var fails := Recent(r.fails, now, p.window) + [now];
    if |fails| >= p.maxFailures then Rec([], now + p.lockout) else Rec(fails, r.until)
  }

  method FilterRecent(fails: seq<real>, now: real, window: real) returns (kept: seq<real>)
    ensures kept == Recent(fails, now, window)
  {
    kept := [];
    for k := 0 to |fails|
      invariant kept == Recent(fails[..k], now, window)
    {
      assert fails[..k + 1][..k] == fails[..k];
      if now - fails[k] < window {
        kept := kept + [fails[k]];
      }
    }
    assert fails[..|fails|] == fails;
  }

  /** Persisted in the database; parameters arrive with each call. */
  class DbThrottle {
    var rows: Table

    constructor ()
      ensures rows == map[]
    {
      rows := map[];
    }

    method LockedSeconds(key: string, now: real) returns (s: int)
      requires now >= 0.0
      ensures s == if key == "" then 0 else LockedFor(RecOf(rows, key), now)
      ensures key != "" ==> (s > 0 <==> key in rows && rows[key].until - now >= 1.0)
    {
      if key == "" || key !in rows {
        return 0;
      }
      var remaining := rows[key].until - now;
      return if remaining > 0.0 then remaining.Floor else 0;
    }

    method RecordFailure(key: string, p: Params, now: real) returns (locked: real)
      modifies this
      ensures rows == if key == "" then old(rows) else old(rows)[key := Failed(RecOf(old(rows), key), now, p)]
      ensures locked == if key == "" then 0.0
                        else if Reaches(RecOf(old(rows), key), now, p) then p.lockout
                        else LockedFor(rows[key], now) as real
    {
      if key == "" {
        return 0.0;
      }
      var fails, until := [], 0.0;
      if key in rows {
        fails, until := rows[key].fails, rows[key].until;
      }
      fails := FilterRecent(fails, now, p.window);
      fails := fails + [now];
      locked := 0.0;
      if |fails| >= p.maxFailures {
        until := now + p.lockout;
        fails := [];
        locked := p.lockout;
      } else if until > now {
        locked := (until - now).Floor as real;
      }
      rows := rows[key := Rec(fails, until)];
    }

    method Clear(key: string)
      modifies this
      ensures rows == if key == "" then old(rows) else old(rows) - {key}
    {
      if key != "" {
        rows := rows - {key};
      }
    }
  }

  /** Process memory, with fixed parameters: held to the same specification. */
  class MemoryThrottle {
    const p: Params
    var state: Table

    constructor (p: Params)
      ensures this.p == p && state == map[]
    {
      this.p := p;
      state := map[];
    }

    method LockedSeconds(ip: string, now: real) returns (s: int)
      requires now >= 0.0
      ensures s == if ip == "" then 0 else LockedFor(RecOf(state, ip), now)
    {
      if ip == "" || ip !in state {
        return 0;
      }
      var remaining := state[ip].until - now;
      return if remaining > 0.0 then remaining.Floor else 0;
    }

    method RecordFailure(ip: string, now: real)
      modifies this
      ensures state == if ip == "" then old(state) else old(state)[ip := Failed(RecOf(old(state), ip), now, p)]
    {
      hide Recent;
      if ip == "" {
        return;
      }
      if ip !in state {
        state := state[ip := Rec([], 0.0)];
      }
      ghost var until := RecOf(old(state), ip).until;
      var fails := FilterRecent(state[ip].fails, now, p.window);
      state := state[ip := state[ip].(fails := fails)];
      assert state == old(state)[ip := Rec(fails, until)];
      state := state[ip := state[ip].(fails := state[ip].fails + [now])];
      assert state == old(state)[ip := Rec(fails + [now], until)];
      if |state[ip].fails| >= p.maxFailures {
        state := state[ip := Rec([], now + p.lockout)];
      }
    }

    method Clear(ip: string)
      modifies this
      ensures state == if ip == "" then old(state) else old(state) - {ip}
    {
      if ip != "" {
        state := state - {ip};
      }
    }
  }

  // ------------------------------------------------------------- the twins

  datatype Call = Ask(key: string, now: real) | Fail(key: string, now: real) | Forget(key: string)

  function TableAfter(t: Table, calls: seq<Call>, p: Params): Table {
    if calls == [] then t
    else
      var before := TableAfter(t, Init(calls), p);
      match Last(calls)
      case Ask(_, _) => before
      case Fail(key, now) => if key == "" then before else before[key := Failed(RecOf(before, key), now, p)]
      case Forget(key) => if key == "" then before else before - {key}
  }

  function Answers(t: Table, calls: seq<Call>, p: Params): seq<int> {
    if calls == [] then []
    else
      var before := TableAfter(t, Init(calls), p);
      match Last(calls)
      case Ask(key, now) =>
        Answers(t, Init(calls), p) + [if key == "" then 0 else LockedFor(RecOf(before, key), now)]
      case _ => Answers(t, Init(calls), p)
  }

  /** The two twins side by side over any run of checks, failures and clears:
      the same answers to every check, and the same tables at the end. */
  method TwinsAgree(db: DbThrottle, mem: MemoryThrottle, calls: seq<Call>) returns (a: seq<int>, b: seq<int>)
    requires db.rows == mem.state && forall i | 0 <= i < |calls| && calls[i].Ask? :: calls[i].now >= 0.0
    modifies db, mem
    ensures a == b == Answers(old(db.rows), calls, mem.p)
    ensures db.rows == mem.state == TableAfter(old(db.rows), calls, mem.p)
  {
    hide Failed, LockedFor;
    a, b := [], [];
    for k := 0 to |calls|
      invariant a == b == Answers(old(db.rows), calls[..k], mem.p)
      invariant db.rows == mem.state == TableAfter(old(db.rows), calls[..k], mem.p)
    {
      assert Init(calls[..k + 1]) == calls[..k] && Last(calls[..k + 1]) == calls[k];
      match calls[k]
      case Ask(key, now) =>
        var x := db.LockedSeconds(key, now);
        var y := mem.LockedSeconds(key, now);
        a, b := a + [x], b + [y];
      case Fail(key, now) =>
        var _ := db.RecordFailure(key, mem.p, now);
        mem.RecordFailure(key, now);
      case Forget(key) =>
        db.Clear(key);
        mem.Clear(key);
    }
    assert calls[..|calls|] == calls;
  }
}
