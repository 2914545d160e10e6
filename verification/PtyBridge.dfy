/** The controller-side buffers of an agent-hosted terminal (backend/remote_routes.py). */
module PtyBridge {
  import opened Common

  type Host = string

  datatype Msg = Close | Input(text: string)

  datatype Session = Session(
    host: Host,
    out: seq<string>,
    inq: seq<Msg>,
    closed: bool,
    ended: bool,
    seen: bool,
    last: real)

  const IDLE_TIMEOUT := 180.0
  const GRACE := 30.0

  function Join(chunks: seq<string>): string {
    if chunks == [] then "" else Join(chunks[..|chunks| - 1]) + chunks[|chunks| - 1]
  }

  function LastN(s: string, n: nat): string { if |s| <= n then s else s[|s| - n..] }

  /** Python's s[-cap:], for any integer cap. */
  function NegSlice(s: string, cap: int): string {
    if cap > 0 then LastN(s, cap) else if -cap <= |s| then s[-cap..] else ""
  }

  // ------------------------------------------------ what each call does

  function Pushed(s: Session, data: string, ended: bool, now: real, cap: int): Session {
    var out := s.out + [data];
    var s' := s.(last := now, ended := s.ended || ended);
    if data == "" then s'
    else s'.(seen := true, out := if |Join(out)| > cap then [NegSlice(Join(out), cap)] else out)
  }

  function Queued(s: Session, msg: Msg, now: real): Session {
    if msg.Close? then s.(last := now, closed := true) else s.(last := now, inq := s.inq + [msg])
  }

  predicate Idle(s: Session, now: real) { s.ended || now - s.last > IDLE_TIMEOUT }

  predicate Reapable(s: Session, now: real) {
    (s.ended && now - s.last > GRACE) || now - s.last > IDLE_TIMEOUT + GRACE
  }

  /** sum(len(c) for c in chunks) */
  method TotalLength(chunks: seq<string>) returns (total: nat)
    ensures total == |Join(chunks)|
  {
    total := 0;
    for k := 0 to |chunks|
      invariant total == |Join(chunks[..k])|
    {
      assert chunks[..k + 1][..k] == chunks[..k];
      total := total + |chunks[k]|;
    }
    assert chunks[..|chunks|] == chunks;
  }

  class Bridge {
    const cap: int
    var sessions: map<string, Session>

    constructor (cap: int)
      ensures this.cap == cap && sessions == map[]
    {
      this.cap := cap;
      sessions := map[];
    }

    /** `id` is a fresh uuid. */
    method Create(id: string, host: Host, now: real)
      requires id !in sessions
      modifies this
      ensures sessions == old(sessions)[id := Session(host, [], [], false, false, false, now)]
    {
      sessions := sessions[id := Session(host, [], [], false, false, false, now)];
    }

    /** True tells the agent to stop. */
    method PushOutput(id: string, host: Host, data: string, ended: bool, now: real) returns (stop: bool)
      modifies this
      ensures var known := id in old(sessions) && old(sessions)[id].host == host;
              && (stop <==> !known || old(sessions)[id].closed)
              && sessions == if known then old(sessions)[id := Pushed(old(sessions)[id], data, ended, now, cap)]
                             else old(sessions)
      ensures id in old(sessions) && old(sessions)[id].host == host ==>
                var s, s' := old(sessions)[id], sessions[id];
                && s' == s.(out := s'.out, last := now, ended := s.ended || ended, seen := s.seen || data != "")
                && (data == "" ==> s'.out == s.out)
    {
      hide Join, NegSlice;
      if id !in sessions || sessions[id].host != host {
        return true;
      }
      var s := sessions[id];
      s := s.(last := now);
      if data != "" {
        s := s.(seen := true, out := s.out + [data]);
        var total := TotalLength(s.out);
        if total > cap {
          s := s.(out := [NegSlice(Join(s.out), cap)]);
        }
      }
      if ended {
        s := s.(ended := true);
      }
      sessions := sessions[id := s];
      return s.closed;
    }

    /** None when there is no such session. */
    method ReadOutput(id: string, now: real) returns (r: Option<(string, bool)>)
      modifies this
      ensures r.None? <==> id !in old(sessions)
      ensures r.None? ==> sessions == old(sessions)
      ensures r.Some? ==>
                var s := old(sessions)[id];
                && r.value == (Join(s.out), s.closed || s.ended)
                && sessions == old(sessions)[id := s.(out := [], last := now)]
    {
      if id !in sessions {
        return None;
      }
      var s := sessions[id];
      sessions := sessions[id := s.(out := [], last := now)];
      return Some((Join(s.out), s.closed || s.ended));
    }

    method QueueInput(id: string, msg: Msg, now: real) returns (known: bool)
      modifies this
      ensures known <==> id in old(sessions)
      ensures sessions == if known then old(sessions)[id := Queued(old(sessions)[id], msg, now)] else old(sessions)
      ensures known ==>
                var s := old(sessions)[id];
                sessions[id] == match msg
                                case Close => s.(last := now, closed := true)
                                case Input(_) => s.(last := now, inq := s.inq + [msg])
    {
      if id !in sessions {
        return false;
      }
      var s := sessions[id].(last := now);
      if msg.Close? {
        s := s.(closed := true);
      } else {
        s := s.(inq := s.inq + [msg]);
      }
      sessions := sessions[id := s];
      return true;
    }

    /** One turn of the agent's long poll; None means that it goes on waiting. */
    method TakeInput(id: string, host: Host) returns (r: Option<(seq<Msg>, bool)>)
      modifies this
      ensures var known := id in old(sessions) && old(sessions)[id].host == host;
              && (!known ==> r == Some(([], true)) && sessions == old(sessions))
              && (known ==>
                    var s := old(sessions)[id];
                    if s.inq != [] || s.closed
                    then r == Some((s.inq, s.closed)) && sessions == old(sessions)[id := s.(inq := [])]
                    else r == None && sessions == old(sessions))
    {
      if id !in sessions || sessions[id].host != host {
        return Some(([], true));
      }
      var s := sessions[id];
      if s.inq != [] || s.closed {
        var msgs := s.inq;
        sessions := sessions[id := s.(inq := [])];
        return Some((msgs, s.closed));
      }
      return None;
    }

    /** Drops what can be reaped, closes the other idle sessions, leaves the active ones alone.
        Nothing reapable is left, and no session used in the last thirty seconds goes. */
    method Reap(now: real)
      modifies this
      ensures forall id :: id in sessions <==>
                && id in old(sessions)
                && now - old(sessions)[id].last <= (if old(sessions)[id].ended then 30.0 else 210.0)
      ensures forall id | id in sessions && (old(sessions)[id].ended || now - old(sessions)[id].last > 180.0) ::
                sessions[id] == old(sessions)[id].(closed := true)
      ensures forall id | id in sessions && !old(sessions)[id].ended && now - old(sessions)[id].last <= 180.0 ::
                sessions[id] == old(sessions)[id]
      ensures forall id | id in sessions :: !Reapable(sessions[id], now)
      ensures forall id | id in old(sessions) && now - old(sessions)[id].last <= GRACE :: id in sessions
    {
      var todo := sessions.Keys;
      while todo != {}
        invariant todo <= sessions.Keys <= old(sessions).Keys
        invariant forall id | id in todo :: sessions[id] == old(sessions)[id]
        invariant forall id | id in old(sessions) && id !in todo ::
                    id in sessions <==> !Reapable(old(sessions)[id], now)
        invariant forall id | id in sessions && id !in todo ::
                    var s := old(sessions)[id]; sessions[id] == if Idle(s, now) then s.(closed := true) else s
        decreases |todo|
      {
        var id :| id in todo;
        todo := todo - {id};
        var s := sessions[id];
        if s.ended || now - s.last > IDLE_TIMEOUT {
          sessions := sessions[id := s.(closed := true)];
          if (s.ended && now - s.last > GRACE) || now - s.last > IDLE_TIMEOUT + GRACE {
            sessions := sessions - {id};
          }
        }
      }
    }
  }

  // -------------------------------------------------------- over a session

  datatype Step = Push(data: string, ended: bool) | Read | Queue(msg: Msg) | Take

  /** A session and what went through it: `sinceRead` is what was pushed since the
      previous read, `spilled` whether that ever outgrew the cap. */
  datatype Log = Log(
    s: Session,
    pushed: string,
    sinceRead: string,
    spilled: bool,
    read: string,
    queued: seq<Msg>,
    taken: seq<Msg>)

  function Start(host: Host): Log { Log(Session(host, [], [], false, false, false, 0.0), "", "", false, "", [], []) }

  function Apply(l: Log, step: Step, now: real, cap: int): Log {
    match step
    case Push(data, ended) =>
      l.(s := Pushed(l.s, data, ended, now, cap), pushed := l.pushed + data, sinceRead := l.sinceRead + data,
         spilled := l.spilled || |l.sinceRead + data| > cap)
    case Read =>
      l.(s := l.s.(out := [], last := now), sinceRead := "", read := l.read + Join(l.s.out))
    case Queue(msg) =>
      l.(s := Queued(l.s, msg, now), queued := if msg.Close? then l.queued else l.queued + [msg])
    case Take =>
      if l.s.inq != [] || l.s.closed then l.(s := l.s.(inq := []), taken := l.taken + l.s.inq) else l
  }

  function Run(host: Host, steps: seq<(Step, real)>, cap: int): Log {
    if steps == [] then Start(host)
    else Apply(Run(host, steps[..|steps| - 1], cap), steps[|steps| - 1].0, steps[|steps| - 1].1, cap)
  }

  ghost predicate Inv(l: Log, cap: int)
    requires cap >= 1
  {
    && Join(l.s.out) == LastN(l.sinceRead, cap)
    && (!l.spilled ==> |l.sinceRead| <= cap && l.pushed == l.read + l.sinceRead)
    && l.queued == l.taken + l.s.inq
  }

  lemma JoinAppend(chunks: seq<string>, last: string)
    ensures Join(chunks + [last]) == Join(chunks) + last
  {
    assert (chunks + [last])[..|chunks|] == chunks;
  }

  lemma LastNOfNothing(n: nat)
    ensures LastN("", n) == ""
  {
  }

  lemma LastNLength(s: string, n: nat)
    ensures |LastN(s, n)| == Min(|s|, n) && (|s| <= n ==> LastN(s, n) == s)
  {
  }

  lemma LastNAppend(s: string, t: string, n: nat)
    ensures LastN(LastN(s, n) + t, n) == LastN(s + t, n)
  {
  }

  /** A push in terms of what the buffer shows. */
  lemma PushShows(s: Session, data: string, ended: bool, now: real, cap: int)
    requires cap >= 1 && |Join(s.out)| <= cap
    ensures var s' := Pushed(s, data, ended, now, cap);
            Join(s'.out) == LastN(Join(s.out) + data, cap) && s'.inq == s.inq
  {
    JoinAppend(s.out, data);
    JoinAppend([], NegSlice(Join(s.out) + data, cap));
    assert [] + [NegSlice(Join(s.out) + data, cap)] == [NegSlice(Join(s.out) + data, cap)];
    assert Join(s.out) + "" == Join(s.out);
  }

  lemma ApplyKeepsInv(l: Log, step: Step, now: real, cap: int)
    requires cap >= 1 && Inv(l, cap)
    ensures Inv(Apply(l, step, now, cap), cap)
  {
    hide Pushed, LastN;
    LastNOfNothing(cap);
    LastNLength(l.sinceRead, cap);
    match step
    case Push(data, ended) =>
      PushShows(l.s, data, ended, now, cap);
      LastNAppend(l.sinceRead, data, cap);
      assert l.read + (l.sinceRead + data) == l.read + l.sinceRead + data;
    case Read =>
    case Queue(msg) =>
      assert l.queued + [msg] == l.taken + (l.s.inq + [msg]);
    case Take =>
      assert l.taken + l.s.inq == l.taken + l.s.inq + [];
  }

  lemma {:induction false} RunKeepsInv(host: Host, steps: seq<(Step, real)>, cap: int)
    requires cap >= 1
    ensures Inv(Run(host, steps, cap), cap)
  {
    if steps != [] {
      RunKeepsInv(host, steps[..|steps| - 1], cap);
      ApplyKeepsInv(Run(host, steps[..|steps| - 1], cap), steps[|steps| - 1].0, steps[|steps| - 1].1, cap);
    }
  }

  /** The buffered output is always the last min(n, cap) characters of the n pushed since the previous read. */
  lemma BufferIsNewest(host: Host, steps: seq<(Step, real)>, cap: int)
    requires cap >= 1
    ensures var l := Run(host, steps, cap);
            && Join(l.s.out) == LastN(l.sinceRead, cap) && |Join(l.s.out)| == Min(|l.sinceRead|, cap)
  {
    RunKeepsInv(host, steps, cap);
  }

  /** Without overflow the reads, and what is still buffered, are exactly the pushes. */
  lemma ReadsArePushes(host: Host, steps: seq<(Step, real)>, cap: int)
    requires cap >= 1 && !Run(host, steps, cap).spilled
    ensures var l := Run(host, steps, cap); l.pushed == l.read + Join(l.s.out)
  {
    RunKeepsInv(host, steps, cap);
  }

  lemma {:induction false} InputKept(host: Host, steps: seq<(Step, real)>, cap: int)
    ensures var l := Run(host, steps, cap); l.queued == l.taken + l.s.inq
  {
    hide NegSlice;
    if steps != [] {
      var l := Run(host, steps[..|steps| - 1], cap);
      InputKept(host, steps[..|steps| - 1], cap);
      match steps[|steps| - 1].0
      case Queue(msg) => assert l.queued + [msg] == l.taken + (l.s.inq + [msg]);
      case Take => assert l.taken + l.s.inq == l.taken + l.s.inq + [];
      case _ =>
    }
  }

  /** Queued input reaches the agent once and in order, whatever the output cap; after
      a take nothing is left behind, closed or not. */
  lemma InputArrivesInOrder(host: Host, steps: seq<(Step, real)>, cap: int, now: real)
    ensures var l := Run(host, steps, cap); l.queued == l.taken + l.s.inq
    ensures var l := Apply(Run(host, steps, cap), Take, now, cap); l.queued == l.taken && l.s.inq == []
  {
    hide Run;
    InputKept(host, steps, cap);
  }

  // -------------------------------------------------- which caps are caps

  /** What a cap promises: the buffer never shows more than the newest `cap` characters. */
  ghost predicate Capped(host: Host, steps: seq<(Step, real)>, cap: int) {
    var l := Run(host, steps, cap);
    Join(l.s.out) == LastN(l.sinceRead, if cap >= 0 then cap else 0)
  }

  /** The configured number is a cap if and only if it is at least 1. */
  lemma CapsExactlyFromOne(host: Host, cap: int)
    ensures (forall steps :: Capped(host, steps, cap)) <==> cap >= 1
  {
    if cap >= 1 {
      forall steps ensures Capped(host, steps, cap) { BufferIsNewest(host, steps, cap); }
    } else {
      var steps := BelowOneIsNoCap(host, cap, 1);
      assert !Capped(host, steps, cap);
    }
  }

  function Xs(n: nat): (s: string)
    ensures |s| == n
  {
    seq(n, _ => 'x')
  }

  /** With a cap of 0, or a negative one, one push can leave any number of characters in the buffer. */
  lemma BelowOneIsNoCap(host: Host, cap: int, n: nat) returns (steps: seq<(Step, real)>)
    requires cap <= 0 && n >= 1
    ensures |Join(Run(host, steps, cap).s.out)| == n && !Capped(host, steps, cap)
  {
    hide Run, Pushed, Join, NegSlice, LastN;
    var data := Xs(n - cap);
    steps := [(Push(data, false), 0.0)];
    OnePush(host, data, cap);
    assert "" + data == data;
    NegSliceLength(data, cap);
    LastNLength(data, 0);
  }

  lemma OnePush(host: Host, data: string, cap: int)
    requires |data| > cap && data != ""
    ensures var l := Run(host, [(Push(data, false), 0.0)], cap);
            l.sinceRead == "" + data && Join(l.s.out) == NegSlice(data, cap)
  {
    hide NegSlice;
    var step: (Step, real) := (Push(data, false), 0.0);
    assert [step][..0] == [] && Run(host, [], cap) == Start(host);
    var cut := NegSlice(data, cap);
    JoinOne(data);
    JoinOne(cut);
    var none: seq<string> := [];
    assert none + [data] == [data];
  }

  lemma JoinOne(s: string)
    ensures Join([s]) == s
  {
    assert [s][..0] == [] && "" + s == s;
  }

  lemma NegSliceLength(s: string, cap: int)
    requires cap <= 0 && -cap <= |s|
    ensures |NegSlice(s, cap)| == |s| + cap
  {
  }

  /** A cap of zero keeps everything pushed since the previous read: s[-0:] is all of s. */
  lemma {:induction false} ZeroCapKeepsAll(host: Host, steps: seq<(Step, real)>)
    ensures var l := Run(host, steps, 0); Join(l.s.out) == l.sinceRead
  {
    if steps != [] {
      ZeroCapKeepsAll(host, steps[..|steps| - 1]);
      var l := Run(host, steps[..|steps| - 1], 0);
      match steps[|steps| - 1].0
      case Push(data, ended) =>
        JoinAppend(l.s.out, data);
        JoinAppend([], Join(l.s.out) + data);
        assert [] + [Join(l.s.out) + data] == [Join(l.s.out) + data];
        assert data == "" ==> l.sinceRead + data == l.sinceRead;
      case _ =>
    }
  }

  /** A negative cap cuts the oldest -cap characters at every push, and bounds nothing. */
  lemma NegativeCapCutsEachPush(s: Session, data: string, now: real, cap: int)
    requires cap < 0 && data != "" && |Join(s.out)| + |data| >= -cap
    ensures Join(Pushed(s, data, false, now, cap).out) == (Join(s.out) + data)[-cap..]
  {
    JoinAppend(s.out, data);
    JoinAppend([], (Join(s.out) + data)[-cap..]);
  }
}
