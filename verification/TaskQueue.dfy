/** The agent task queue (backend/db.py) with the RAM-held become-passwords of
    backend/app.py, interleaved at transaction granularity. */
module TaskQueue {
  import opened Common

  type Host = string

  datatype Status = Pending | Dispatched | Done | TimedOut

  predicate Terminal(s: Status) { s.Done? || s.TimedOut? }

  datatype Task = Task(host: Host, status: Status, created: real, dispatched: Option<real>)

  datatype ResultRow = ResultRow(task: nat, host: Host, synthetic: bool)

  datatype Db = Db(tasks: map<nat, Task>, results: seq<ResultRow>, nextId: nat)

  // ------------------------------------------------ what the statements do

  function Queued(db: Db, host: Host, now: real): Db {
    Db(db.tasks[db.nextId := Task(host, Pending, now, None)], db.results, db.nextId + 1)
  }

  predicate IsPending(tasks: map<nat, Task>, host: Host, id: nat) {
    id in tasks && tasks[id].host == host && tasks[id].status == Pending
  }

  /** The host's pending ids below n, in id order. */
  function PendingIds(tasks: map<nat, Task>, host: Host, n: nat): (ids: seq<nat>)
    ensures forall id: nat :: id in ids <==> id < n && IsPending(tasks, host, id)
    ensures forall i | 0 <= i < |ids| :: ids[i] < n && IsPending(tasks, host, ids[i])
    ensures forall i, j | 0 <= i < j < |ids| :: ids[i] < ids[j]
  {
    if n == 0 then []
    else PendingIds(tasks, host, n - 1) + if IsPending(tasks, host, n - 1) then [n - 1] else []
  }

  function DispatchAll(tasks: map<nat, Task>, host: Host, now: real): map<nat, Task> {
    map id | id in tasks ::
      if IsPending(tasks, host, id) then tasks[id].(status := Dispatched, dispatched := Some(now)) else tasks[id]
  }

  predicate IsDispatched(db: Db, id: nat) { id in db.tasks && db.tasks[id].status == Dispatched }

  /** UPDATE ... WHERE id=? AND status='dispatched', and a result row if it matched. */
  function Closed(db: Db, id: nat, host: Host, status: Status, synthetic: bool): Db {
    if IsDispatched(db, id)
    then db.(tasks := db.tasks[id := db.tasks[id].(status := status)],
             results := db.results + [ResultRow(id, host, synthetic)])
    else db
  }

  function TimedOutAll(db: Db, stale: seq<(nat, Host)>): Db {
    if stale == [] then db
    else
      var last := stale[|stale| - 1];
      Closed(TimedOutAll(db, stale[..|stale| - 1]), last.0, last.1, TimedOut, true)
  }

  predicate Expired(db: Db, id: nat, cutoff: real) {
    id in db.tasks && Terminal(db.tasks[id].status) && db.tasks[id].created < cutoff
  }

  function Where(rows: seq<ResultRow>, keep: ResultRow -> bool): seq<ResultRow> {
    if rows == [] then []
    else Where(rows[..|rows| - 1], keep) + if keep(rows[|rows| - 1]) then [rows[|rows| - 1]] else []
  }

  /** Delete terminal tasks created before the cutoff, results first. */
  function Pruned(db: Db, cutoff: real): Db {
    Db(map id | id in db.tasks && !Expired(db, id, cutoff) :: db.tasks[id],
       Where(db.results, (r: ResultRow) => !Expired(db, r.task, cutoff)),
       db.nextId)
  }

  function WithoutHost(db: Db, host: Host): Db {
    Db(map id | id in db.tasks && db.tasks[id].host != host :: db.tasks[id],
       Where(db.results, (r: ResultRow) => r.host != host),
       db.nextId)
  }

  const DAY := 24.0 * 60.0 * 60.0

  // ------------------------------------------------------------ the object

  class TaskStore {
    const retentionDays: int
    var tasks: map<nat, Task>
    var results: seq<ResultRow>
    var nextId: nat

    constructor (retentionDays: int)
      ensures this.retentionDays == retentionDays && State() == Db(map[], [], 1)
    {
      this.retentionDays := retentionDays;
      tasks, results, nextId := map[], [], 1;
    }

    function State(): Db
      reads this
    {
      Db(tasks, results, nextId)
    }

    method Queue(host: Host, now: real) returns (id: nat)
      modifies this
      ensures id == old(nextId) && State() == Queued(old(State()), host, now)
      ensures tasks == old(tasks)[id := Task(host, Pending, now, None)] && nextId == id + 1 && results == old(results)
    {
      id := nextId;
      tasks := tasks[id := Task(host, Pending, now, None)];
      nextId := nextId + 1;
    }

    method Fetch(host: Host, now: real) returns (ids: seq<nat>)
      modifies this`tasks
      ensures ids == PendingIds(old(tasks), host, nextId)
      ensures tasks == DispatchAll(old(tasks), host, now)
      ensures forall id :: id in tasks <==> id in old(tasks)
      ensures forall id | id in ids && id in old(tasks) ::
                tasks[id] == Task(host, Dispatched, old(tasks)[id].created, Some(now))
      ensures forall id | id in tasks && (old(tasks)[id].host != host || !old(tasks)[id].status.Pending?) ::
                tasks[id] == old(tasks)[id]
    {
      ids := [];
      for n := 0 to nextId
        invariant ids == PendingIds(tasks, host, n)
      {
        if n in tasks && tasks[n].host == host && tasks[n].status == Pending {
          ids := ids + [n];
        }
      }
      tasks := map id | id in tasks ::
        if IsPending(tasks, host, id) then tasks[id].(status := Dispatched, dispatched := Some(now)) else tasks[id];
    }

    method Submit(id: nat, host: Host) returns (applied: bool)
      modifies this`tasks, this`results
      ensures applied <==> IsDispatched(old(State()), id)
      ensures State() == Closed(old(State()), id, host, Done, false)
      ensures applied <==> id in old(tasks) && old(tasks)[id].status == Dispatched
      ensures applied ==>
                && tasks == old(tasks)[id := old(tasks)[id].(status := Done)]
                && results == old(results) + [ResultRow(id, host, false)]
      ensures !applied ==> tasks == old(tasks) && results == old(results)
    {
      applied := id in tasks && tasks[id].status == Dispatched;
      if applied {
        tasks := tasks[id := tasks[id].(status := Done)];
        results := results + [ResultRow(id, host, false)];
      }
    }

    /** `stale` is what the opening SELECT returned, perhaps no longer dispatched. */
    method Reclaim(stale: seq<(nat, Host)>, now: real) returns (reclaimed: nat)
      modifies this`tasks, this`results
      ensures var closed := TimedOutAll(old(State()), stale);
              State() == if retentionDays <= 0 then closed else Pruned(closed, now - retentionDays as real * DAY)
      ensures reclaimed == |TimedOutAll(old(State()), stale).results| - |old(results)|
      ensures var closed := TimedOutAll(old(State()), stale);
              forall id | id in old(tasks) ::
                id in closed.tasks
                && closed.tasks[id] == if old(tasks)[id].status == Dispatched && exists s :: s in stale && s.0 == id
                                       then old(tasks)[id].(status := TimedOut) else old(tasks)[id]
    {
      reclaimed := 0;
      for k := 0 to |stale|
        invariant nextId == old(nextId)
        invariant State() == TimedOutAll(old(State()), stale[..k])
        invariant reclaimed == |results| - |old(results)|
      {
        assert stale[..k + 1][..k] == stale[..k];
        var (id, host) := stale[k];
        if id in tasks && tasks[id].status == Dispatched {
          tasks := tasks[id := tasks[id].(status := TimedOut)];
          results := results + [ResultRow(id, host, true)];
          reclaimed := reclaimed + 1;
        }
      }
      assert stale[..|stale|] == stale;
      TimedOutAllMeans(old(State()), stale);
      if retentionDays > 0 {
        Prune(now - retentionDays as real * DAY);
      }
    }

    /** Finished tasks created before the cutoff, their results first. */
    method Prune(cutoff: real)
      modifies this`tasks, this`results
      ensures State() == Pruned(old(State()), cutoff)
      ensures forall id :: id in tasks <==>
                && id in old(tasks)
                && !(old(tasks)[id].status in {Done, TimedOut} && old(tasks)[id].created < cutoff)
      ensures forall id | id in tasks :: tasks[id] == old(tasks)[id]
      ensures forall r :: r in results <==>
                && r in old(results)
                && !(r.task in old(tasks) && old(tasks)[r.task].status in {Done, TimedOut}
                     && old(tasks)[r.task].created < cutoff)
    {
      ghost var db := State();
      ghost var keep := (r: ResultRow) => !Expired(db, r.task, cutoff);
      var expired := set id | id in tasks && Terminal(tasks[id].status) && tasks[id].created < cutoff;
      var kept := [];
      for k := 0 to |results|
        invariant State() == db && kept == Where(results[..k], keep)
      {
        assert results[..k + 1][..k] == results[..k];
        if results[k].task !in expired {
          kept := kept + [results[k]];
        }
      }
      assert results[..|results|] == results;
      results := kept;
      PrunedMeans(db, cutoff);
      tasks := tasks - expired;
      assert tasks == Pruned(db, cutoff).tasks;
    }

    method DeleteHost(host: Host)
      modifies this`tasks, this`results
      ensures State() == WithoutHost(old(State()), host)
      ensures forall id :: id in tasks <==> id in old(tasks) && old(tasks)[id].host != host
      ensures forall id | id in tasks :: tasks[id] == old(tasks)[id]
      ensures forall r | r in results :: r.host != host
      ensures forall other | other != host :: RowsOf(results, other) == RowsOf(old(results), other)
    {
      ghost var db := State();
      ghost var keep := (r: ResultRow) => r.host != host;
      var kept := [];
      for k := 0 to |results|
        invariant State() == db && kept == Where(results[..k], keep)
      {
        assert results[..k + 1][..k] == results[..k];
        if results[k].host != host {
          kept := kept + [results[k]];
        }
      }
      assert results[..|results|] == results;
      results := kept;
      WhereMembers(db.results, keep);
      forall other | other != host ensures RowsOf(results, other) == RowsOf(db.results, other) {
        RowsOfWhere(db.results, keep, other);
      }
      tasks := tasks - set id | id in tasks && tasks[id].host == host;
      assert tasks == WithoutHost(db, host).tasks;
    }
  }

  // ------------------------------------------------- RAM-held passwords

  datatype Secret = Secret(password: string, expiry: real)

  const BECOME_TTL := 300.0

  function Swept(ram: map<nat, Secret>, now: real): map<nat, Secret> {
    map t | t in ram && ram[t].expiry >= now :: ram[t]
  }

  class PendingBecome {
    var ram: map<nat, Secret>

    constructor ()
      ensures ram == map[]
    {
      ram := map[];
    }

    method Sweep(now: real)
      modifies this
      ensures ram == Swept(old(ram), now)
      ensures forall t :: t in ram <==> t in old(ram) && old(ram)[t].expiry >= now
      ensures forall t | t in ram :: ram[t] == old(ram)[t]
    {
      var expired := set t | t in ram && ram[t].expiry < now;
      ram := ram - expired;
    }

    method Store(task: nat, password: string, now: real)
      modifies this
      ensures password == "" ==> ram == old(ram)
      ensures password != "" ==> ram == Swept(old(ram), now)[task := Secret(password, now + BECOME_TTL)]
    {
      if password == "" {
        return;
      }
      Sweep(now);
      ram := ram[task := Secret(password, now + BECOME_TTL)];
    }

    /** Take-once; the expiry is not looked at here. */
    method Take(task: nat) returns (password: Option<string>)
      modifies this
      ensures password == if task in old(ram) then Some(old(ram)[task].password) else None
      ensures ram == old(ram) - {task}
    {
      if task !in ram {
        return None;
      }
      password := Some(ram[task].password);
      ram := ram - {task};
    }
  }

  // --------------------------------------------------------- interleavings

  /** A poll response being assembled: `next` says how far its take loop has come. */
  datatype Response = Response(host: Host, ids: seq<nat>, next: nat)

  datatype Delivery = Delivery(task: nat, password: string, response: nat)

  /** Besides the two stores: requests in flight (`responses`, the owner checks that
      passed, the stale selections) and what history remembers (`owner`, `stored`, `delivered`). */
  datatype World = World(
    db: Db,
    ram: map<nat, Secret>,
    responses: seq<Response>,
    cleared: set<(nat, Host)>,
    selected: set<(nat, Host)>,
    owner: map<nat, Host>,
    stored: map<nat, string>,
    delivered: seq<Delivery>)

  datatype Step =
    | Queue(host: Host, now: real)
    | StoreSecret(task: nat, password: string, expiry: real)
    | Sweep(now: real)
    | Fetch(host: Host, now: real)
    | Take(response: nat)
    | CheckOwner(task: nat, host: Host)
    | Submit(task: nat, host: Host)
    | SelectStale(cutoff: real)
    | Reclaim(stale: seq<(nat, Host)>, pruneBefore: Option<real>)
    | DeleteHost(host: Host)

  const EMPTY := World(Db(map[], [], 1), map[], [], {}, {}, map[], map[], [])

  ghost function Apply(w: World, step: Step): World {
    match step
    case Queue(host, now) =>
      w.(db := Queued(w.db, host, now), owner := w.owner[w.db.nextId := host])
    case StoreSecret(task, password, expiry) =>
      // the queueing request stores for the id it was just given, once, and never ""
      if password == "" || task !in w.owner || task in w.stored then w
      else w.(ram := w.ram[task := Secret(password, expiry)], stored := w.stored[task := password])
    case Sweep(now) =>
      w.(ram := Swept(w.ram, now))
    case Fetch(host, now) =>
      w.(db := w.db.(tasks := DispatchAll(w.db.tasks, host, now)),
         responses := w.responses + [Response(host, PendingIds(w.db.tasks, host, w.db.nextId), 0)])
    case Take(p) =>
      if p >= |w.responses| || w.responses[p].next >= |w.responses[p].ids| then w
      else
        var r := w.responses[p];
        var task := r.ids[r.next];
        var w' := w.(responses := w.responses[p := r.(next := r.next + 1)]);
        if task in w.ram
        then w'.(ram := w.ram - {task}, delivered := w.delivered + [Delivery(task, w.ram[task].password, p)])
        else w'
    case CheckOwner(task, host) =>
      if task in w.db.tasks && w.db.tasks[task].host == host then w.(cleared := w.cleared + {(task, host)}) else w
    case Submit(task, host) =>
      if (task, host) in w.cleared then w.(db := Closed(w.db, task, host, Done, false)) else w
    case SelectStale(cutoff) =>
      w.(selected := w.selected + set t | t in w.db.tasks && IsDispatched(w.db, t)
                                          && w.db.tasks[t].dispatched.Some? && w.db.tasks[t].dispatched.value < cutoff
                                        :: (t, w.db.tasks[t].host))
    case Reclaim(stale, before) =>
      if exists s | s in stale :: s !in w.selected then w
      else
        var closed := TimedOutAll(w.db, stale);
        w.(db := if before.Some? then Pruned(closed, before.value) else closed)
    case DeleteHost(host) => w.(db := WithoutHost(w.db, host))
  }

  ghost function Run(w: World, steps: seq<Step>): World
    decreases |steps|
  {
    if steps == [] then w else Run(Apply(w, steps[0]), steps[1..])
  }

  // ---------------------------------------------------------- the results

  function CountFor(rows: seq<ResultRow>, id: nat): nat {
    if rows == [] then 0
    else CountFor(rows[..|rows| - 1], id) + if rows[|rows| - 1].task == id then 1 else 0
  }

  lemma CountAppend(rows: seq<ResultRow>, r: ResultRow, id: nat)
    ensures CountFor(rows + [r], id) == CountFor(rows, id) + if r.task == id then 1 else 0
  {
    assert (rows + [r])[..|rows|] == rows;
  }

  lemma {:induction false} CountWhere(rows: seq<ResultRow>, keep: ResultRow -> bool, id: nat)
    requires forall r | r in rows && r.task == id :: keep(r)
    ensures CountFor(Where(rows, keep), id) == CountFor(rows, id)
  {
    if rows != [] {
      var init, last := rows[..|rows| - 1], rows[|rows| - 1];
      assert last in rows && forall r | r in init :: r in rows;
      CountWhere(init, keep, id);
      if keep(last) {
        CountAppend(Where(init, keep), last, id);
      } else {
        assert Where(rows, keep) == Where(init, keep);
      }
    }
  }

  lemma {:induction false} WhereMembers(rows: seq<ResultRow>, keep: ResultRow -> bool)
    ensures forall r | r in Where(rows, keep) :: r in rows && keep(r)
  {
    if rows != [] { WhereMembers(rows[..|rows| - 1], keep); }
  }

  /** One result row for every finished task, none for any other, and no stray rows. */
  ghost predicate ResultsMatch(db: Db) {
    && (forall id | id in db.tasks :: CountFor(db.results, id) == if Terminal(db.tasks[id].status) then 1 else 0)
    && (forall r | r in db.results :: r.task in db.tasks && r.host == db.tasks[r.task].host)
  }

  lemma ClosedKeepsResults(db: Db, id: nat, host: Host, status: Status, synthetic: bool)
    requires ResultsMatch(db) && Terminal(status) && (id in db.tasks ==> db.tasks[id].host == host)
    ensures ResultsMatch(Closed(db, id, host, status, synthetic))
    ensures NoNewPending(db, Closed(db, id, host, status, synthetic))
  {
    var db' := Closed(db, id, host, status, synthetic);
    if IsDispatched(db, id) {
      forall t | t in db'.tasks ensures CountFor(db'.results, t) == if Terminal(db'.tasks[t].status) then 1 else 0 {
        CountAppend(db.results, ResultRow(id, host, synthetic), t);
      }
    }
  }

  lemma {:induction false} NoRowsNoCount(rows: seq<ResultRow>, id: nat)
    requires forall r | r in rows :: r.task != id
    ensures CountFor(rows, id) == 0
  {
    if rows != [] { NoRowsNoCount(rows[..|rows| - 1], id); }
  }

  lemma PrunedKeepsResults(db: Db, cutoff: real)
    requires ResultsMatch(db)
    ensures ResultsMatch(Pruned(db, cutoff)) && NoNewPending(db, Pruned(db, cutoff))
  {
    var keep := (r: ResultRow) => !Expired(db, r.task, cutoff);
    WhereMembers(db.results, keep);
    forall id | id in Pruned(db, cutoff).tasks
      ensures CountFor(Where(db.results, keep), id) == CountFor(db.results, id)
    {
      CountWhere(db.results, keep, id);
    }
  }

  lemma WithoutHostKeepsResults(db: Db, host: Host)
    requires ResultsMatch(db)
    ensures ResultsMatch(WithoutHost(db, host)) && NoNewPending(db, WithoutHost(db, host))
  {
    var keep := (r: ResultRow) => r.host != host;
    WhereMembers(db.results, keep);
    forall id | id in WithoutHost(db, host).tasks
      ensures CountFor(Where(db.results, keep), id) == CountFor(db.results, id)
    {
      CountWhere(db.results, keep, id);
    }
  }

  lemma {:induction false} WhereKeeps(rows: seq<ResultRow>, keep: ResultRow -> bool)
    ensures forall r | r in rows && keep(r) :: r in Where(rows, keep)
  {
    if rows != [] { WhereKeeps(rows[..|rows| - 1], keep); }
  }

  /** Exactly the finished tasks created before the cutoff go, with their results. */
  lemma PrunedMeans(db: Db, cutoff: real)
    ensures var left := Pruned(db, cutoff);
            && (forall id :: id in left.tasks <==>
                  id in db.tasks && !(db.tasks[id].status in {Done, TimedOut} && db.tasks[id].created < cutoff))
            && (forall id | id in left.tasks :: left.tasks[id] == db.tasks[id])
            && (forall r :: r in left.results <==>
                  && r in db.results
                  && !(r.task in db.tasks && db.tasks[r.task].status in {Done, TimedOut}
                       && db.tasks[r.task].created < cutoff))
  {
    var keep := (r: ResultRow) => !Expired(db, r.task, cutoff);
    WhereMembers(db.results, keep);
    WhereKeeps(db.results, keep);
  }

  /** One host's results, in order. */
  function RowsOf(rows: seq<ResultRow>, host: Host): seq<ResultRow> {
    if rows == [] then []
    else RowsOf(Init(rows), host) + if Last(rows).host == host then [Last(rows)] else []
  }

  lemma {:induction false} RowsOfWhere(rows: seq<ResultRow>, keep: ResultRow -> bool, host: Host)
    requires forall r | r in rows && r.host == host :: keep(r)
    ensures RowsOf(Where(rows, keep), host) == RowsOf(rows, host)
  {
    if rows != [] {
      RowsOfWhere(Init(rows), keep, host);
      var kept, last := Where(Init(rows), keep), Last(rows);
      assert last in rows;
      if keep(last) {
        assert Init(kept + [last]) == kept;
      } else {
        assert Where(rows, keep) == kept;
      }
    }
  }

  // ------------------------------------------------------- the invariants

  /** Every retained task belongs to the host it was queued for. */
  ghost predicate Owned(w: World) {
    && (forall id | id in w.db.tasks :: id in w.owner && w.db.tasks[id].host == w.owner[id])
    && (forall id | id in w.owner :: id < w.db.nextId)
    && (forall c | c in w.cleared + w.selected :: c.0 in w.owner && w.owner[c.0] == c.1)
  }

  /** The fetch responses of one host, concatenated, are strictly increasing. */
  ghost predicate InOrder(rs: seq<Response>) {
    forall p, q, k, l | 0 <= p <= q < |rs| && 0 <= k < |rs[p].ids| && 0 <= l < |rs[q].ids| && (p < q || k < l) ::
      rs[p].host == rs[q].host ==> rs[p].ids[k] < rs[q].ids[l]
  }

  /** What was handed out went to its owner, is no longer pending, and is older than all that is. */
  ghost predicate HandedOut(w: World) {
    && InOrder(w.responses)
    && (forall p, k | 0 <= p < |w.responses| && 0 <= k < |w.responses[p].ids| ::
          var r := w.responses[p];
          && r.ids[k] in w.owner && w.owner[r.ids[k]] == r.host
          && forall id | IsPending(w.db.tasks, r.host, id) :: r.ids[k] < id)
  }

  ghost predicate SecretsKept(w: World) {
    && (forall t | t in w.ram :: t in w.stored && w.ram[t].password == w.stored[t])
    && (forall i | 0 <= i < |w.delivered| :: DeliveredRight(w, w.delivered[i]))
    && (forall i, j | 0 <= i < j < |w.delivered| :: w.delivered[i].task != w.delivered[j].task)
  }

  /** The password stored for this task, in the response that hands out this task, and gone from RAM. */
  ghost predicate DeliveredRight(w: World, d: Delivery) {
    && d.task in w.stored && w.stored[d.task] == d.password && d.task !in w.ram
    && d.response < |w.responses| && d.task in w.responses[d.response].ids
  }

  ghost predicate Inv(w: World) { Owned(w) && ResultsMatch(w.db) && HandedOut(w) && SecretsKept(w) }

  /** No task is new, changes its host or becomes pending. */
  ghost predicate NoNewPending(was: Db, db: Db) {
    && db.nextId == was.nextId
    && forall id | id in db.tasks :: id in was.tasks && db.tasks[id].host == was.tasks[id].host
                                     && (db.tasks[id].status.Pending? ==> was.tasks[id].status.Pending?)
  }

  lemma {:induction false} TimedOutAllKeeps(w: World, stale: seq<(nat, Host)>)
    requires Owned(w) && ResultsMatch(w.db) && forall s | s in stale :: s in w.selected
    ensures var db := TimedOutAll(w.db, stale);
            ResultsMatch(db) && NoNewPending(w.db, db) && db.tasks.Keys == w.db.tasks.Keys
  {
    if stale != [] {
      var init, last := stale[..|stale| - 1], stale[|stale| - 1];
      TimedOutAllKeeps(w, init);
      assert last in w.cleared + w.selected;
      ClosedKeepsResults(TimedOutAll(w.db, init), last.0, last.1, TimedOut, true);
    }
  }

  /** The selected tasks that are still dispatched time out, no other task changes, and
      each of those gets one synthetic row. */
  lemma {:induction false} TimedOutAllMeans(db: Db, stale: seq<(nat, Host)>)
    ensures var closed := TimedOutAll(db, stale);
            && closed.tasks.Keys == db.tasks.Keys && closed.nextId == db.nextId
            && forall id | id in db.tasks ::
                 && closed.tasks[id] == (if TimesOut(db, stale, id) then db.tasks[id].(status := TimedOut)
                                         else db.tasks[id])
                 && CountFor(closed.results, id) == CountFor(db.results, id) + if TimesOut(db, stale, id) then 1 else 0
  {
    if stale != [] {
      var init, last := Init(stale), Last(stale);
      TimedOutAllMeans(db, init);
      var before := TimedOutAll(db, init);
      assert forall s :: s in stale <==> s in init || s == last;
      forall id ensures CountFor(before.results + [ResultRow(last.0, last.1, true)], id)
                        == CountFor(before.results, id) + if last.0 == id then 1 else 0 {
        CountAppend(before.results, ResultRow(last.0, last.1, true), id);
      }
    }
  }

  ghost predicate TimesOut(db: Db, stale: seq<(nat, Host)>, id: nat) {
    IsDispatched(db, id) && exists s :: s in stale && s.0 == id
  }

  /** The tables other than `tasks` and its statuses play no part in these. */
  lemma FewerPending(w: World, db: Db)
    requires Owned(w) && HandedOut(w) && NoNewPending(w.db, db)
    ensures Owned(w.(db := db)) && HandedOut(w.(db := db))
  {
    assert forall h, id | IsPending(db.tasks, h, id) :: IsPending(w.db.tasks, h, id);
  }

  lemma QueueKeepsResults(db: Db, host: Host, now: real)
    requires ResultsMatch(db) && forall id | id in db.tasks :: id < db.nextId
    ensures ResultsMatch(Queued(db, host, now))
  {
    NoRowsNoCount(db.results, db.nextId);
  }

  lemma QueueKeepsOrder(w: World, host: Host, now: real)
    requires Owned(w) && HandedOut(w)
    ensures HandedOut(Apply(w, Queue(host, now)))
  {
    hide InOrder;
    var w' := Apply(w, Queue(host, now));
    forall p, k, id: nat | 0 <= p < |w.responses| && 0 <= k < |w.responses[p].ids|
                           && IsPending(w'.db.tasks, w.responses[p].host, id)
      ensures w.responses[p].ids[k] < id
    {
      if id != w.db.nextId { assert IsPending(w.db.tasks, w.responses[p].host, id); }
    }
  }

  lemma QueueKeeps(w: World, host: Host, now: real)
    requires Inv(w)
    ensures Inv(Apply(w, Queue(host, now)))
  {
    hide ResultsMatch, HandedOut;
    QueueKeepsResults(w.db, host, now);
    QueueKeepsOrder(w, host, now);
    assert forall i | 0 <= i < |w.delivered| :: DeliveredRight(w, w.delivered[i]);
  }

  lemma InOrderAppend(rs: seq<Response>, r: Response)
    requires InOrder(rs) && forall i, j | 0 <= i < j < |r.ids| :: r.ids[i] < r.ids[j]
    requires forall p, k, l | 0 <= p < |rs| && 0 <= k < |rs[p].ids| && 0 <= l < |r.ids| ::
               rs[p].host == r.host ==> rs[p].ids[k] < r.ids[l]
    ensures InOrder(rs + [r])
  {
    var rs' := rs + [r];
    assert rs'[|rs|] == r && forall p | 0 <= p < |rs| :: rs'[p] == rs[p];
  }

  lemma FetchKeepsResults(db: Db, host: Host, now: real)
    requires ResultsMatch(db)
    ensures ResultsMatch(db.(tasks := DispatchAll(db.tasks, host, now)))
  {
  }

  lemma FetchKeeps(w: World, host: Host, now: real)
    requires Inv(w)
    ensures Inv(Apply(w, Fetch(host, now)))
  {
    hide ResultsMatch, InOrder;
    var w' := Apply(w, Fetch(host, now));
    var n := |w.responses|;
    var ids := PendingIds(w.db.tasks, host, w.db.nextId);
    var rs, rs' := w.responses, w'.responses;
    assert rs' == rs + [Response(host, ids, 0)];
    FetchKeepsResults(w.db, host, now);
    assert forall h, id | IsPending(w'.db.tasks, h, id) :: h != host && IsPending(w.db.tasks, h, id);
    InOrderAppend(rs, Response(host, ids, 0));
    assert Owned(w');
    assert rs'[n].ids == ids && forall p | 0 <= p < n :: rs'[p] == rs[p];
    assert HandedOut(w');
    assert forall i | 0 <= i < |w.delivered| :: DeliveredRight(w, w.delivered[i]);
    assert SecretsKept(w');
  }

  /** Only what the responses list counts, not how far their take loops have come. */
  lemma SameResponses(w: World, w': World)
    requires HandedOut(w) && w'.db == w.db && w'.owner == w.owner && |w'.responses| == |w.responses|
    requires forall q | 0 <= q < |w.responses| ::
               w'.responses[q].ids == w.responses[q].ids && w'.responses[q].host == w.responses[q].host
    ensures HandedOut(w')
  {
    hide IsPending;
  }

  lemma TakeDelivers(w: World, p: nat)
    requires SecretsKept(w)
    ensures SecretsKept(Apply(w, Take(p)))
  {
    var w' := Apply(w, Take(p));
    forall i | 0 <= i < |w.delivered| ensures DeliveredRight(w', w.delivered[i]) && w.delivered[i].task !in w.ram {
      assert DeliveredRight(w, w.delivered[i]);
    }
  }

  lemma TakeKeeps(w: World, p: nat)
    requires Inv(w)
    ensures Inv(Apply(w, Take(p)))
  {
    hide ResultsMatch, HandedOut, SecretsKept;
    SameResponses(w, Apply(w, Take(p)));
    TakeDelivers(w, p);
  }

  lemma SecretStepKeeps(w: World, step: Step)
    requires Inv(w) && (step.StoreSecret? || step.Sweep?)
    ensures Inv(Apply(w, step))
  {
    hide ResultsMatch, InOrder;
    var w' := Apply(w, step);
    assert HandedOut(w') && Owned(w');
    assert forall i | 0 <= i < |w.delivered| :: DeliveredRight(w, w.delivered[i]);
  }

  lemma DbStepKeeps(w: World, db: Db)
    requires Inv(w) && ResultsMatch(db) && NoNewPending(w.db, db)
    ensures Inv(w.(db := db))
  {
    hide ResultsMatch, Owned, HandedOut;
    FewerPending(w, db);
    assert forall i | 0 <= i < |w.delivered| :: DeliveredRight(w, w.delivered[i]);
  }

  lemma ApplyKeepsInv(w: World, step: Step)
    requires Inv(w)
    ensures Inv(Apply(w, step))
  {
    hide IsDispatched, ResultsMatch, HandedOut, SecretsKept, Pruned, Closed, TimedOutAll, WithoutHost, NoNewPending;
    match step
    case Queue(host, now) => QueueKeeps(w, host, now);
    case StoreSecret(_, _, _) => SecretStepKeeps(w, step);
    case Sweep(_) => SecretStepKeeps(w, step);
    case Fetch(host, now) => FetchKeeps(w, host, now);
    case Take(p) => TakeKeeps(w, p);
    case CheckOwner(_, _) => RequestsIrrelevant(w, Apply(w, step));
    case SelectStale(_) => RequestsIrrelevant(w, Apply(w, step));
    case Submit(task, host) =>
      if (task, host) in w.cleared {
        assert (task, host) in w.cleared + w.selected;
        ClosedKeepsResults(w.db, task, host, Done, false);
        DbStepKeeps(w, Closed(w.db, task, host, Done, false));
      }
    case Reclaim(stale, before) =>
      if forall s | s in stale :: s in w.selected {
        TimedOutAllKeeps(w, stale);
        var closed := TimedOutAll(w.db, stale);
        DbStepKeeps(w, closed);
        if before.Some? {
          PrunedKeepsResults(closed, before.value);
          DbStepKeeps(w.(db := closed), Pruned(closed, before.value));
        }
      }
    case DeleteHost(host) =>
      WithoutHostKeepsResults(w.db, host);
      DbStepKeeps(w, WithoutHost(w.db, host));
  }

  lemma RequestsIrrelevant(w: World, w': World)
    requires HandedOut(w) && SecretsKept(w) && w' == w.(cleared := w'.cleared, selected := w'.selected)
    ensures HandedOut(w') && SecretsKept(w')
  {
    assert forall i | 0 <= i < |w.delivered| :: DeliveredRight(w, w.delivered[i]);
  }

  lemma {:induction false} RunKeepsInv(w: World, steps: seq<Step>)
    requires Inv(w)
    ensures Inv(Run(w, steps))
    decreases |steps|
  {
    hide Inv, Apply;
    if steps != [] {
      ApplyKeepsInv(w, steps[0]);
      RunKeepsInv(Apply(w, steps[0]), steps[1..]);
    }
  }

  // ------------------------------------------------------------- theorems

  /** Each task is handed out at most once, in one place of one response, to its own host only. */
  lemma HandedOutOnce(steps: seq<Step>, p: nat, k: nat, q: nat, l: nat)
    requires var rs := Run(EMPTY, steps).responses;
             p < |rs| && q < |rs| && k < |rs[p].ids| && l < |rs[q].ids| && rs[p].ids[k] == rs[q].ids[l]
    ensures var w := Run(EMPTY, steps);
            && p == q && k == l
            && w.responses[p].ids[k] in w.owner && w.owner[w.responses[p].ids[k]] == w.responses[p].host
  {
    hide Run;
    RunKeepsInv(EMPTY, steps);
  }

  /** A host's responses, concatenated over any run, are strictly increasing in id. */
  lemma ResponsesIncrease(steps: seq<Step>)
    ensures InOrder(Run(EMPTY, steps).responses)
  {
    hide Run;
    RunKeepsInv(EMPTY, steps);
  }

  /** A retained task has exactly one result row when finished and none otherwise,
      so a real and a synthetic result never both exist. */
  lemma OneResultPerFinishedTask(steps: seq<Step>, id: nat)
    requires id in Run(EMPTY, steps).db.tasks
    ensures var db := Run(EMPTY, steps).db;
            CountFor(db.results, id) == if Terminal(db.tasks[id].status) then 1 else 0
  {
    hide Run;
    RunKeepsInv(EMPTY, steps);
  }

  /** A stored password leaves at most once, in the response that hands out the very
      task it was stored for, and therefore to that task's host. */
  lemma SecretLeavesOnce(steps: seq<Step>, i: nat)
    requires i < |Run(EMPTY, steps).delivered|
    ensures var w := Run(EMPTY, steps);
            var d := w.delivered[i];
            && d.task in w.stored && d.password == w.stored[d.task] && d.task !in w.ram
            && d.response < |w.responses| && d.task in w.responses[d.response].ids
            && d.task in w.owner && w.responses[d.response].host == w.owner[d.task]
            && forall j | 0 <= j < |w.delivered| && j != i :: w.delivered[j].task != d.task
  {
    hide Run;
    RunKeepsInv(EMPTY, steps);
    var w := Run(EMPTY, steps);
    assert DeliveredRight(w, w.delivered[i]);
  }

  /** Stored once, gone from RAM and never delivered: it stays that way. */
  lemma {:induction false} GoneStaysGone(w: World, steps: seq<Step>, task: nat)
    requires task in w.stored && task !in w.ram
    requires forall i | 0 <= i < |w.delivered| :: w.delivered[i].task != task
    ensures var w' := Run(w, steps);
            task !in w'.ram && forall i | 0 <= i < |w'.delivered| :: w'.delivered[i].task != task
    decreases |steps|
  {
    if steps != [] {
      GoneAfterStep(w, steps[0], task);
      hide Apply;
      GoneStaysGone(Apply(w, steps[0]), steps[1..], task);
    }
  }

  lemma GoneAfterStep(w: World, step: Step, task: nat)
    requires task in w.stored && task !in w.ram
    requires forall i | 0 <= i < |w.delivered| :: w.delivered[i].task != task
    ensures var w' := Apply(w, step);
            && task in w'.stored && task !in w'.ram
            && forall i | 0 <= i < |w'.delivered| :: w'.delivered[i].task != task
  {
    hide Queued, DispatchAll, PendingIds, Closed, TimedOutAll, Pruned, WithoutHost;
  }

  /** A password that a sweep removed was never delivered and never will be. */
  lemma SweptIsNeverDelivered(before: seq<Step>, now: real, after: seq<Step>, task: nat, i: nat)
    requires var w := Run(EMPTY, before); task in w.ram && w.ram[task].expiry < now
    requires i < |Run(Apply(Run(EMPTY, before), Sweep(now)), after).delivered|
    ensures Run(Apply(Run(EMPTY, before), Sweep(now)), after).delivered[i].task != task
  {
    hide Run;
    RunKeepsInv(EMPTY, before);
    var w := Run(EMPTY, before);
    forall k | 0 <= k < |w.delivered| ensures w.delivered[k].task != task {
      assert DeliveredRight(w, w.delivered[k]);
    }
    GoneStaysGone(Apply(w, Sweep(now)), after, task);
  }

  // ------------------------------------------------------ what does happen

  /** A queued task is in the host's next fetch, unless that host was deleted or fetched before;
      and it is the last of that response. */
  lemma QueuedIsFetched(w: World, host: Host, queued: real, fetched: real)
    requires Inv(w)
    ensures var id := w.db.nextId;
            var w' := Apply(Apply(w, Queue(host, queued)), Fetch(host, fetched));
            && |w'.responses| == |w.responses| + 1
            && w'.responses[|w.responses|].host == host
            && id in w'.responses[|w.responses|].ids
            && w'.db.tasks[id] == Task(host, Dispatched, queued, Some(fetched))
  {
  }

  /** The password stored for a task is in the response that hands the task out, unless
      it was swept or taken before its turn comes. */
  lemma StoredIsDelivered(w: World, p: nat)
    requires p < |w.responses| && w.responses[p].next < |w.responses[p].ids|
    requires w.responses[p].ids[w.responses[p].next] in w.ram
    ensures var task := w.responses[p].ids[w.responses[p].next];
            var w' := Apply(w, Take(p));
            && w'.delivered == w.delivered + [Delivery(task, w.ram[task].password, p)]
            && w'.ram == w.ram - {task} && w'.responses[p].next == w.responses[p].next + 1
  {
  }

  /** A task dispatched before the cutoff is selected as stale, with its host. */
  lemma StaleIsSelected(w: World, cutoff: real, id: nat)
    requires IsDispatched(w.db, id) && w.db.tasks[id].dispatched.Some? && w.db.tasks[id].dispatched.value < cutoff
    ensures (id, w.db.tasks[id].host) in Apply(w, SelectStale(cutoff)).selected
    ensures Apply(w, SelectStale(cutoff)).db == w.db
  {
  }

  /** A selected task that is still dispatched when the reclaim comes times out with one
      synthetic result; no other task changes. */
  lemma SelectedIsReclaimed(w: World, id: nat)
    requires Inv(w) && IsDispatched(w.db, id) && (id, w.db.tasks[id].host) in w.selected
    ensures var w' := Apply(w, Reclaim([(id, w.db.tasks[id].host)], None));
            && w'.db.tasks == w.db.tasks[id := w.db.tasks[id].(status := TimedOut)]
            && CountFor(w'.db.results, id) == 1
  {
    hide HandedOut, SecretsKept, Owned;
    var stale := [(id, w.db.tasks[id].host)];
    assert CountFor(w.db.results, id) == 0;
    hide ResultsMatch, TimedOutAll, CountFor;
    TimedOutAllMeans(w.db, stale);
    assert stale[0].0 == id;
    assert TimesOut(w.db, stale, id) && forall other | other != id :: !TimesOut(w.db, stale, other);
    assert !exists s :: s in stale && s !in w.selected;
    assert TimedOutAll(w.db, stale).tasks == w.db.tasks[id := w.db.tasks[id].(status := TimedOut)];
  }
}
