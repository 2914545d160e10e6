/** The tally of addresses the controller is reached at, and the decision to
    replace a silent advertised one (backend/self_address.py). */
module SelfAddress {
  import opened Common

  type Addr = string

  const STALE_AFTER := 900.0
  const MIN_SIGHTINGS := 20
  const MIN_SOURCES := 2
  const MIN_SPREAD := 300.0
  const FORGET_AFTER := 86400.0
  const MAX_TRACKED := 64
  const MAX_PEERS := 16

  datatype Entry = Entry(addr: Addr, first: real, last: real, count: nat, peers: seq<string>)

  /** A dict in insertion order. */
  type Store = seq<Entry>

  ghost predicate Distinct(store: Store) {
    forall i, j | 0 <= i < j < |store| :: store[i].addr != store[j].addr
  }

  /** The position of addr, or the length when it is not tracked. */
  function Index(store: Store, addr: Addr): (i: nat)
    ensures i <= |store| && (i < |store| ==> store[i].addr == addr)
    ensures forall k | 0 <= k < i :: store[k].addr != addr
  {
    if store == [] then 0 else if store[0].addr == addr then 0 else 1 + Index(store[1..], addr)
  }

  /** The first entry with the least `last`. */
  function Oldest(store: Store): (i: nat)
    requires store != []
    ensures i < |store| && forall k | 0 <= k < |store| :: store[i].last <= store[k].last
  {
    if |store| == 1 then 0
    else
      var i := Oldest(store[..|store| - 1]);
      assert forall k | 0 <= k < |store| - 1 :: store[..|store| - 1][k] == store[k];
      if store[|store| - 1].last < store[i].last then |store| - 1 else i
  }

  function Without(store: Store, i: nat): Store
    requires i < |store|
  {
    store[..i] + store[i + 1..]
  }

  function Seen(e: Entry, peer: string, now: real): Entry {
    e.(last := now, count := e.count + 1,
       peers := if peer != "" && peer !in e.peers && |e.peers| < MAX_PEERS then e.peers + [peer] else e.peers)
  }

  /** An accepted observation: a routable literal address. */
  function Observed(store: Store, addr: Addr, peer: string, now: real): Store {
    var i := Index(store, addr);
    if i < |store| then store[i := Seen(store[i], peer, now)]
    else
      var room := if |store| >= MAX_TRACKED then Without(store, Oldest(store)) else store;
      room + [Seen(Entry(addr, now, now, 0, []), peer, now)]
  }

  function Pruned(store: Store, now: real): Store {
    if store == [] then []
    else
      var last := store[|store| - 1];
      Pruned(store[..|store| - 1], now) + if now - last.last > FORGET_AFTER then [] else [last]
  }

  predicate Eligible(e: Entry, adv: Addr, now: real) {
    && e.addr != adv && now - e.last <= STALE_AFTER
    && e.count >= MIN_SIGHTINGS && |e.peers| >= MIN_SOURCES && e.last - e.first >= MIN_SPREAD
  }

  predicate Reached(store: Store, adv: Addr, now: real) {
    var i := Index(store, adv);
    i < |store| && now - store[i].last <= STALE_AFTER
  }

  datatype Assessment = Assessment(stale: bool, candidate: Option<Addr>)

  class AddressTally {
    var store: Store

    constructor ()
      ensures store == []
    {
      store := [];
    }

    /** `accepted` says whether _normalise and is_routable_for_fleet let the address through. */
    method Observe(addr: Addr, accepted: bool, peer: string, now: real)
      modifies this
      ensures store == if accepted then Observed(old(store), addr, peer, now) else old(store)
    {
      hide Index, Oldest;
      if !accepted {
        return;
      }
      var i := Index(store, addr);
      ghost var blank := Entry(addr, now, now, 0, []);
      ghost var room := store;
      if i == |store| {
        if |store| >= MAX_TRACKED {
          ForgetOldest();
        }
        room := store;
        i := |store|;
        store := store + [Entry(addr, now, now, 0, [])];
        assert store[i] == blank && store[i := Seen(blank, peer, now)] == room + [Seen(blank, peer, now)];
      }
      var e := store[i];
      e := e.(last := now, count := e.count + 1);
      if peer != "" && peer !in e.peers && |e.peers| < MAX_PEERS {
        e := e.(peers := e.peers + [peer]);
      }
      store := store[i := e];
    }

    method ForgetOldest()
      requires store != []
      modifies this
      ensures store == Without(old(store), Oldest(old(store)))
    {
      var oldest := 0;
      for k := 1 to |store|
        invariant oldest == Oldest(store[..k])
      {
        assert store[..k + 1][..k] == store[..k];
        if store[k].last < store[oldest].last {
          oldest := k;
        }
      }
      assert store[..|store|] == store;
      store := store[..oldest] + store[oldest + 1..];
    }

    method Prune(now: real)
      modifies this
      ensures store == Pruned(old(store), now)
    {
      var kept: Store := [];
      for k := 0 to |store|
        invariant store == old(store) && kept == Pruned(store[..k], now)
      {
        assert store[..k + 1][..k] == store[..k];
        if now - store[k].last <= FORGET_AFTER {
          kept := kept + [store[k]];
        }
      }
      assert store[..|store|] == store;
      store := kept;
    }

    /** "" as the advertised address means that none is advertised. */
    method Assess(adv: Addr, now: real) returns (r: Assessment)
      ensures r.stale <==> adv != "" && !Reached(store, adv, now)
      ensures r.candidate.None? <==> !r.stale || forall k | 0 <= k < |store| :: !Eligible(store[k], adv, now)
      ensures r.candidate.Some? ==>
                exists i :: 0 <= i < |store| && Best(store, i, adv, now) && r.candidate == Some(store[i].addr)
    {
      if adv != "" && Reached(store, adv, now) {
        return Assessment(false, None);
      }
      if adv == "" {
        return Assessment(false, None);
      }
      var best, bestCount := |store|, 0;
      for k := 0 to |store|
        invariant best == |store|
                  || (0 <= best < k && bestCount == store[best].count && Best(store[..k], best, adv, now))
        invariant best == |store| ==> bestCount == 0 && forall j | 0 <= j < k :: !Eligible(store[j], adv, now)
      {
        var e := store[k];
        assert forall j | 0 <= j < k :: store[..k][j] == store[j] && store[..k + 1][j] == store[j];
        assert store[..k + 1][k] == e;
        if e.addr == adv { continue; }
        if now - e.last > STALE_AFTER { continue; }
        if e.count < MIN_SIGHTINGS || |e.peers| < MIN_SOURCES { continue; }
        if e.last - e.first < MIN_SPREAD { continue; }
        if e.count > bestCount {
          best, bestCount := k, e.count;
        }
      }
      assert store[..|store|] == store;
      if best == |store| {
        return Assessment(true, None);
      }
      return Assessment(true, Some(store[best].addr));
    }
  }

  /** Eligible, no eligible entry counts more, and no earlier one as much. */
  ghost predicate Best(store: Store, i: int, adv: Addr, now: real) {
    && 0 <= i < |store| && Eligible(store[i], adv, now)
    && (forall k | 0 <= k < |store| && Eligible(store[k], adv, now) :: store[k].count <= store[i].count)
    && (forall k | 0 <= k < i && Eligible(store[k], adv, now) :: store[k].count < store[i].count)
  }

  // --------------------------------------------------------------- history

  datatype Event = Sighting(addr: Addr, peer: string, at: real) | Prune(at: real)

  function After(h: seq<Event>): Store {
    if h == [] then []
    else
      match Last(h)
      case Sighting(addr, peer, at) => Observed(After(Init(h)), addr, peer, at)
      case Prune(at) => Pruned(After(Init(h)), at)
  }

  ghost predicate Clocked(h: seq<Event>) { forall i, j | 0 <= i < j < |h| :: h[i].at <= h[j].at }

  predicate IsSighting(e: Event, addr: Addr) { e.Sighting? && e.addr == addr }

  function Sightings(h: seq<Event>, addr: Addr): nat {
    if h == [] then 0 else Sightings(Init(h), addr) + if IsSighting(Last(h), addr) then 1 else 0
  }

  ghost predicate SightedAt(h: seq<Event>, addr: Addr, at: real) {
    exists i :: 0 <= i < |h| && IsSighting(h[i], addr) && h[i].at == at
  }

  ghost predicate SightedBy(h: seq<Event>, addr: Addr, peer: string) {
    exists i :: 0 <= i < |h| && IsSighting(h[i], addr) && h[i].peer == peer
  }

  /** Everything an entry claims is in the history. */
  ghost predicate Backed(e: Entry, h: seq<Event>) {
    && e.count <= Sightings(h, e.addr)
    && SightedAt(h, e.addr, e.first) && SightedAt(h, e.addr, e.last)
    && (forall k | 0 <= k < |e.peers| :: e.peers[k] != "" && SightedBy(h, e.addr, e.peers[k]))
    && (forall k, l | 0 <= k < l < |e.peers| :: e.peers[k] != e.peers[l])
  }

  ghost predicate Inv(store: Store, h: seq<Event>) {
    && Distinct(store) && |store| <= MAX_TRACKED
    && forall i | 0 <= i < |store| :: Backed(store[i], h)
  }

  lemma BackedLater(e: Entry, h: seq<Event>, x: Event)
    requires Backed(e, h)
    ensures Backed(e, h + [x])
  {
    var h' := h + [x];
    assert Init(h') == h && forall i | 0 <= i < |h| :: h'[i] == h[i];
    forall at | SightedAt(h, e.addr, at) ensures SightedAt(h', e.addr, at) {
      var i :| 0 <= i < |h| && IsSighting(h[i], e.addr) && h[i].at == at;
      assert IsSighting(h'[i], e.addr) && h'[i].at == at;
    }
    forall k | 0 <= k < |e.peers| ensures e.peers[k] != "" && SightedBy(h', e.addr, e.peers[k]) {
      var i :| 0 <= i < |h| && IsSighting(h[i], e.addr) && h[i].peer == e.peers[k];
      assert IsSighting(h'[i], e.addr) && h'[i].peer == e.peers[k];
    }
  }

  lemma NewSighting(h: seq<Event>, addr: Addr, peer: string, now: real)
    ensures var h' := h + [Sighting(addr, peer, now)];
            Sightings(h', addr) == Sightings(h, addr) + 1 && SightedAt(h', addr, now) && SightedBy(h', addr, peer)
  {
    var h' := h + [Sighting(addr, peer, now)];
    assert Init(h') == h && IsSighting(h'[|h|], addr);
  }

  lemma SeenBacked(e: Entry, h: seq<Event>, peer: string, now: real)
    requires Backed(e, h) || (e.count == 0 && e.peers == [] && e.first == now)
    ensures Backed(Seen(e, peer, now), h + [Sighting(e.addr, peer, now)])
  {
    hide Sightings, SightedAt, SightedBy;
    NewSighting(h, e.addr, peer, now);
    if Backed(e, h) { BackedLater(e, h, Sighting(e.addr, peer, now)); }
  }

  lemma {:induction false} PrunedShape(store: Store, now: real)
    requires Distinct(store)
    ensures Distinct(Pruned(store, now)) && |Pruned(store, now)| <= |store|
    ensures forall e | e in Pruned(store, now) :: e in store && now - e.last <= FORGET_AFTER
    ensures forall e | e in store && now - e.last <= FORGET_AFTER :: e in Pruned(store, now)
  {
    if store != [] {
      var n := |store| - 1;
      PrunedShape(store[..n], now);
      var rest := Pruned(store[..n], now);
      forall k | 0 <= k < |rest| ensures rest[k].addr != store[n].addr {
        assert rest[k] in store[..n];
      }
    }
  }

  lemma WithoutKeeps(store: Store, h: seq<Event>, i: nat)
    requires i < |store| && Inv(store, h)
    ensures Inv(Without(store, i), h)
    ensures forall e | e in Without(store, i) :: e in store
  {
    hide Backed;
    var room := Without(store, i);
    assert forall k | 0 <= k < |room| :: room[k] == store[if k < i then k else k + 1];
  }

  lemma AppendKeeps(store: Store, h: seq<Event>, e: Entry)
    requires Inv(store, h) && Backed(e, h) && |store| < MAX_TRACKED
    requires forall k | 0 <= k < |store| :: store[k].addr != e.addr
    ensures Inv(store + [e], h)
  {
    hide Backed;
  }

  lemma UpdateKeeps(store: Store, h: seq<Event>, i: nat, e: Entry)
    requires i < |store| && Inv(store, h) && Backed(e, h) && e.addr == store[i].addr
    ensures Inv(store[i := e], h)
  {
    hide Backed;
  }

  lemma ObservedKeeps(store: Store, h: seq<Event>, addr: Addr, peer: string, now: real)
    requires Inv(store, h)
    ensures Inv(Observed(store, addr, peer, now), h + [Sighting(addr, peer, now)])
  {
    hide Backed, Seen, Oldest, Index, Distinct, Without;
    var h' := h + [Sighting(addr, peer, now)];
    assert Inv(store, h') by {
      forall i | 0 <= i < |store| ensures Backed(store[i], h') { BackedLater(store[i], h, Sighting(addr, peer, now)); }
    }
    var i := Index(store, addr);
    if i < |store| {
      SeenBacked(store[i], h, peer, now);
      SeenAddr(store[i], peer, now);
      UpdateKeeps(store, h', i, Seen(store[i], peer, now));
    } else {
      var blank := Entry(addr, now, now, 0, []);
      SeenBacked(blank, h, peer, now);
      SeenAddr(blank, peer, now);
      if |store| >= MAX_TRACKED {
        var o := Oldest(store);
        WithoutKeeps(store, h', o);
        WithoutSize(store, o);
        forall k | 0 <= k < |Without(store, o)| ensures Without(store, o)[k].addr != addr {
          assert Without(store, o)[k] in store;
        }
        AppendKeeps(Without(store, o), h', Seen(blank, peer, now));
      } else {
        AppendKeeps(store, h', Seen(blank, peer, now));
      }
    }
  }

  lemma WithoutSize(store: Store, i: nat)
    requires i < |store|
    ensures |Without(store, i)| == |store| - 1
  {
  }

  lemma SeenAddr(e: Entry, peer: string, now: real)
    ensures Seen(e, peer, now).addr == e.addr
  {
  }

  lemma {:induction false} AfterKeeps(h: seq<Event>)
    ensures Inv(After(h), h)
  {
    if h != [] {
      var h0, x := Init(h), Last(h);
      assert h == h0 + [x];
      AfterKeeps(h0);
      var store := After(h0);
      match x
      case Sighting(addr, peer, at) => ObservedKeeps(store, h0, addr, peer, at);
      case Prune(at) =>
        PrunedShape(store, at);
        var left := Pruned(store, at);
        forall i | 0 <= i < |left| ensures Backed(left[i], h) {
          assert left[i] in store;
          BackedLater(left[i], h0, x);
        }
    }
  }

  /** A replacement is named only on evidence in the history: at least twenty
      sightings, two distinct peers, five minutes apart, the last within fifteen. */
  lemma ReplacementIsEarned(h: seq<Event>, i: nat, adv: Addr, now: real)
    requires i < |After(h)| && Eligible(After(h)[i], adv, now)
    ensures var a := After(h)[i].addr;
            && a != adv && Sightings(h, a) >= MIN_SIGHTINGS
            && (exists p, q :: p != q && p != "" && q != "" && SightedBy(h, a, p) && SightedBy(h, a, q))
            && (exists s, t ::
                  SightedAt(h, a, s) && SightedAt(h, a, t) && t - s >= MIN_SPREAD && now - t <= STALE_AFTER)
  {
    AfterKeeps(h);
    var e := After(h)[i];
    assert SightedBy(h, e.addr, e.peers[0]) && SightedBy(h, e.addr, e.peers[1]) && e.peers[0] != e.peers[1];
    assert SightedAt(h, e.addr, e.first) && SightedAt(h, e.addr, e.last);
  }

  lemma NotAllTheSame(peers: seq<string>, peer: string)
    requires forall k, l | 0 <= k < l < |peers| :: peers[k] != peers[l]
    ensures |peers| >= 2 ==> exists k :: 0 <= k < |peers| && peers[k] != peer
  {
    if |peers| >= 2 {
      assert peers[0] != peers[1];
    }
  }

  /** Traffic from a single peer never moves the address. */
  lemma OnePeerMovesNothing(h: seq<Event>, peer: string, i: nat, adv: Addr, now: real)
    requires forall k | 0 <= k < |h| && h[k].Sighting? :: h[k].peer == peer || h[k].peer == ""
    requires i < |After(h)|
    ensures !Eligible(After(h)[i], adv, now)
  {
    AfterKeeps(h);
    var e := After(h)[i];
    forall k | 0 <= k < |e.peers| ensures e.peers[k] == peer {
      assert SightedBy(h, e.addr, e.peers[k]);
    }
    NotAllTheSame(e.peers, peer);
  }

  // --------------------------------------------- a live address stays put

  ghost function Addresses(h: seq<Event>): set<Addr> {
    set i | 0 <= i < |h| && h[i].Sighting? :: h[i].addr
  }

  ghost function Tracked(store: Store): set<Addr> { set i | 0 <= i < |store| :: store[i].addr }

  lemma {:induction false} TrackedSize(store: Store)
    requires Distinct(store)
    ensures |Tracked(store)| == |store|
  {
    if store != [] {
      var n := |store| - 1;
      TrackedSize(store[..n]);
      assert Tracked(store) == Tracked(store[..n]) + {store[n].addr};
    }
  }

  /** While everything fits, an address sighted recently enough is tracked up to date. */
  ghost predicate Remembers(store: Store, h: seq<Event>, now: real) {
    forall k | 0 <= k < |h| && h[k].Sighting? && now - h[k].at <= FORGET_AFTER :: Fresh(store, h[k].addr, h[k].at)
  }

  ghost predicate Fresh(store: Store, addr: Addr, at: real) {
    exists i :: 0 <= i < |store| && store[i].addr == addr && store[i].last >= at
  }

  lemma NoEviction(h: seq<Event>, store: Store, addr: Addr, peer: string, at: real)
    requires Inv(store, h) && |Addresses(h + [Sighting(addr, peer, at)])| <= MAX_TRACKED
    ensures Index(store, addr) == |store| ==> |store| < MAX_TRACKED
  {
    var h' := h + [Sighting(addr, peer, at)];
    TrackedSize(store);
    assert h'[|h|].addr == addr && forall k | 0 <= k < |h| :: h'[k] == h[k];
    forall a | a in Tracked(store) + {addr} ensures a in Addresses(h') {
      if a != addr {
        var i :| 0 <= i < |store| && store[i].addr == a;
        var k :| 0 <= k < |h| && IsSighting(h[k], a) && h[k].at == store[i].last;
        assert h'[k].addr == a;
      }
    }
    SubsetSize(Tracked(store) + {addr}, Addresses(h'));
  }

  /** With room to spare a sighting forgets nothing, and remembers itself. */
  lemma ObservedFresh(store: Store, addr: Addr, peer: string, now: real, a: Addr, at: real)
    requires Index(store, addr) == |store| ==> |store| < MAX_TRACKED
    requires at <= now && (a == addr || Fresh(store, a, at))
    ensures Fresh(Observed(store, addr, peer, now), a, at)
  {
    var store' := Observed(store, addr, peer, now);
    var i := Index(store, addr);
    assert i < |store'| && store'[i].addr == addr && store'[i].last == now;
    if a != addr {
      var j :| 0 <= j < |store| && store[j].addr == a && store[j].last >= at;
      assert store'[j] == store[j];
    }
  }

  lemma ObservedRemembers(store: Store, h: seq<Event>, addr: Addr, peer: string, at: real)
    requires Inv(store, h) && Clocked(h + [Sighting(addr, peer, at)])
    requires h != [] ==> Remembers(store, h, Last(h).at)
    requires |Addresses(h + [Sighting(addr, peer, at)])| <= MAX_TRACKED
    ensures Remembers(Observed(store, addr, peer, at), h + [Sighting(addr, peer, at)], at)
  {
    hide Inv, Observed, Fresh, Addresses;
    var x := Sighting(addr, peer, at);
    var h' := h + [x];
    NoEviction(h, store, addr, peer, at);
    forall k | 0 <= k < |h'| && h'[k].Sighting? && at - h'[k].at <= FORGET_AFTER
      ensures Fresh(Observed(store, addr, peer, at), h'[k].addr, h'[k].at)
    {
      assert h'[|h|] == x && h'[k].at <= at;
      if k < |h| { assert h[k] == h'[k] && Last(h) == h'[|h| - 1] && Last(h).at <= at; }
      ObservedFresh(store, addr, peer, at, h'[k].addr, h'[k].at);
    }
  }

  lemma PrunedRemembers(store: Store, h: seq<Event>, at: real)
    requires Inv(store, h) && Clocked(h + [Prune(at)])
    requires h != [] ==> Remembers(store, h, Last(h).at)
    ensures Remembers(Pruned(store, at), h + [Prune(at)], at)
  {
    var h', store' := h + [Prune(at)], Pruned(store, at);
    PrunedShape(store, at);
    forall k | 0 <= k < |h'| && h'[k].Sighting? && at - h'[k].at <= FORGET_AFTER
      ensures Fresh(store', h'[k].addr, h'[k].at)
    {
      assert h[k] == h'[k] && Last(h) == h'[|h| - 1] && h'[|h|] == Prune(at) && Last(h).at <= at;
      assert Fresh(store, h[k].addr, h[k].at);
      var j :| 0 <= j < |store| && store[j].addr == h[k].addr && store[j].last >= h[k].at;
      assert store[j] in store';
    }
  }

  lemma {:induction false} AfterRemembers(h: seq<Event>)
    requires Clocked(h) && |Addresses(h)| <= MAX_TRACKED
    ensures h != [] ==> Remembers(After(h), h, Last(h).at)
  {
    if h != [] {
      var h0, x := Init(h), Last(h);
      assert h == h0 + [x] && forall k | 0 <= k < |h0| :: h0[k] == h[k];
      assert Addresses(h0) <= Addresses(h);
      SubsetSize(Addresses(h0), Addresses(h));
      AfterRemembers(h0);
      AfterKeeps(h0);
      match x
      case Sighting(addr, peer, at) => ObservedRemembers(After(h0), h0, addr, peer, at);
      case Prune(at) => PrunedRemembers(After(h0), h0, at);
    }
  }

  /** While at most 64 distinct addresses have been seen, an advertised address that was
      reached in the last fifteen minutes is not stale, so it is never replaced. */
  lemma LiveAddressStays(h: seq<Event>, k: nat, now: real)
    requires Clocked(h) && |Addresses(h)| <= MAX_TRACKED
    requires k < |h| && h[k].Sighting? && now - h[k].at <= STALE_AFTER && now >= Last(h).at
    ensures Reached(After(h), h[k].addr, now)
  {
    AfterRemembers(h);
    AfterKeeps(h);
    var store, a := After(h), h[k].addr;
    assert Fresh(store, a, h[k].at);
    var i :| 0 <= i < |store| && store[i].addr == a && store[i].last >= h[k].at;
    assert Index(store, a) == i;
  }

  // ------------------------------------------ what is tracked, and named

  /** What the history says of one address by itself: its sightings since it was last forgotten. */
  function Streak(h: seq<Event>, a: Addr): Option<Entry> {
    if h == [] then None
    else
      var before := Streak(Init(h), a);
      match Last(h)
      case Sighting(addr, peer, at) =>
        if addr != a then before
        else if before.None? then Some(Entry(a, at, at, 1, if peer == "" then [] else [peer]))
        else
          var e := before.value;
          var known := peer == "" || peer in e.peers || |e.peers| >= MAX_PEERS;
          Some(Entry(a, e.first, at, e.count + 1, if known then e.peers else e.peers + [peer]))
      case Prune(at) =>
        if before.Some? && at - before.value.last > FORGET_AFTER then None else before
  }

  function EntryOf(store: Store, a: Addr): Option<Entry> {
    var i := Index(store, a);
    if i < |store| then Some(store[i]) else None
  }

  lemma EntryIff(store: Store, a: Addr, e: Entry)
    requires Distinct(store)
    ensures EntryOf(store, a) == Some(e) <==> e in store && e.addr == a
  {
  }

  lemma NoEntryIff(store: Store, a: Addr)
    ensures EntryOf(store, a) == None <==> forall e | e in store :: e.addr != a
  {
  }

  lemma UpdateMembers(store: Store, i: nat, x: Entry)
    requires i < |store| && Distinct(store) && x.addr == store[i].addr
    ensures forall e :: e in store[i := x] <==> e == x || (e in store && e.addr != x.addr)
  {
    var s := store[i := x];
    assert s[i] == x;
    forall e | e in store && e.addr != x.addr ensures e in s {
      var k :| 0 <= k < |store| && store[k] == e;
      assert s[k] == e;
    }
  }

  lemma ObservedAlone(store: Store, addr: Addr, peer: string, now: real, a: Addr)
    requires Distinct(store) && Distinct(Observed(store, addr, peer, now))
    requires Index(store, addr) == |store| ==> |store| < MAX_TRACKED
    ensures var was := EntryOf(store, a);
            EntryOf(Observed(store, addr, peer, now), a)
            == if a != addr then was
                  else Some(Seen(was.GetOr(Entry(addr, now, now, 0, [])), peer, now))
  {
    hide Distinct, Index, Oldest, Seen;
    var i, store' := Index(store, addr), Observed(store, addr, peer, now);
    if i < |store| {
      SeenAddr(store[i], peer, now);
      UpdateMembers(store, i, Seen(store[i], peer, now));
      EntryIff(store, addr, store[i]);
    } else {
      SeenAddr(Entry(addr, now, now, 0, []), peer, now);
    }
    forall e ensures EntryOf(store', a) == Some(e) <==> e in store' && e.addr == a { EntryIff(store', a, e); }
    forall e ensures EntryOf(store, a) == Some(e) <==> e in store && e.addr == a { EntryIff(store, a, e); }
    NoEntryIff(store, a);
    NoEntryIff(store', a);
  }

  lemma PrunedAlone(store: Store, now: real, a: Addr)
    requires Distinct(store)
    ensures var was := EntryOf(store, a);
            EntryOf(Pruned(store, now), a)
            == if was.Some? && now - was.value.last > FORGET_AFTER then None else was
  {
    hide Distinct, Index;
    PrunedShape(store, now);
    var left := Pruned(store, now);
    forall e ensures EntryOf(left, a) == Some(e) <==> e in left && e.addr == a { EntryIff(left, a, e); }
    forall e ensures EntryOf(store, a) == Some(e) <==> e in store && e.addr == a { EntryIff(store, a, e); }
    NoEntryIff(store, a);
    NoEntryIff(left, a);
  }

  lemma SeenIsStreak(was: Option<Entry>, a: Addr, peer: string, now: real)
    requires was.Some? ==> was.value.addr == a
    ensures Seen(was.GetOr(Entry(a, now, now, 0, [])), peer, now)
            == if was.None? then Entry(a, now, now, 1, if peer == "" then [] else [peer])
               else
                 var e := was.value;
                 var known := peer == "" || peer in e.peers || |e.peers| >= MAX_PEERS;
                 Entry(a, e.first, now, e.count + 1, if known then e.peers else e.peers + [peer])
  {
    var none: seq<string> := [];
    assert none + [peer] == [peer];
  }

  /** While at most 64 distinct addresses have been seen, an address is tracked exactly as if it were the
      only one: its entry holds its sightings since it was last forgotten, all of them. */
  lemma {:induction false} TrackedAlone(h: seq<Event>, a: Addr)
    requires |Addresses(h)| <= MAX_TRACKED
    ensures EntryOf(After(h), a) == Streak(h, a)
  {
    hide Distinct, Observed, Pruned, Seen, Backed, EntryOf, Addresses;
    if h == [] {
      NoEntryIff(After(h), a);
    } else {
      var h0, x := Init(h), Last(h);
      assert h == h0 + [x];
      FewerAddresses(h0, x);
      TrackedAlone(h0, a);
      AfterKeeps(h0);
      AfterKeeps(h);
      match x
      case Sighting(addr, peer, at) =>
        NoEviction(h0, After(h0), addr, peer, at);
        ObservedAlone(After(h0), addr, peer, at, a);
        StreakAddr(h0, a);
        SeenIsStreak(Streak(h0, a), a, peer, at);
      case Prune(at) => PrunedAlone(After(h0), at, a);
    }
  }

  lemma {:induction false} StreakAddr(h: seq<Event>, a: Addr)
    ensures Streak(h, a).Some? ==> Streak(h, a).value.addr == a
  {
    if h != [] { StreakAddr(Init(h), a); }
  }

  lemma FewerAddresses(h: seq<Event>, x: Event)
    ensures |Addresses(h)| <= |Addresses(h + [x])|
  {
    assert forall k | 0 <= k < |h| :: (h + [x])[k] == h[k];
    SubsetSize(Addresses(h), Addresses(h + [x]));
  }

  /** Without a prune every sighting counts. */
  lemma {:induction false} StreakCountsAll(h: seq<Event>, a: Addr)
    requires forall i | 0 <= i < |h| :: h[i].Sighting?
    ensures Sightings(h, a) == match Streak(h, a) case None => 0 case Some(e) => e.count
  {
    if h != [] {
      assert forall i | 0 <= i < |Init(h)| :: Init(h)[i] == h[i];
      StreakCountsAll(Init(h), a);
    }
  }

  /** So an address that earned it is eligible: at least 20 sightings by at least two peers, five minutes
      apart, the last within fifteen, none of them forgotten. */
  lemma EarnedIsEligible(h: seq<Event>, a: Addr, adv: Addr, now: real)
    requires |Addresses(h)| <= MAX_TRACKED && a != adv && Streak(h, a).Some?
    requires var e := Streak(h, a).value;
             e.count >= 20 && |e.peers| >= 2 && e.last - e.first >= 300.0 && now - e.last <= 900.0
    ensures exists i :: 0 <= i < |After(h)| && After(h)[i].addr == a && Eligible(After(h)[i], adv, now)
  {
    TrackedAlone(h, a);
    StreakAddr(h, a);
    var i := Index(After(h), a);
    assert After(h)[i].addr == a;
  }

  /** The advertised address counts as reached if and only if it was sighted within fifteen minutes. */
  lemma ReachedIff(h: seq<Event>, adv: Addr, now: real)
    requires |Addresses(h)| <= MAX_TRACKED
    ensures Reached(After(h), adv, now) <==> Streak(h, adv).Some? && now - Streak(h, adv).value.last <= 900.0
  {
    TrackedAlone(h, adv);
  }
}
