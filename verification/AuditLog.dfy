/** The audit log as it is written: locked appends, retention trimming, the
    separately committed high-water mark and the one-time backfill. The admin
    log is the same chain with another genesis, three columns and no trimming. */
module AuditLog {
  import opened Common
  import opened AuditChain
  import RowEncoding

  datatype Policy = Policy(h: Hash, genesis: Text, maxRows: int, strict: bool)

  ghost predicate ValidPolicy(p: Policy) {
    |p.genesis| != DIGEST_LENGTH && p.genesis != [] && |p.genesis| < RowEncoding.PREFIX_LIMIT
  }

  datatype Entry = Entry(stamp: Option<real>, fields: seq<Option<Text>>)

  datatype Store = Store(rows: seq<Row>, nextId: nat, head: Option<nat>)

  /** False only for a column of 2^32 bytes or more, for which struct.pack raises. */
  predicate Storable(e: Entry) {
    |StampText(e.stamp)| < RowEncoding.PREFIX_LIMIT && RowEncoding.Fits(Texts(e.fields))
  }

  function Blank(id: nat, prev: Text, e: Entry, keyed: bool): Row {
    Row(id, e.stamp, e.fields, Some(prev), None, Some(if keyed then HMAC else SHA))
  }

  lemma BlankEncodable(id: nat, prev: Text, e: Entry, keyed: bool)
    requires Storable(e) && |prev| < RowEncoding.PREFIX_LIMIT
    ensures Encodable(CoveredBy(Blank(id, prev, e, keyed)))
  {
    var c := CoveredBy(Blank(id, prev, e, keyed));
    var list := FieldList(c);
    forall i | 0 <= i < |list| ensures |list[i]| < RowEncoding.PREFIX_LIMIT {
      if i >= 3 { assert list[i] == c.texts[i - 3]; }
    }
  }

  /** The row as inserted: its digest covers the previous hash and its own content. */
  function Sealed(p: Policy, id: nat, prev: Text, e: Entry, key: Option<Bytes>): (r: Row)
    requires Storable(e) && |prev| < RowEncoding.PREFIX_LIMIT
    ensures r.entry.Some? && |EntryOf(r)| == DIGEST_LENGTH && r.id == id && PrevOf(r) == prev
    ensures r.stamp == e.stamp && r.fields == e.fields
  {
    BlankEncodable(id, prev, e, Usable(key));
    var blank := Blank(id, prev, e, Usable(key));
    blank.(entry := Some(p.h(RowInput(blank, key))))
  }

  /** A row sealed with the vault key, or without one, passes the verifier that holds the key. */
  lemma SealedOk(p: Policy, id: nat, prev: Text, e: Entry, key: Option<Bytes>, vault: Bytes)
    requires Storable(e) && |prev| < RowEncoding.PREFIX_LIMIT
    requires vault != [] && (Usable(key) ==> key == Some(vault))
    ensures var r := Sealed(p, id, prev, e, key);
            RowOk(p.h, Some(vault), r) && (IsKeyed(r) <==> Usable(key))
  {
    BlankEncodable(id, prev, e, Usable(key));
    var blank := Blank(id, prev, e, Usable(key));
    assert CoveredBy(Sealed(p, id, prev, e, key)) == CoveredBy(blank);
    assert |HMAC| == 11 && |SHA| == 6;
  }

  /** Chain to the most recent row's hash, or to genesis. */
  function TailHash(p: Policy, rows: seq<Row>): Text {
    if rows == [] || EntryOf(rows[|rows| - 1]) == [] then p.genesis else EntryOf(rows[|rows| - 1])
  }

  /** DELETE ... WHERE id <= cutoff. */
  function KeepAbove(rows: seq<Row>, cutoff: int): seq<Row> {
    if rows == [] then []
    else (if rows[0].id <= cutoff then [] else [rows[0]]) + KeepAbove(rows[1..], cutoff)
  }

  function Trimmed(p: Policy, rows: seq<Row>): seq<Row> {
    var cutoff := LastId(rows) - p.maxRows;
    if p.maxRows > 0 && cutoff > 0 then KeepAbove(rows, cutoff) else rows
  }

  /** UPDATE ... WHERE last_id <= id, else INSERT, which fails when the row exists. */
  function Bumped(head: Option<nat>, id: nat): Option<nat> {
    if head.Some? && head.value > id then head else Some(id)
  }

  /** The backfill of a legacy table, rows re-sealed in id order. */
  function Backfilled(p: Policy, key: Option<Bytes>, prev: Text, rows: seq<Row>): (r: seq<Row>)
    requires |prev| < RowEncoding.PREFIX_LIMIT
    requires forall i | 0 <= i < |rows| :: Storable(EntryPart(rows[i]))
    ensures |r| == |rows|
    decreases |rows|
  {
    if rows == [] then []
    else
      var first := Sealed(p, rows[0].id, prev, EntryPart(rows[0]), key);
      [first] + Backfilled(p, key, EntryOf(first), rows[1..])
  }

  function EntryPart(r: Row): Entry { Entry(r.stamp, r.fields) }

  lemma {:induction false} BackfilledAppend(p: Policy, key: Option<Bytes>, prev: Text, rows: seq<Row>, last: Row)
    requires |prev| < RowEncoding.PREFIX_LIMIT
    requires forall i | 0 <= i < |rows| :: Storable(EntryPart(rows[i]))
    requires Storable(EntryPart(last))
    ensures var done := Backfilled(p, key, prev, rows);
            var prev' := if done == [] then prev else EntryOf(done[|done| - 1]);
            && |prev'| < RowEncoding.PREFIX_LIMIT
            && Backfilled(p, key, prev, rows + [last]) == done + [Sealed(p, last.id, prev', EntryPart(last), key)]
    decreases |rows|
  {
    hide Sealed, Storable;
    if rows == [] {
      assert rows + [last] == [last];
      assert Backfilled(p, key, EntryOf(Sealed(p, last.id, prev, EntryPart(last), key)), [last][1..]) == [];
    } else {
      var first := Sealed(p, rows[0].id, prev, EntryPart(rows[0]), key);
      BackfilledAppend(p, key, EntryOf(first), rows[1..], last);
      assert (rows + [last])[1..] == rows[1..] + [last];
      assert rows + [last] != [] && (rows + [last])[0] == rows[0];
    }
  }

  /** The backfill loop after k rows: those are re-sealed, the others untouched. */
  ghost predicate BackfilledTo(p: Policy, key: Option<Bytes>, legacy: seq<Row>, rows: seq<Row>, k: int, prev: Text) {
    && 0 <= k <= |legacy| == |rows| && rows[k..] == legacy[k..]
    && |p.genesis| < RowEncoding.PREFIX_LIMIT && |prev| < RowEncoding.PREFIX_LIMIT
    && (forall i | 0 <= i < |legacy| :: Storable(EntryPart(legacy[i])))
    && rows[..k] == Backfilled(p, key, p.genesis, legacy[..k])
    && prev == if k == 0 then p.genesis else EntryOf(rows[k - 1])
  }

  lemma BackfillStarts(p: Policy, key: Option<Bytes>, legacy: seq<Row>)
    requires |p.genesis| < RowEncoding.PREFIX_LIMIT && forall i | 0 <= i < |legacy| :: Storable(EntryPart(legacy[i]))
    ensures BackfilledTo(p, key, legacy, legacy, 0, p.genesis)
  {
    assert legacy[..0] == [];
  }

  lemma BackfillEnds(p: Policy, key: Option<Bytes>, legacy: seq<Row>, rows: seq<Row>, prev: Text)
    requires BackfilledTo(p, key, legacy, rows, |legacy|, prev)
    ensures rows == Backfilled(p, key, p.genesis, legacy) && rows[..|legacy|] == rows
  {
    assert legacy[..|legacy|] == legacy && rows[..|legacy|] == rows;
  }

  lemma BackfillOneMore(p: Policy, key: Option<Bytes>, legacy: seq<Row>, rows: seq<Row>, k: nat, prev: Text)
    requires BackfilledTo(p, key, legacy, rows, k, prev) && k < |legacy|
    ensures |rows| == |legacy| && |prev| < RowEncoding.PREFIX_LIMIT
    ensures rows[k] == legacy[k] && Storable(EntryPart(rows[k]))
    ensures var entry := Sealed(p, rows[k].id, prev, EntryPart(rows[k]), key);
            var rows' := rows[k := entry];
            BackfilledTo(p, key, legacy, rows', k + 1, EntryOf(entry)) && rows'[..k + 1] == rows[..k] + [entry]
  {
    hide Storable, Sealed, Backfilled, EntryOf, EntryPart;
    assert rows[k] == legacy[k] by { assert rows[k..][0] == legacy[k..][0]; }
    var entry := Sealed(p, rows[k].id, prev, EntryPart(rows[k]), key);
    var rows' := rows[k := entry];
    BackfilledAppend(p, key, p.genesis, legacy[..k], legacy[k]);
    assert legacy[..k + 1] == legacy[..k] + [legacy[k]];
    UpdateSplits(rows, k, entry);
    assert rows[k + 1..] == rows[k..][1..] && legacy[k + 1..] == legacy[k..][1..];
  }

  // ------------------------------------------------------------ the object

  datatype LogResult = Logged(id: nat) | AuditKeyUnavailable | FieldTooLong

  class Log {
    const policy: Policy
    var rows: seq<Row>
    var nextId: nat
    var head: Option<nat>

    constructor (policy: Policy, legacy: seq<Row>, nextId: nat)
      ensures this.policy == policy && State() == Store(legacy, nextId, None)
    {
      this.policy := policy;
      this.rows := legacy;
      this.nextId := nextId;
      this.head := None;
    }

    ghost function State(): Store
      reads this
    {
      Store(rows, nextId, head)
    }

    /** The part of log_activity that runs under the lock; the mark is bumped afterwards. */
    method Append(e: Entry, key: Option<Bytes>) returns (r: LogResult)
      requires |TailHash(policy, rows)| < RowEncoding.PREFIX_LIMIT
      modifies this
      ensures r.AuditKeyUnavailable? <==> !Usable(key) && policy.strict
      ensures r.Logged? <==> Storable(e) && (Usable(key) || !policy.strict)
      ensures !r.Logged? ==> State() == old(State())
      ensures r.Logged? ==>
                && r.id == old(nextId)
                && State() == Store(
                     Trimmed(policy, old(rows) + [Sealed(policy, old(nextId), TailHash(policy, old(rows)), e, key)]),
                     old(nextId) + 1, old(head))
    {
      hide Sealed, Storable, KeepAbove, Usable;
      if !Usable(key) && policy.strict {
        return AuditKeyUnavailable;
      }
      if !Storable(e) {
        return FieldTooLong;
      }
      var prev := TailHash(policy, rows);
      rows := rows + [Sealed(policy, nextId, prev, e, key)];
      var id := nextId;
      nextId := nextId + 1;
      if policy.maxRows > 0 {
        var cutoff := id - policy.maxRows;
        if cutoff > 0 {
          rows := KeepAbove(rows, cutoff);
        }
      }
      return Logged(id);
    }

    method BumpHead(id: nat)
      modifies this`head
      ensures head == Bumped(old(head), id)
    {
      if head.Some? && head.value <= id {
        head := Some(id);
      } else if head.None? {
        head := Some(id);
      }
    }

    /** Runs only while the table has rows and none is hashed yet. */
    method Backfill(key: Option<Bytes>)
      requires ValidPolicy(policy)
      requires forall i | 0 <= i < |rows| :: Storable(EntryPart(rows[i]))
      modifies this
      ensures old(rows) != [] && Hashed(old(rows)) == [] ==>
                && rows == Backfilled(policy, key, policy.genesis, old(rows))
                && head == Some(LastId(rows)) && nextId == old(nextId)
      ensures old(rows) == [] || Hashed(old(rows)) != [] ==> State() == old(State())
    {
      hide Hashed, Backfilled, Sealed, BackfilledTo, Storable, EntryPart;
      if rows == [] || Hashed(rows) != [] {
        return;
      }
      var legacy := rows;
      var prev := policy.genesis;
      var lastId := 0;
      BackfillStarts(policy, key, legacy);
      for k := 0 to |legacy|
        invariant BackfilledTo(policy, key, legacy, rows, k, prev)
        invariant |rows| == |legacy|
        invariant lastId == LastId(rows[..k])
        invariant head == old(head) && nextId == old(nextId)
      {
        BackfillOneMore(policy, key, legacy, rows, k, prev);
        var entry := Sealed(policy, rows[k].id, prev, EntryPart(rows[k]), key);
        rows := rows[k := entry];
        prev, lastId := EntryOf(entry), entry.id;
      }
      BackfillEnds(policy, key, legacy, rows, prev);
      head := Some(lastId);
    }

    method Verify(key: Option<Bytes>) returns (v: Verdict)
      ensures Judges(policy.h, key, Hashed(rows), head, v)
    {
      v := VerifyChain(policy.h, key, rows, head);
    }
  }

  // ----------------------------------------------------------- honest runs

  /** `pending` holds the ids whose append committed and whose mark has not been bumped yet. */
  datatype World = World(store: Store, pending: set<nat>)

  datatype Step =
    | Append(entry: Entry, keyed: bool)
    | Trim
    | Bump(id: nat)
    | LoseBump(id: nat)

  ghost predicate Ascending(rows: seq<Row>) {
    forall i, j | 0 <= i < j < |rows| :: rows[i].id < rows[j].id
  }

  ghost predicate AllHashed(rows: seq<Row>) { forall i | 0 <= i < |rows| :: rows[i].entry.Some? }

  ghost predicate AllOk(p: Policy, vault: Bytes, rows: seq<Row>) {
    forall i | 0 <= i < |rows| :: RowOk(p.h, Some(vault), rows[i])
  }

  /** What every honest step keeps. */
  ghost predicate Honest(p: Policy, vault: Bytes, w: World) {
    var rows := w.store.rows;
    && ValidPolicy(p) && vault != [] && w.store.nextId > LastId(rows)
    && Ascending(rows) && AllHashed(rows) && AllOk(p, vault, rows) && Linked(rows)
    && (forall i | 0 <= i < |rows| :: rows[i].id > 0)
    && (w.store.head.Some? ==> 0 < w.store.head.value <= LastId(rows))
    && (forall id | id in w.pending :: 0 < id <= LastId(rows))
  }

  /** One transaction of the writers; an append the code refuses leaves no trace. */
  ghost function Apply(p: Policy, vault: Bytes, w: World, step: Step): World
    requires Honest(p, vault, w)
  {
    TailHashShort(p, vault, w);
    var s := w.store;
    match step
    case Append(e, keyed) =>
      if !Storable(e) || (p.strict && !keyed) then w
      else
        var key := if keyed then Some(vault) else None;
        var row := Sealed(p, s.nextId, TailHash(p, s.rows), e, key);
        World(Store(s.rows + [row], s.nextId + 1, s.head), w.pending + {s.nextId})
    case Trim => w.(store := s.(rows := Trimmed(p, s.rows)))
    case Bump(id) => if id in w.pending then World(s.(head := Bumped(s.head, id)), w.pending - {id}) else w
    case LoseBump(id) => w.(pending := w.pending - {id})
  }

  lemma TailHashShort(p: Policy, vault: Bytes, w: World)
    requires Honest(p, vault, w)
    ensures |TailHash(p, w.store.rows)| < RowEncoding.PREFIX_LIMIT
    ensures w.store.rows != [] ==> TailHash(p, w.store.rows) == EntryOf(w.store.rows[|w.store.rows| - 1])
  {
    var rows := w.store.rows;
    if rows != [] { assert RowOk(p.h, Some(vault), rows[|rows| - 1]); }
  }

  lemma HonestExtended(p: Policy, vault: Bytes, w: World, row: Row)
    requires Honest(p, vault, w)
    requires row.id == w.store.nextId && row.entry.Some? && RowOk(p.h, Some(vault), row)
    requires w.store.rows != [] ==> PrevOf(row) == EntryOf(w.store.rows[|w.store.rows| - 1])
    ensures Honest(p, vault, World(Store(w.store.rows + [row], row.id + 1, w.store.head), w.pending + {row.id}))
  {
    hide RowOk, ValidPolicy, PrevOf, EntryOf;
    var rows := w.store.rows;
    var rows' := rows + [row];
    assert rows'[|rows|] == row && forall i | 0 <= i < |rows| :: rows'[i] == rows[i];
    forall i, j | 0 <= i < j < |rows'| ensures rows'[i].id < rows'[j].id {
      if j == |rows| { assert rows[i].id <= LastId(rows); }
    }
  }

  lemma ApplyAppend(p: Policy, vault: Bytes, w: World, e: Entry, keyed: bool)
    requires Honest(p, vault, w)
    ensures Honest(p, vault, Apply(p, vault, w, Append(e, keyed)))
    ensures var rows, rows' := w.store.rows, Apply(p, vault, w, Append(e, keyed)).store.rows;
            if Storable(e) && (keyed || !p.strict) then
              && |rows'| == |rows| + 1 && rows' == rows + [rows'[|rows|]]
              && var row := rows'[|rows|];
                 && row.id == w.store.nextId && row.stamp == e.stamp && row.fields == e.fields
                 && (IsKeyed(row) <==> keyed) && (rows == [] ==> PrevOf(row) == p.genesis)
            else Apply(p, vault, w, Append(e, keyed)) == w
  {
    var s := w.store;
    TailHashShort(p, vault, w);
    if Storable(e) && (keyed || !p.strict) {
      var key := if keyed then Some(vault) else None;
      var prev := TailHash(p, s.rows);
      var row := Sealed(p, s.nextId, prev, e, key);
      SealedOk(p, s.nextId, prev, e, key, vault);
      HonestExtended(p, vault, w, row);
      hide Sealed, RowOk, Storable, IsKeyed, Honest, TailHash;
      assert (s.rows + [row])[|s.rows|] == row;
    }
  }

  lemma {:induction false} KeepAboveIsSuffix(rows: seq<Row>, cutoff: int) returns (t: nat)
    requires Ascending(rows)
    ensures t <= |rows| && KeepAbove(rows, cutoff) == rows[t..]
    ensures forall i | t <= i < |rows| :: rows[i].id > cutoff
    ensures forall i | 0 <= i < t :: rows[i].id <= cutoff
    ensures t == |rows| ==> LastId(rows) <= cutoff || rows == []
    decreases |rows|
  {
    if rows == [] {
      t := 0;
    } else {
      hide Ascending, KeepAbove, LastId;
      var rest := rows[1..];
      AscendingTail(rows);
      if rows[0].id <= cutoff {
        t := KeepAboveIsSuffix(rest, cutoff);
        DropFirst(rows, cutoff);
        TailOfTail(rows, t, cutoff);
        forall i | 0 <= i < t + 1 ensures rows[i].id <= cutoff { if i > 0 { assert rows[i] == rest[i - 1]; } }
        t := t + 1;
      } else {
        NothingDropped(rows, cutoff);
        t := 0;
      }
    }
  }

  lemma TailOfTail(rows: seq<Row>, t: nat, cutoff: int)
    requires rows != [] && t <= |rows[1..]| && forall i | t <= i < |rows[1..]| :: rows[1..][i].id > cutoff
    ensures rows[1..][t..] == rows[t + 1..] && LastId(rows[1..]) == if |rows| == 1 then 0 else LastId(rows)
    ensures forall i | t + 1 <= i < |rows| :: rows[i].id > cutoff
  {
    forall i | t + 1 <= i < |rows| ensures rows[i].id > cutoff { assert rows[i] == rows[1..][i - 1]; }
  }

  lemma AscendingTail(rows: seq<Row>)
    requires Ascending(rows) && rows != []
    ensures Ascending(rows[1..]) && forall i | 0 <= i < |rows| :: rows[i].id >= rows[0].id
  {
    var rest := rows[1..];
    assert forall i | 0 <= i < |rest| :: rest[i] == rows[i + 1];
  }

  lemma DropFirst(rows: seq<Row>, cutoff: int)
    requires rows != [] && rows[0].id <= cutoff
    ensures KeepAbove(rows, cutoff) == KeepAbove(rows[1..], cutoff)
  {
  }

  lemma {:induction false} NothingDropped(rows: seq<Row>, cutoff: int)
    requires forall i | 0 <= i < |rows| :: rows[i].id > cutoff
    ensures KeepAbove(rows, cutoff) == rows
  {
    if rows != [] {
      NothingDropped(rows[1..], cutoff);
      assert rows == [rows[0]] + rows[1..];
    }
  }

  lemma {:induction false} AscendingSpan(rows: seq<Row>, lo: int)
    requires Ascending(rows) && forall i | 0 <= i < |rows| :: rows[i].id > lo
    ensures rows != [] ==> |rows| <= LastId(rows) - lo
  {
    if |rows| > 1 {
      var init := rows[..|rows| - 1];
      AscendingSpan(init, lo);
      assert LastId(init) == rows[|rows| - 2].id < LastId(rows);
    }
  }

  /** Retention keeps a suffix, never the last row's loss, and at most `maxRows` rows. */
  lemma TrimKeepsNewest(p: Policy, rows: seq<Row>) returns (t: nat)
    requires Ascending(rows)
    ensures t <= |rows| && Trimmed(p, rows) == rows[t..]
    ensures LastId(Trimmed(p, rows)) == LastId(rows)
    ensures p.maxRows > 0 && (forall i | 0 <= i < |rows| :: rows[i].id > 0) ==> |Trimmed(p, rows)| <= p.maxRows
    ensures forall i | 0 <= i < t :: p.maxRows > 0 && rows[i].id <= LastId(rows) - p.maxRows
  {
    var cutoff := LastId(rows) - p.maxRows;
    t := 0;
    if p.maxRows > 0 && cutoff > 0 {
      t := KeepAboveIsSuffix(rows, cutoff);
      AscendingSpan(rows[t..], cutoff);
    } else if forall i | 0 <= i < |rows| :: rows[i].id > 0 {
      AscendingSpan(rows, 0);
    }
  }

  lemma ApplyTrim(p: Policy, vault: Bytes, w: World)
    requires Honest(p, vault, w)
    ensures Honest(p, vault, Apply(p, vault, w, Trim))
    ensures p.maxRows > 0 ==> |Apply(p, vault, w, Trim).store.rows| <= p.maxRows
    ensures exists t :: 0 <= t <= |w.store.rows| && Apply(p, vault, w, Trim).store.rows == w.store.rows[t..]
  {
    hide RowOk, KeepAbove, Trimmed, ValidPolicy, PrevOf, EntryOf;
    var t := TrimKeepsNewest(p, w.store.rows);
    var rows' := w.store.rows[t..];
    assert forall i | 0 <= i < |rows'| :: rows'[i] == w.store.rows[t + i];
    assert Apply(p, vault, w, Trim).store.rows == rows';
  }

  /** Every step keeps the invariant; the mark never moves back. */
  lemma ApplyKeepsHonest(p: Policy, vault: Bytes, w: World, step: Step)
    requires Honest(p, vault, w)
    ensures Honest(p, vault, Apply(p, vault, w, step))
    ensures w.store.head.Some? ==>
              Apply(p, vault, w, step).store.head.Some?
              && w.store.head.value <= Apply(p, vault, w, step).store.head.value
  {
    match step
    case Append(e, keyed) => ApplyAppend(p, vault, w, e, keyed);
    case Trim => ApplyTrim(p, vault, w);
    case Bump(_) => hide AllOk, Linked, AllHashed, Ascending;
    case LoseBump(_) => hide AllOk, Linked, AllHashed, Ascending;
  }

  /** What the class commits under its lock is an append step and then a trim step, so
      the runs below, which let other steps in between, cover every run of the class. */
  lemma LockedAppendIsTwoSteps(p: Policy, vault: Bytes, w: World, e: Entry, keyed: bool)
    requires Honest(p, vault, w) && Storable(e) && (keyed || !p.strict)
    requires |TailHash(p, w.store.rows)| < RowEncoding.PREFIX_LIMIT
    ensures Honest(p, vault, Apply(p, vault, w, Append(e, keyed)))
    ensures var s, key := w.store, if keyed then Some(vault) else None;
            Apply(p, vault, Apply(p, vault, w, Append(e, keyed)), Trim).store
            == Store(Trimmed(p, s.rows + [Sealed(p, s.nextId, TailHash(p, s.rows), e, key)]), s.nextId + 1, s.head)
  {
    hide Honest, Sealed, Storable, Trimmed, TailHash;
    ApplyKeepsHonest(p, vault, w, Append(e, keyed));
  }

  ghost function Run(p: Policy, vault: Bytes, w: World, steps: seq<Step>): (w': World)
    requires Honest(p, vault, w)
    ensures Honest(p, vault, w')
    decreases |steps|
  {
    if steps == [] then w
    else
      ApplyKeepsHonest(p, vault, w, steps[0]);
      Run(p, vault, Apply(p, vault, w, steps[0]), steps[1..])
  }

  /** The mark never decreases over a run and never passes the highest retained id. */
  lemma {:induction false} MarkOverRun(p: Policy, vault: Bytes, w: World, steps: seq<Step>)
    requires Honest(p, vault, w)
    ensures var w' := Run(p, vault, w, steps);
            && (w.store.head.Some? ==> w'.store.head.Some? && w.store.head.value <= w'.store.head.value)
            && !TailCut(w'.store.rows, w'.store.head)
    decreases |steps|
  {
    hide Honest;
    NoFalseAlarm(p, vault, Run(p, vault, w, steps));
    if steps != [] {
      ApplyKeepsHonest(p, vault, w, steps[0]);
      MarkOverRun(p, vault, Apply(p, vault, w, steps[0]), steps[1..]);
    }
  }

  lemma NoFalseAlarm(p: Policy, vault: Bytes, w: World)
    requires Honest(p, vault, w)
    ensures !TailCut(w.store.rows, w.store.head) && Hashed(w.store.rows) == w.store.rows
  {
    AllHashedFilter(w.store.rows);
  }

  lemma {:induction false} AllHashedFilter(rows: seq<Row>)
    requires AllHashed(rows)
    ensures Hashed(rows) == rows
  {
    if rows != [] {
      AllHashedFilter(rows[1..]);
      assert rows == [rows[0]] + rows[1..];
    }
  }

  ghost predicate Verifies(p: Policy, vault: Bytes, s: Store) {
    Accepted(p.h, Some(vault), Hashed(s.rows)) && !TailCut(Hashed(s.rows), s.head)
  }

  /** In any reachable state the verifier answers ok exactly when no retained
      unkeyed row follows a keyed one. */
  lemma HonestVerdict(p: Policy, vault: Bytes, w: World)
    requires Honest(p, vault, w)
    ensures Verifies(p, vault, w.store) <==> NoDowngrade(w.store.rows)
  {
    NoFalseAlarm(p, vault, w);
  }

  /** The key, once it resolved for an append, resolves for every later one. */
  ghost predicate KeyStays(steps: seq<Step>, seen: bool) {
    steps != [] ==>
      && (steps[0].Append? && seen ==> steps[0].keyed)
      && KeyStays(steps[1..], seen || (steps[0].Append? && steps[0].keyed))
  }

  ghost predicate KeyedSoFar(rows: seq<Row>, seen: bool) { NoDowngrade(rows) && (NoneKeyed(rows) || seen) }

  lemma KeyedSoFarAppend(rows: seq<Row>, row: Row, seen: bool)
    requires KeyedSoFar(rows, seen) && (seen ==> IsKeyed(row))
    ensures KeyedSoFar(rows + [row], seen || IsKeyed(row))
  {
    hide IsKeyed;
    var rows' := rows + [row];
    assert forall i | 0 <= i < |rows| :: rows'[i] == rows[i];
    if !seen && !IsKeyed(row) { assert NoneKeyed(rows'); }
  }

  lemma KeyedSoFarSuffix(rows: seq<Row>, t: nat, seen: bool)
    requires t <= |rows| && KeyedSoFar(rows, seen)
    ensures KeyedSoFar(rows[t..], seen)
  {
    hide IsKeyed;
    assert forall i | 0 <= i < |rows| - t :: rows[t..][i] == rows[t + i];
  }

  lemma NoDowngradeStep(p: Policy, vault: Bytes, w: World, step: Step, seen: bool)
    requires Honest(p, vault, w)
    requires KeyedSoFar(w.store.rows, seen)
    requires (p.strict && step.Append?) || (step.Append? && seen ==> step.keyed)
    ensures KeyedSoFar(Apply(p, vault, w, step).store.rows, seen || (step.Append? && step.keyed))
  {
    var rows, rows' := w.store.rows, Apply(p, vault, w, step).store.rows;
    match step
    case Append(e, keyed) =>
      ApplyAppend(p, vault, w, e, keyed);
      hide Apply, Honest, IsKeyed;
      if rows' != rows {
        KeyedSoFarAppend(rows, rows'[|rows|], seen);
      }
    case Trim =>
      ApplyTrim(p, vault, w);
      hide Apply, Honest, KeyedSoFar;
      var t :| 0 <= t <= |rows| && rows' == rows[t..];
      KeyedSoFarSuffix(rows, t, seen);
    case Bump(_) => hide Honest, KeyedSoFar;
    case LoseBump(_) => hide Honest, KeyedSoFar;
  }

  lemma {:induction false} KeyedSoFarOverRun(p: Policy, vault: Bytes, w: World, steps: seq<Step>, seen: bool)
    requires Honest(p, vault, w) && KeyedSoFar(w.store.rows, seen)
    requires p.strict || KeyStays(steps, seen)
    ensures NoDowngrade(Run(p, vault, w, steps).store.rows)
    decreases |steps|
  {
    hide Honest, Apply;
    if steps != [] {
      ApplyKeepsHonest(p, vault, w, steps[0]);
      NoDowngradeStep(p, vault, w, steps[0], seen);
      KeyedSoFarOverRun(p, vault, Apply(p, vault, w, steps[0]), steps[1..],
                        seen || (steps[0].Append? && steps[0].keyed));
    }
  }

  // -------------------------------------------------- starting from legacy

  ghost predicate Legacy(rows: seq<Row>) {
    && Ascending(rows)
    && (forall i | 0 <= i < |rows| :: rows[i].id > 0 && rows[i].entry.None? && Storable(EntryPart(rows[i])))
  }

  /** The world right after init_db: a backfilled legacy table and its seeded mark. */
  ghost function Start(p: Policy, vault: Bytes, legacy: seq<Row>, nextId: nat, keyed: bool): World
    requires ValidPolicy(p) && Legacy(legacy)
  {
    var rows := Backfilled(p, if keyed then Some(vault) else None, p.genesis, legacy);
    World(Store(rows, nextId, if legacy == [] then None else Some(LastId(rows))), {})
  }

  lemma {:induction false} BackfilledChain(p: Policy, vault: Bytes, keyed: bool, prev: Text, rows: seq<Row>)
    requires vault != [] && |prev| < RowEncoding.PREFIX_LIMIT
    requires forall i | 0 <= i < |rows| :: Storable(EntryPart(rows[i]))
    ensures var done := Backfilled(p, if keyed then Some(vault) else None, prev, rows);
            && AllHashed(done) && AllOk(p, vault, done) && Linked(done)
            && (forall i | 0 <= i < |rows| :: done[i].id == rows[i].id && (IsKeyed(done[i]) <==> keyed))
            && (forall i | 0 <= i < |rows| :: done[i].stamp == rows[i].stamp && done[i].fields == rows[i].fields)
            && (rows != [] ==> PrevOf(done[0]) == prev)
    decreases |rows|
  {
    hide RowOk, Sealed, Storable, IsKeyed, PrevOf, EntryOf;
    if rows != [] {
      var key := if keyed then Some(vault) else None;
      assert Usable(key) <==> keyed;
      var first := Sealed(p, rows[0].id, prev, EntryPart(rows[0]), key);
      SealedOk(p, rows[0].id, prev, EntryPart(rows[0]), key, vault);
      BackfilledChain(p, vault, keyed, EntryOf(first), rows[1..]);
      var rest := Backfilled(p, key, EntryOf(first), rows[1..]);
      ChainGrows(p, vault, first, rest);
      forall i | 0 < i < |rows|
        ensures ([first] + rest)[i].id == rows[i].id && (IsKeyed(([first] + rest)[i]) <==> keyed)
        ensures ([first] + rest)[i].stamp == rows[i].stamp && ([first] + rest)[i].fields == rows[i].fields
      {
        assert ([first] + rest)[i] == rest[i - 1] && rows[i] == rows[1..][i - 1];
      }
    }
  }

  lemma ChainGrows(p: Policy, vault: Bytes, first: Row, rest: seq<Row>)
    requires AllHashed(rest) && AllOk(p, vault, rest) && Linked(rest)
    requires first.entry.Some? && RowOk(p.h, Some(vault), first) && (rest != [] ==> PrevOf(rest[0]) == EntryOf(first))
    ensures AllHashed([first] + rest) && AllOk(p, vault, [first] + rest) && Linked([first] + rest)
  {
    hide RowOk, PrevOf, EntryOf;
    var done := [first] + rest;
    assert forall i | 0 < i < |done| :: done[i] == rest[i - 1];
    forall i | 0 < i < |done| ensures PrevOf(done[i]) == EntryOf(done[i - 1]) {
      if i > 1 { assert PrevOf(rest[i - 1]) == EntryOf(rest[i - 2]); }
    }
  }

  lemma StartIsHonest(p: Policy, vault: Bytes, legacy: seq<Row>, nextId: nat, keyed: bool)
    requires ValidPolicy(p) && Legacy(legacy) && vault != [] && nextId > LastId(legacy)
    ensures var w := Start(p, vault, legacy, nextId, keyed);
            Honest(p, vault, w) && KeyedSoFar(w.store.rows, keyed && legacy != [])
  {
    hide Sealed, Storable, Backfilled, IsKeyed, AllOk, Linked, EntryPart;
    BackfilledChain(p, vault, keyed, p.genesis, legacy);
    var w := Start(p, vault, legacy, nextId, keyed);
    var rows := w.store.rows;
    assert |rows| == |legacy|;
    assert forall i | 0 <= i < |rows| :: rows[i].id == legacy[i].id;
  }

  /** From any unhashed legacy table, after the backfill and any interleaving of
      appends, trims and late or lost bumps, the log verifies; in strict mode
      whatever happens to the key, otherwise while a key once seen stays. */
  lemma HonestRunVerifies(p: Policy, vault: Bytes, legacy: seq<Row>, nextId: nat, keyed: bool, steps: seq<Step>)
    requires ValidPolicy(p) && Legacy(legacy) && vault != [] && nextId > LastId(legacy)
    requires p.strict || KeyStays(steps, keyed && legacy != [])
    ensures var w := Start(p, vault, legacy, nextId, keyed);
            Honest(p, vault, w) && Verifies(p, vault, Run(p, vault, w, steps).store)
  {
    hide Honest, Start, Verifies;
    var w := Start(p, vault, legacy, nextId, keyed);
    StartIsHonest(p, vault, legacy, nextId, keyed);
    KeyedSoFarOverRun(p, vault, w, steps, keyed && legacy != []);
    HonestVerdict(p, vault, Run(p, vault, w, steps));
  }

  /** Outside strict mode the condition is needed: a key lost after use makes an honest log fail. */
  lemma LostKeyBreaksVerification(p: Policy, vault: Bytes, e: Entry)
    requires ValidPolicy(p) && !p.strict && vault != [] && Storable(e)
    ensures var w := Start(p, vault, [], 1, true);
            Honest(p, vault, w) && !Verifies(p, vault, Run(p, vault, w, [Append(e, true), Append(e, false)]).store)
  {
    var w := Start(p, vault, [], 1, true);
    StartIsHonest(p, vault, [], 1, true);
    var a, b := Append(e, true), Append(e, false);
    var w1 := Apply(p, vault, w, a);
    ApplyAppend(p, vault, w, e, true);
    TailHashShort(p, vault, w1);
    var w2 := Apply(p, vault, w1, b);
    ApplyAppend(p, vault, w1, e, false);
    hide Apply, Honest, IsKeyed, Storable;
    assert [a, b][1..] == [b] && [b][1..] == [];
    assert Run(p, vault, w1, [b]) == Run(p, vault, w2, []);
    assert IsKeyed(w2.store.rows[0]) && !IsKeyed(w2.store.rows[1]);
    HonestVerdict(p, vault, w2);
  }

  /** Once the mark is current, any verdict on a log with a non-empty tail removed is not
      ok, and it reports the recorded mark exactly when no downgrade is retained. */
  lemma TailRemovalIsReported(p: Policy, vault: Bytes, w: World, keep: nat, v: Verdict)
    requires Honest(p, vault, w) && keep < |w.store.rows|
    requires w.store.head == Some(LastId(w.store.rows))
    requires Judges(p.h, Some(vault), Hashed(w.store.rows[..keep]), w.store.head, v)
    ensures !v.ok
    ensures v.recordedHead == w.store.head <==> NoDowngrade(w.store.rows[..keep])
    ensures v.recordedHead.Some? ==> v.brokenAt == Some(LastId(w.store.rows[..keep]))
  {
    hide RowOk, ValidPolicy, BreaksAt, IsKeyed, PrevOf, EntryOf;
    var rows := w.store.rows;
    var cut := rows[..keep];
    assert forall i | 0 <= i < keep :: cut[i] == rows[i];
    AllHashedFilter(cut);
    if keep > 0 { assert rows[keep - 1].id < rows[|rows| - 1].id; }
  }

  /** The bump that follows the newest append makes the mark current, in whatever order bumps land. */
  lemma NewestBumpMakesCurrent(p: Policy, vault: Bytes, w: World, id: nat)
    requires Honest(p, vault, w) && id in w.pending && id == LastId(w.store.rows)
    ensures Apply(p, vault, w, Bump(id)).store.head == Some(LastId(w.store.rows))
  {
  }
}
