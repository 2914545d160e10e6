/** The tamper-evident audit chain: what one row's digest covers, what the
    verifier accepts, and what acceptance proves about two logs.

    SHA-256 and HMAC (RFC 2104, section 2) are one arbitrary function from hash
    inputs to 64-character digests. Nothing is assumed about it: a theorem that
    needs collision resistance instead exhibits the two colliding inputs. */
module AuditChain {
  import opened Common
  import Decimal
  import RowEncoding

  /** A TEXT column, as its UTF-8 bytes. */
  type Text = Bytes

  const DIGEST_LENGTH := 64
  type HexDigest = s: Text | |s| == DIGEST_LENGTH witness seq(64, _ => 0)

  datatype HashInput = Plain(payload: Bytes) | Keyed(key: Bytes, payload: Bytes)
  type Hash = HashInput -> HexDigest

  datatype Row = Row(
    id: nat,
    stamp: Option<real>,
    fields: seq<Option<Text>>,
    prev: Option<Text>,
    entry: Option<Text>,
    algo: Option<Text>)

  const HMAC: Text := Ascii("hmac-sha256")
  const SHA: Text := Ascii("sha256")

  // ---------------------------------------------------------------- one row

  /** Half-way cases go to the even neighbour, as "%.6f" rounds. */
  function RoundHalfEven(x: real): int {
    var f := x.Floor;
    var rest := x - f as real;
    if rest < 0.5 then f else if rest > 0.5 then f + 1 else if f % 2 == 0 then f else f + 1
  }

  function Micros(t: real): nat {
    var magnitude := if t < 0.0 then -t else t;
    var m := RoundHalfEven(magnitude * 1000000.0);
    assert magnitude * 1000000.0 >= 0.0;
    m
  }

  /** "%.6f" % float(timestamp or 0.0), as characters. */
  function StampString(stamp: Option<real>): string {
    var t := stamp.GetOr(0.0);
    var m := Micros(t);
    (if t < 0.0 then "-" else "")
    + Decimal.ToString(m / 1000000) + "." + Decimal.Padded(m % 1000000, 6)
  }

  function StampText(stamp: Option<real>): Text { Ascii(StampString(stamp)) }

  function AlgoOf(r: Row): Text {
    if r.algo.None? || r.algo.value == [] then SHA else r.algo.value
  }

  function PrevOf(r: Row): Text { r.prev.GetOr([]) }

  function EntryOf(r: Row): Text { r.entry.GetOr([]) }

  predicate IsKeyed(r: Row) { AlgoOf(r) == HMAC }

  predicate Usable(key: Option<Bytes>) { key.Some? && key.value != [] }

  /** Everything the digest covers. */
  datatype Content = Content(algo: Text, prev: Text, stamp: Text, texts: seq<Text>)

  function FieldList(c: Content): seq<Bytes> { [c.algo, c.prev, c.stamp] + c.texts }

  function Texts(fields: seq<Option<Text>>): seq<Text> {
    if fields == [] then [] else [fields[0].GetOr([])] + Texts(fields[1..])
  }

  function CoveredBy(r: Row): Content {
    Content(AlgoOf(r), PrevOf(r), StampText(r.stamp), Texts(r.fields))
  }

  /** False only for a column of 2^32 bytes or more, which SQLite does not store. */
  predicate Encodable(c: Content) { RowEncoding.Fits(FieldList(c)) }

  function DigestInput(c: Content, key: Option<Bytes>): HashInput
    requires Encodable(c)
  {
    var payload := RowEncoding.Encode(FieldList(c));
    if c.algo == HMAC && Usable(key) then Keyed(key.value, payload) else Plain(payload)
  }

  function RowInput(r: Row, key: Option<Bytes>): HashInput
    requires Encodable(CoveredBy(r))
  {
    DigestInput(CoveredBy(r), key)
  }

  predicate RowOk(h: Hash, key: Option<Bytes>, r: Row) {
    && (IsKeyed(r) ==> Usable(key))
    && Encodable(CoveredBy(r)) && h(RowInput(r, key)) == EntryOf(r)
  }

  // ---------------------------------------------------------- whole chains

  ghost predicate Linked(rows: seq<Row>) {
    forall i | 0 < i < |rows| :: PrevOf(rows[i]) == EntryOf(rows[i - 1])
  }

  /** Once keyed, always keyed. */
  ghost predicate NoDowngrade(rows: seq<Row>) {
    forall i, j | 0 <= i < j < |rows| :: IsKeyed(rows[i]) ==> IsKeyed(rows[j])
  }

  ghost predicate Accepted(h: Hash, key: Option<Bytes>, rows: seq<Row>) {
    && (forall i | 0 <= i < |rows| :: RowOk(h, key, rows[i]))
    && Linked(rows)
    && NoDowngrade(rows)
  }

  /** WHERE entry_hash IS NOT NULL. */
  function Hashed(table: seq<Row>): (rows: seq<Row>)
    ensures forall i | 0 <= i < |rows| :: rows[i].entry.Some?
  {
    if table == [] then []
    else (if table[0].entry.Some? then [table[0]] else []) + Hashed(table[1..])
  }

  /** Every hashed row is walked, and no other. */
  lemma {:induction false} HashedMembers(table: seq<Row>)
    ensures forall r :: r in Hashed(table) <==> r in table && r.entry.Some?
  {
    if table != [] { HashedMembers(table[1..]); }
  }

  function LastId(rows: seq<Row>): nat { if rows == [] then 0 else rows[|rows| - 1].id }

  predicate TailCut(rows: seq<Row>, head: Option<nat>) { head.Some? && head.value > LastId(rows) }

  datatype Verdict = Verdict(ok: bool, checked: nat, brokenAt: Option<nat>, keyed: bool, recordedHead: Option<nat>)

  ghost predicate NoneKeyed(rows: seq<Row>) { forall i | 0 <= i < |rows| :: !IsKeyed(rows[i]) }

  ghost predicate AllKeyed(rows: seq<Row>) { forall i | 0 <= i < |rows| :: IsKeyed(rows[i]) }

  /** Row n is the first break: everything before it is accepted, it is not. */
  ghost predicate BreaksAt(h: Hash, key: Option<Bytes>, rows: seq<Row>, n: nat) {
    n < |rows| && Accepted(h, key, rows[..n]) && !Accepted(h, key, rows[..n + 1])
  }

  /** What the whole verdict says. */
  ghost predicate Judges(h: Hash, key: Option<Bytes>, rows: seq<Row>, head: Option<nat>, v: Verdict) {
    && (v.ok <==> Accepted(h, key, rows) && !TailCut(rows, head))
    && (v.ok <==> v.brokenAt.None?)
    && (v.recordedHead.Some? <==> Accepted(h, key, rows) && TailCut(rows, head))
    && (v.recordedHead.Some? ==> v.recordedHead == head && v.brokenAt == Some(LastId(rows)))
    && (Accepted(h, key, rows) ==> v.checked == |rows| && (v.keyed <==> rows != [] && AllKeyed(rows)))
    && (!Accepted(h, key, rows) ==>
          BreaksAt(h, key, rows, v.checked) && v.brokenAt == Some(rows[v.checked].id) && !v.keyed)
  }

  /** There is only one such verdict. */
  lemma OneVerdict(h: Hash, key: Option<Bytes>, rows: seq<Row>, head: Option<nat>, v: Verdict, w: Verdict)
    requires Judges(h, key, rows, head, v) && Judges(h, key, rows, head, w)
    ensures v == w
  {
    if !Accepted(h, key, rows) {
      FirstBreak(h, key, rows, v.checked, w.checked);
      FirstBreak(h, key, rows, w.checked, v.checked);
    }
  }

  lemma FirstBreak(h: Hash, key: Option<Bytes>, rows: seq<Row>, n: nat, m: nat)
    requires BreaksAt(h, key, rows, n) && BreaksAt(h, key, rows, m)
    ensures n >= m
  {
    if n < m { LongerRefused(h, key, rows, n + 1, m); }
  }

  lemma LongerRefused(h: Hash, key: Option<Bytes>, rows: seq<Row>, n: nat, m: nat)
    requires n <= m <= |rows| && !Accepted(h, key, rows[..n])
    ensures !Accepted(h, key, rows[..m])
  {
    PrefixAccepted(h, key, rows[..m], n);
    assert rows[..m][..n] == rows[..n];
  }

  /** The four tests the loop makes on row n. */
  ghost predicate Continues(h: Hash, key: Option<Bytes>, rows: seq<Row>, n: nat)
    requires n < |rows|
  {
    && (n > 0 ==> PrevOf(rows[n]) == EntryOf(rows[n - 1]))
    && (IsKeyed(rows[n]) || NoneKeyed(rows[..n]))
    && RowOk(h, key, rows[n])
  }

  lemma NothingChecked(h: Hash, key: Option<Bytes>, rows: seq<Row>)
    ensures Accepted(h, key, rows[..0]) && NoneKeyed(rows[..0]) && AllKeyed(rows[..0])
  {
  }

  lemma OneMoreRow(h: Hash, key: Option<Bytes>, rows: seq<Row>, n: nat)
    requires n < |rows| && Accepted(h, key, rows[..n])
    ensures Continues(h, key, rows, n) <==> Accepted(h, key, rows[..n + 1])
    ensures !Continues(h, key, rows, n) ==> BreaksAt(h, key, rows, n) && !Accepted(h, key, rows)
  {
    hide RowOk, IsKeyed, PrevOf, EntryOf;
    PrefixAccepted(h, key, rows, n + 1);
    var more, less := rows[..n + 1], rows[..n];
    assert more[n] == rows[n];
    assert forall i | 0 <= i < n :: more[i] == less[i];
    if n > 0 && PrevOf(rows[n]) != EntryOf(rows[n - 1]) {
      assert PrevOf(more[n]) != EntryOf(more[n - 1]);
    }
    if !IsKeyed(rows[n]) && !NoneKeyed(less) {
      var i :| 0 <= i < n && IsKeyed(less[i]);
      assert IsKeyed(more[i]) && !IsKeyed(more[n]);
    }
  }

  lemma OneMoreKeyed(rows: seq<Row>, n: nat)
    requires n < |rows|
    ensures NoneKeyed(rows[..n + 1]) <==> NoneKeyed(rows[..n]) && !IsKeyed(rows[n])
    ensures AllKeyed(rows[..n + 1]) <==> AllKeyed(rows[..n]) && IsKeyed(rows[n])
  {
    hide IsKeyed;
    assert rows[..n + 1] == rows[..n] + [rows[n]];
    assert rows[..n + 1][n] == rows[n];
    assert forall i | 0 <= i < n :: rows[..n + 1][i] == rows[..n][i];
  }

  /** The verifier loop, over one snapshot of the table and the high-water mark. */
  method VerifyChain(h: Hash, key: Option<Bytes>, table: seq<Row>, head: Option<nat>) returns (v: Verdict)
    ensures Judges(h, key, Hashed(table), head, v)
  {
    hide Accepted, BreaksAt, RowInput, PrevOf, IsKeyed, NoneKeyed, AllKeyed, Hashed, Encodable, CoveredBy, Usable;
    var rows := Hashed(table);
    NothingChecked(h, key, rows);
    var checked := 0;
    var expectedPrev: Option<Text> := None;
    var seenKeyed, allKeyed := false, true;
    while checked < |rows|
      invariant checked <= |rows|
      invariant Accepted(h, key, rows[..checked])
      invariant expectedPrev == if checked == 0 then None else rows[checked - 1].entry
      invariant seenKeyed <==> !NoneKeyed(rows[..checked])
      invariant allKeyed <==> AllKeyed(rows[..checked])
    {
      var r := rows[checked];
      OneMoreRow(h, key, rows, checked);
      OneMoreKeyed(rows, checked);
      if expectedPrev.Some? && PrevOf(r) != expectedPrev.value {
        return Verdict(false, checked, Some(r.id), false, None);
      }
      if IsKeyed(r) && !Usable(key) {
        return Verdict(false, checked, Some(r.id), false, None);
      }
      if !IsKeyed(r) {
        allKeyed := false;
        if seenKeyed {
          return Verdict(false, checked, Some(r.id), false, None);
        }
      } else {
        seenKeyed := true;
      }
      if !Encodable(CoveredBy(r)) || h(RowInput(r, key)) != EntryOf(r) {
        return Verdict(false, checked, Some(r.id), false, None);
      }
      expectedPrev := r.entry;
      checked := checked + 1;
    }
    assert rows[..checked] == rows;
    var keyed := checked > 0 && allKeyed;
    if TailCut(rows, head) {
      return Verdict(false, checked, Some(LastId(rows)), keyed, head);
    }
    return Verdict(true, checked, None, keyed, None);
  }

  /** Any consecutive stretch of an accepted chain is accepted: trimming the front is no break. */
  lemma AcceptedStretch(h: Hash, key: Option<Bytes>, rows: seq<Row>, lo: nat, hi: nat)
    requires lo <= hi <= |rows| && Accepted(h, key, rows)
    ensures Accepted(h, key, rows[lo..hi])
  {
    var part := rows[lo..hi];
    forall i | 0 <= i < |part| ensures part[i] == rows[lo + i] {}
  }

  lemma PrefixAccepted(h: Hash, key: Option<Bytes>, rows: seq<Row>, n: nat)
    requires n <= |rows|
    ensures Accepted(h, key, rows) ==> Accepted(h, key, rows[..n])
  {
    assert rows[0..n] == rows[..n];
    if Accepted(h, key, rows) {
      AcceptedStretch(h, key, rows, 0, n);
    }
  }

  // ------------------------------------------------------- tamper evidence

  /** Two different hash inputs, one from each log, with one digest. */
  ghost predicate Collision(h: Hash, key: Option<Bytes>, a: seq<Row>, b: seq<Row>) {
    exists i, j :: 0 <= i < |a| && 0 <= j < |b| && CollidingPair(h, key, a[i], b[j])
  }

  ghost predicate CollidingPair(h: Hash, key: Option<Bytes>, r: Row, s: Row) {
    && Encodable(CoveredBy(r)) && Encodable(CoveredBy(s))
    && RowInput(r, key) != RowInput(s, key) && h(RowInput(r, key)) == h(RowInput(s, key))
  }

  function FromTail(rows: seq<Row>, k: nat): Row
    requires 1 <= k <= |rows|
  {
    rows[|rows| - k]
  }

  ghost predicate AgreeFromTail(a: seq<Row>, b: seq<Row>) {
    forall k | 1 <= k <= |a| && k <= |b| :: SameChained(FromTail(a, k), FromTail(b, k))
  }

  /** The stored columns agree, a null read as empty (and as plain SHA-256 for the algorithm). */
  ghost predicate SameColumns(r: Row, s: Row) {
    && AlgoOf(r) == AlgoOf(s) && r.prev.GetOr([]) == s.prev.GetOr([]) && StampText(r.stamp) == StampText(s.stamp)
    && |r.fields| == |s.fields| && forall i | 0 <= i < |r.fields| :: r.fields[i].GetOr([]) == s.fields[i].GetOr([])
  }

  /** The rows agree on the digest and on every column. */
  ghost predicate SameChained(r: Row, s: Row) {
    SameColumns(r, s) && EntryOf(r) == EntryOf(s)
  }

  lemma {:induction false} TextsAt(fields: seq<Option<Text>>)
    ensures |Texts(fields)| == |fields|
    ensures forall i | 0 <= i < |fields| :: Texts(fields)[i] == fields[i].GetOr([])
  {
    if fields != [] { TextsAt(fields[1..]); }
  }

  /** What the digest covers is exactly the columns: none is left out, none runs into another. */
  lemma CoversEveryColumn(r: Row, s: Row)
    ensures CoveredBy(r) == CoveredBy(s) <==> SameColumns(r, s)
  {
    hide AlgoOf, StampText;
    TextsAt(r.fields);
    TextsAt(s.fields);
    if SameColumns(r, s) { assert Texts(r.fields) == Texts(s.fields); }
  }

  lemma SameInputSameRow(r: Row, s: Row, key: Option<Bytes>)
    requires Encodable(CoveredBy(r)) && Encodable(CoveredBy(s)) && RowInput(r, key) == RowInput(s, key)
    ensures CoveredBy(r) == CoveredBy(s) && SameColumns(r, s)
  {
    CoversEveryColumn(r, s);
    var c, d := CoveredBy(r), CoveredBy(s);
    RowEncoding.EncodeInjective(FieldList(c), FieldList(d));
    assert FieldList(c)[3..] == c.texts && FieldList(d)[3..] == d.texts;
    assert FieldList(c)[0] == c.algo && FieldList(c)[1] == c.prev && FieldList(c)[2] == c.stamp;
  }

  /** Two accepted logs with the same last digest agree row by row, counted from
      the tail, as far as the shorter one goes, unless a hash collision is at hand. */
  lemma {:induction false} TamperEvidence(h: Hash, key: Option<Bytes>, a: seq<Row>, b: seq<Row>)
    requires Accepted(h, key, a) && Accepted(h, key, b)
    requires a != [] && b != [] && EntryOf(a[|a| - 1]) == EntryOf(b[|b| - 1])
    ensures Collision(h, key, a, b) || AgreeFromTail(a, b)
    decreases |a|
  {
    hide Linked, NoDowngrade, CoveredBy, DigestInput, AlgoOf, SameColumns;
    var r, s := a[|a| - 1], b[|b| - 1];
    assert RowOk(h, key, r) && RowOk(h, key, s);
    if RowInput(r, key) != RowInput(s, key) {
      assert CollidingPair(h, key, a[|a| - 1], b[|b| - 1]);
    } else {
      SameInputSameRow(r, s, key);
      if |a| > 1 && |b| > 1 {
        var a', b' := a[..|a| - 1], b[..|b| - 1];
        SameTailBefore(h, key, a, b);
        TamperEvidence(h, key, a', b');
        OneRowFurther(h, key, a, b);
      } else {
        forall k | 1 <= k <= |a| && k <= |b| ensures SameChained(FromTail(a, k), FromTail(b, k)) {}
      }
    }
  }

  lemma SameTailBefore(h: Hash, key: Option<Bytes>, a: seq<Row>, b: seq<Row>)
    requires |a| > 1 && |b| > 1 && Accepted(h, key, a) && Accepted(h, key, b)
    requires SameChained(a[|a| - 1], b[|b| - 1])
    ensures Accepted(h, key, a[..|a| - 1]) && Accepted(h, key, b[..|b| - 1])
    ensures EntryOf(a[|a| - 2]) == EntryOf(b[|b| - 2])
  {
    PrefixAccepted(h, key, a, |a| - 1);
    PrefixAccepted(h, key, b, |b| - 1);
  }

  lemma OneRowFurther(h: Hash, key: Option<Bytes>, a: seq<Row>, b: seq<Row>)
    requires |a| > 1 && |b| > 1 && SameChained(a[|a| - 1], b[|b| - 1])
    requires var a', b' := a[..|a| - 1], b[..|b| - 1];
             Collision(h, key, a', b') || AgreeFromTail(a', b')
    ensures Collision(h, key, a, b) || AgreeFromTail(a, b)
  {
    hide CollidingPair, SameChained;
    var a', b' := a[..|a| - 1], b[..|b| - 1];
    if Collision(h, key, a', b') {
      var i, j :| 0 <= i < |a'| && 0 <= j < |b'| && CollidingPair(h, key, a'[i], b'[j]);
      assert a'[i] == a[i] && b'[j] == b[j];
    } else {
      forall k | 1 <= k <= |a| && k <= |b| ensures SameChained(FromTail(a, k), FromTail(b, k)) {
        if k > 1 {
          assert FromTail(a, k) == FromTail(a', k - 1) && FromTail(b, k) == FromTail(b', k - 1);
        }
      }
    }
  }

  /** Editing any column of any row, replacing or reordering rows, while keeping the tail digest is reported. */
  lemma EditIsReported(h: Hash, key: Option<Bytes>, log: seq<Row>, forged: seq<Row>, i: nat)
    requires Accepted(h, key, log) && |forged| == |log| && i < |log|
    requires EntryOf(forged[|log| - 1]) == EntryOf(log[|log| - 1])
    requires !SameColumns(forged[i], log[i])
    ensures !Accepted(h, key, forged) || Collision(h, key, log, forged)
  {
    hide RowOk, CollidingPair, Linked, NoDowngrade, AlgoOf, StampText;
    if Accepted(h, key, forged) {
      TamperEvidence(h, key, log, forged);
      var k := |log| - i;
      assert FromTail(log, k) == log[i] && FromTail(forged, k) == forged[i];
    }
  }

  /** A chain that starts at a genesis text shorter or longer than a digest never
      repeats a digest: the hash cannot run in a circle without a collision. */
  lemma {:induction false} DigestsDistinct(h: Hash, key: Option<Bytes>, full: seq<Row>, i: nat, j: nat)
    requires Accepted(h, key, full) && i < j < |full|
    requires |PrevOf(full[0])| != DIGEST_LENGTH
    ensures EntryOf(full[i]) != EntryOf(full[j]) || Collision(h, key, full, full)
  {
    if EntryOf(full[i]) == EntryOf(full[j]) {
      if RowInput(full[i], key) != RowInput(full[j], key) {
        assert CollidingPair(h, key, full[i], full[j]);
      } else {
        SameInputSameRow(full[i], full[j], key);
        assert PrevOf(full[j]) == EntryOf(full[j - 1]);
        assert RowOk(h, key, full[j - 1]);
        if i > 0 {
          DigestsDistinct(h, key, full, i - 1, j - 1);
        }
      }
    }
  }

  /** Deleting any interior run of retained rows is reported, however much of the
      front retention has already trimmed. */
  lemma DeletionIsReported(h: Hash, key: Option<Bytes>, full: seq<Row>, trimmed: nat, from: nat, upto: nat)
    requires Accepted(h, key, full) && trimmed < from < upto < |full|
    requires |PrevOf(full[0])| != DIGEST_LENGTH
    ensures Accepted(h, key, full[trimmed..])
    ensures !Accepted(h, key, full[trimmed..from] + full[upto..]) || Collision(h, key, full, full)
  {
    hide RowOk, NoDowngrade, PrevOf, EntryOf, CollidingPair;
    AcceptedStretch(h, key, full, trimmed, |full|);
    assert full[trimmed..|full|] == full[trimmed..];
    var cut := full[trimmed..from] + full[upto..];
    var seam := from - trimmed;
    if Accepted(h, key, cut) {
      assert cut[seam - 1] == full[from - 1] && cut[seam] == full[upto];
      assert PrevOf(cut[seam]) == EntryOf(cut[seam - 1]);
      DigestsDistinct(h, key, full, from - 1, upto - 1);
    }
  }

  /** A keyed row accepted under one key is refused under another, unless the two keys collide on it. */
  lemma AnotherKeyIsRefused(h: Hash, key: Bytes, other: Bytes, r: Row)
    requires key != [] && other != [] && key != other && IsKeyed(r) && RowOk(h, Some(key), r)
    ensures var payload := RowEncoding.Encode(FieldList(CoveredBy(r)));
            RowOk(h, Some(other), r) <==> h(Keyed(other, payload)) == h(Keyed(key, payload))
  {
  }

  /** Without a key no keyed row is accepted; the key plays no part in an unkeyed one. */
  lemma KeyMattersWhenKeyed(h: Hash, key: Option<Bytes>, r: Row)
    ensures IsKeyed(r) && !Usable(key) ==> !RowOk(h, key, r)
    ensures !IsKeyed(r) && Encodable(CoveredBy(r)) ==>
              (RowOk(h, key, r) <==> h(Plain(RowEncoding.Encode(FieldList(CoveredBy(r))))) == EntryOf(r))
  {
  }

  // -------------------------------------------- what the timestamp text pins

  /** The chained number of microseconds is the nearest one. */
  lemma MicrosAreNearest(t: real)
    ensures var magnitude := if t < 0.0 then -t else t;
            -0.0000005 <= magnitude - Micros(t) as real / 1000000.0 <= 0.0000005
  {
    var x := (if t < 0.0 then -t else t) * 1000000.0;
    var m := RoundHalfEven(x);
    assert x.Floor as real <= x < x.Floor as real + 1.0;
    assert -0.5 <= x - m as real <= 0.5;
    assert Micros(t) as real == m as real;
  }

  /** The chained text pins a timestamp to within one microsecond. */
  lemma StampPinsTime(s: real, t: real)
    requires StampString(Some(s)) == StampString(Some(t))
    ensures -0.000001 <= s - t <= 0.000001
    ensures Micros(s) == Micros(t) && (s < 0.0 <==> t < 0.0)
  {
    var ms, mt := Micros(s), Micros(t);
    hide Decimal.Value, Decimal.Padded, Decimal.ToString, Decimal.AllDigits;
    SignIsVisible(s, t);
    PartsAgree(if s < 0.0 then "-" else "",
               Decimal.ToString(ms / 1000000), Decimal.Padded(ms % 1000000, 6),
               Decimal.ToString(mt / 1000000), Decimal.Padded(mt % 1000000, 6));
    Decimal.PrintInjective(ms / 1000000, mt / 1000000);
    assert Decimal.Pow10(6) == 1000000 by { assert Decimal.Pow10(3) == 1000; }
    Decimal.PaddedRoundTrip(ms % 1000000, 6);
    Decimal.PaddedRoundTrip(mt % 1000000, 6);
    SameMicros(s, t);
  }

  lemma PartsAgree(lead: string, whole: string, part: string, whole': string, part': string)
    requires |part| == |part'| && lead + whole + "." + part == lead + whole' + "." + part'
    ensures whole == whole' && part == part'
  {
    var a, n := lead + whole + "." + part, |lead|;
    assert whole == a[n..n + |whole|] && whole' == a[n..n + |whole'|];
    assert part == a[n + |whole| + 1..] && part' == a[n + |whole'| + 1..];
  }

  lemma SameMicros(s: real, t: real)
    requires Micros(s) == Micros(t) && (s < 0.0 <==> t < 0.0)
    ensures -0.000001 <= s - t <= 0.000001
  {
  }

  lemma SignIsVisible(s: real, t: real)
    requires StampString(Some(s)) == StampString(Some(t))
    ensures s < 0.0 <==> t < 0.0
  {
    var a, b := StampString(Some(s)), StampString(Some(t));
    var whole, whole' := Decimal.ToString(Micros(s) / 1000000), Decimal.ToString(Micros(t) / 1000000);
    assert s < 0.0 ==> a[0] == '-';
    assert t < 0.0 ==> b[0] == '-';
    assert s >= 0.0 ==> a[0] == whole[0] && Decimal.IsDigit(whole[0]);
    assert t >= 0.0 ==> b[0] == whole'[0] && Decimal.IsDigit(whole'[0]);
  }
}
