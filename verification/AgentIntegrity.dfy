/** The controller-side integrity machine (backend/agent_integrity.py): trust on
    first use, re-seal windows, the missing-report timer and the skipped write. */
module AgentIntegrity {
  import opened Common

  type Host = string
  type Path = string

  /** A JSON object in insertion order; a null value is None. */
  type Files = seq<(Path, Option<string>)>

  datatype Measurement = Measurement(version: Option<string>, files: Files)

  datatype Status = Ok | Quarantined

  datatype Mismatch =
    | VersionChanged(was: Option<string>, reported: Option<string>)
    | NoLongerReported(path: Path)
    | HashChanged(path: Path, was12: Option<string>, got12: string)
    | NewFile(path: Path)
    | StoppedReporting

  // --------------------------------------------------------------- compare

  ghost predicate DistinctPaths(files: Files) {
    forall i, j | 0 <= i < j < |files| :: files[i].0 != files[j].0
  }

  /** dict.get: None for an absent path as for a null value. */
  function Get(files: Files, path: Path): Option<string> {
    if files == [] then None else if files[0].0 == path then files[0].1 else Get(files[1..], path)
  }

  predicate Lists(files: Files, path: Path) { exists i | 0 <= i < |files| :: files[i].0 == path }

  function Prefix12(h: string): (p: string)
    ensures p <= h && |p| == Min(|h|, 12)
  {
    if |h| <= 12 then h else h[..12]
  }

  function FileCheck(reported: Files, path: Path, expected: Option<string>): seq<Mismatch> {
    var got := Get(reported, path);
    if got.None? then [NoLongerReported(path)]
    else if got != expected then
      [HashChanged(path, if expected.Some? then Some(Prefix12(expected.value)) else None, Prefix12(got.value))]
    else []
  }

  function FileChecks(reported: Files, expected: Files): seq<Mismatch> {
    if expected == [] then []
    else
      var last := expected[|expected| - 1];
      FileChecks(reported, expected[..|expected| - 1]) + FileCheck(reported, last.0, last.1)
  }

  function NewFiles(reported: Files, baseline: Files): seq<Mismatch> {
    if reported == [] then []
    else
      var last := reported[|reported| - 1];
      NewFiles(reported[..|reported| - 1], baseline) + if Lists(baseline, last.0) then [] else [NewFile(last.0)]
  }

  function Compare(reported: Measurement, baseline: Measurement): seq<Mismatch> {
    (if reported.version != baseline.version then [VersionChanged(baseline.version, reported.version)] else [])
    + FileChecks(reported.files, baseline.files)
    + NewFiles(reported.files, baseline.files)
  }

  lemma FileChecksStep(reported: Files, expected: Files, k: nat)
    requires k < |expected|
    ensures FileChecks(reported, expected[..k + 1])
            == FileChecks(reported, expected[..k]) + FileCheck(reported, expected[k].0, expected[k].1)
  {
    assert expected[..k + 1][..k] == expected[..k];
  }

  lemma NewFilesStep(reported: Files, baseline: Files, k: nat)
    requires k < |reported|
    ensures NewFiles(reported[..k + 1], baseline)
            == NewFiles(reported[..k], baseline)
               + if Lists(baseline, reported[k].0) then [] else [NewFile(reported[k].0)]
  {
    assert reported[..k + 1][..k] == reported[..k];
  }

  lemma NothingChecked(reported: Files, baseline: Files)
    ensures FileChecks(reported, baseline[..0]) == [] && NewFiles(reported[..0], baseline) == []
  {
  }

  method CompareMeasurements(reported: Measurement, baseline: Measurement) returns (out: seq<Mismatch>)
    ensures out == Compare(reported, baseline)
  {
    hide FileChecks, NewFiles, Get, Lists, Prefix12;
    NothingChecked(reported.files, baseline.files);
    out := [];
    if reported.version != baseline.version {
      out := out + [VersionChanged(baseline.version, reported.version)];
    }
    ghost var head := out;
    for k := 0 to |baseline.files|
      invariant out == head + FileChecks(reported.files, baseline.files[..k])
    {
      var (path, expected) := baseline.files[k];
      FileChecksStep(reported.files, baseline.files, k);
      var got := Get(reported.files, path);
      if got.None? {
        out := out + [NoLongerReported(path)];
      } else if got != expected {
        var wanted := if expected.Some? then Some(Prefix12(expected.value)) else None;
        out := out + [HashChanged(path, wanted, Prefix12(got.value))];
      }
    }
    assert baseline.files[..|baseline.files|] == baseline.files;
    head := out;
    for k := 0 to |reported.files|
      invariant out == head + NewFiles(reported.files[..k], baseline.files)
    {
      NewFilesStep(reported.files, baseline.files, k);
      if !Lists(baseline.files, reported.files[k].0) {
        out := out + [NewFile(reported.files[k].0)];
      }
    }
    assert reported.files[..|reported.files|] == reported.files;
  }

  ghost predicate SameFiles(a: Files, b: Files) {
    && (forall i | 0 <= i < |a| :: Lists(b, a[i].0) && Get(b, a[i].0) == a[i].1)
    && (forall i | 0 <= i < |b| :: Lists(a, b[i].0) && Get(a, b[i].0) == b[i].1)
  }

  ghost predicate NoNull(files: Files) { forall i | 0 <= i < |files| :: files[i].1.Some? }

  lemma {:induction false} GetListed(files: Files, i: nat)
    requires DistinctPaths(files) && i < |files|
    ensures Get(files, files[i].0) == files[i].1
  {
    if i > 0 { GetListed(files[1..], i - 1); }
  }

  lemma {:induction false} GetAbsent(files: Files, path: Path)
    requires !Lists(files, path)
    ensures Get(files, path) == None
  {
    if files != [] {
      assert files[0].0 != path;
      GetAbsent(files[1..], path);
    }
  }

  lemma {:induction false} FileChecksClean(reported: Files, expected: Files)
    ensures FileChecks(reported, expected) == [] <==>
            forall i | 0 <= i < |expected| :: expected[i].1.Some? && Get(reported, expected[i].0) == expected[i].1
  {
    if expected != [] { FileChecksClean(reported, expected[..|expected| - 1]); }
  }

  lemma {:induction false} NewFilesClean(reported: Files, baseline: Files)
    ensures NewFiles(reported, baseline) == [] <==> forall i | 0 <= i < |reported| :: Lists(baseline, reported[i].0)
  {
    if reported != [] { NewFilesClean(reported[..|reported| - 1], baseline); }
  }

  /** No mismatch means the same version and the same file map, and conversely,
      provided the baseline holds no null hash. */
  lemma CompareClean(reported: Measurement, baseline: Measurement)
    requires DistinctPaths(reported.files) && DistinctPaths(baseline.files)
    ensures Compare(reported, baseline) == [] <==>
            reported.version == baseline.version && SameFiles(reported.files, baseline.files) && NoNull(baseline.files)
  {
    var r, b := reported.files, baseline.files;
    FileChecksClean(r, b);
    NewFilesClean(r, b);
    if FileChecks(r, b) == [] && NewFiles(r, b) == [] {
      forall i | 0 <= i < |b| ensures Lists(r, b[i].0) && Get(r, b[i].0) == b[i].1 {
        if !Lists(r, b[i].0) { GetAbsent(r, b[i].0); }
      }
      forall i | 0 <= i < |r| ensures Lists(b, r[i].0) && Get(b, r[i].0) == r[i].1 {
        var j :| 0 <= j < |b| && b[j].0 == r[i].0;
        GetListed(b, j);
        GetListed(r, i);
      }
    }
  }

  lemma {:induction false} FileCheckMembers(reported: Files, expected: Files, x: Mismatch)
    ensures x in FileChecks(reported, expected) <==>
              exists i :: 0 <= i < |expected| && x in FileCheck(reported, expected[i].0, expected[i].1)
  {
    if expected != [] {
      var init, last := Init(expected), Last(expected);
      FileCheckMembers(reported, init, x);
      assert forall i | 0 <= i < |init| :: init[i] == expected[i];
      assert expected[|init|] == last;
    }
  }

  lemma {:induction false} NewFileMembers(reported: Files, baseline: Files, x: Mismatch)
    ensures x in NewFiles(reported, baseline) <==>
              exists i :: 0 <= i < |reported| && !Lists(baseline, reported[i].0) && x == NewFile(reported[i].0)
  {
    if reported != [] {
      var init, last := Init(reported), Last(reported);
      NewFileMembers(init, baseline, x);
      assert forall i | 0 <= i < |init| :: init[i] == reported[i];
      assert reported[|init|] == last;
    }
  }

  /** Where an entry of the list can come from. */
  lemma MismatchSource(reported: Measurement, baseline: Measurement, x: Mismatch)
    requires !x.VersionChanged?
    ensures var r, b := reported.files, baseline.files;
            x in Compare(reported, baseline)
            <==> (exists i :: 0 <= i < |b| && x in FileCheck(r, b[i].0, b[i].1))
                 || (exists i :: 0 <= i < |r| && !Lists(b, r[i].0) && x == NewFile(r[i].0))
  {
    hide FileChecks, NewFiles, FileCheck, Lists;
    FileCheckMembers(reported.files, baseline.files, x);
    NewFileMembers(reported.files, baseline.files, x);
  }

  /** The list names a file as new, or as gone, if and only if it is. */
  lemma NewOrGoneMeans(reported: Measurement, baseline: Measurement, path: Path)
    ensures NewFile(path) in Compare(reported, baseline)
            <==> Lists(reported.files, path) && !Lists(baseline.files, path)
    ensures NoLongerReported(path) in Compare(reported, baseline)
            <==> Lists(baseline.files, path) && Get(reported.files, path).None?
  {
    hide Compare, Get, Prefix12;
    MismatchSource(reported, baseline, NewFile(path));
    MismatchSource(reported, baseline, NoLongerReported(path));
  }

  /** It names a file as changed if and only if the two hashes differ. */
  lemma ChangedMeans(reported: Measurement, baseline: Measurement, path: Path)
    requires DistinctPaths(baseline.files)
    ensures (exists was, got :: HashChanged(path, was, got) in Compare(reported, baseline))
            <==> Lists(baseline.files, path) && Get(reported.files, path).Some?
                 && Get(reported.files, path) != Get(baseline.files, path)
  {
    hide Compare, Get, Prefix12;
    var r, b := reported.files, baseline.files;
    forall i | 0 <= i < |b| ensures Get(b, b[i].0) == b[i].1 { GetListed(b, i); }
    if was, got :| HashChanged(path, was, got) in Compare(reported, baseline) {
      MismatchSource(reported, baseline, HashChanged(path, was, got));
    }
    if Lists(b, path) && Get(r, path).Some? && Get(r, path) != Get(b, path) {
      var i :| 0 <= i < |b| && b[i].0 == path;
      var was := if b[i].1.Some? then Some(Prefix12(b[i].1.value)) else None;
      var x := HashChanged(path, was, Prefix12(Get(r, path).value));
      assert x in FileCheck(r, b[i].0, b[i].1);
      MismatchSource(reported, baseline, x);
    }
  }

  /** A baseline with a null hash is flagged by the very measurement it was sealed from. */
  lemma NullHashFlagsItself(version: Option<string>, path: Path)
    ensures var m := Measurement(version, [(path, None)]);
            Compare(m, m) == [NoLongerReported(path)]
  {
    var m := Measurement(version, [(path, None)]);
    assert m.files[..0] == [];
    assert m.files[0].0 == path;
    assert Lists(m.files, path);
    assert NewFiles(m.files, m.files) == NewFiles([], m.files) + [];
    assert FileChecks(m.files, m.files) == FileChecks(m.files, []) + FileCheck(m.files, path, None);
  }

  // ------------------------------------------------------------ the record

  datatype Rec = Rec(
    baseline: Option<Measurement>,
    status: Option<Status>,
    mismatches: seq<Mismatch>,
    missingSince: Option<real>,
    resealUntil: real,
    sealedAt: real,
    flaggedAt: real)

  type Store = map<Host, Rec>

  const BLANK := Rec(None, None, [], None, 0.0, 0.0, 0.0)

  datatype Outcome =
    | Resealed
    | Sealed
    | Compared(status: Status, mismatches: seq<Mismatch>)
    | Unknown
    | Unchanged(status: Status)
    | Missing(status: Status)
    | FlaggedMissing

  /** evaluate(); `eager` is the variant that saves on every heartbeat. */
  function Evaluate(data: Store, host: Host, m: Measurement, now: real, eager: bool): (Store, Outcome) {
    if host in data && data[host].resealUntil > now then
      var rec := data[host].(baseline := Some(m), status := Some(Ok), mismatches := [],
                             missingSince := None, sealedAt := now);
      (data[host := rec], Resealed)
    else if host !in data || data[host].baseline.None? then
      (data[host := BLANK.(baseline := Some(m), status := Some(Ok), sealedAt := now)], Sealed)
    else
      var rec := data[host];
      var found := Compare(m, rec.baseline.value);
      var status := if found != [] then Quarantined else Ok;
      var changed := rec.status != Some(status) || rec.mismatches != found || rec.missingSince.Some?;
      var rec' := rec.(status := Some(status), mismatches := found, missingSince := None,
                       flaggedAt := if found != [] then now else rec.flaggedAt);
      (if changed || eager then data[host := rec'] else data, Compared(status, found))
  }

  function NoteMissing(data: Store, host: Host, now: real, grace: real): (Store, Outcome) {
    if host !in data || data[host].baseline.None? then (data, Unknown)
    else
      var rec := data[host];
      var status := rec.status.GetOr(Ok);
      if rec.resealUntil > now then (data, Unchanged(status))
      else if rec.status == Some(Quarantined) then (data, Unchanged(Quarantined))
      else if rec.missingSince.None? || rec.missingSince.value == 0.0 then
        (data[host := rec.(missingSince := Some(now))], Missing(status))
      else if now - rec.missingSince.value >= grace then
        (data[host := rec.(status := Some(Quarantined), mismatches := [StoppedReporting], flaggedAt := now)],
         FlaggedMissing)
      else (data, Missing(status))
  }

  function Marked(data: Store, host: Host, window: real, now: real): Store {
    var rec := if host in data then data[host] else BLANK;
    var open := rec.(resealUntil := now + window);
    data[host := if rec.status == Some(Quarantined) then open.(status := Some(Ok), mismatches := []) else open]
  }

  class IntegrityStore {
    const grace: real
    var data: Store

    constructor (grace: real)
      ensures this.grace == grace && data == map[]
    {
      this.grace := grace;
      data := map[];
    }

    /** Load, compare, and save only when something changed. */
    method EvaluateReport(host: Host, m: Measurement, now: real) returns (r: Outcome)
      modifies this
      ensures (data, r) == Evaluate(old(data), host, m, now, false)
    {
      var clearedMissing := false;
      var rec := BLANK;
      if host in data {
        rec := data[host];
        clearedMissing := rec.missingSince.Some?;
        rec := rec.(missingSince := None);
      }
      if host in data && rec.resealUntil > now {
        data := data[host := rec.(baseline := Some(m), status := Some(Ok), mismatches := [], sealedAt := now)];
        return Resealed;
      }
      if host !in data || rec.baseline.None? {
        data := data[host := BLANK.(baseline := Some(m), status := Some(Ok), sealedAt := now)];
        return Sealed;
      }
      var mismatches := CompareMeasurements(m, rec.baseline.value);
      var newStatus := if mismatches != [] then Quarantined else Ok;
      var changed := rec.status != Some(newStatus) || rec.mismatches != mismatches || clearedMissing;
      if mismatches != [] {
        rec := rec.(status := Some(Quarantined), mismatches := mismatches, flaggedAt := now);
      } else {
        rec := rec.(status := Some(Ok), mismatches := []);
      }
      if changed {
        data := data[host := rec];
      }
      return Compared(newStatus, mismatches);
    }

    method NoteMissingReport(host: Host, now: real) returns (r: Outcome)
      modifies this
      ensures (data, r) == NoteMissing(old(data), host, now, grace)
    {
      if host !in data || data[host].baseline.None? {
        return Unknown;
      }
      var rec := data[host];
      if rec.resealUntil > now {
        return Unchanged(rec.status.GetOr(Ok));
      }
      if rec.status == Some(Quarantined) {
        return Unchanged(Quarantined);
      }
      if rec.missingSince.None? || rec.missingSince.value == 0.0 {
        data := data[host := rec.(missingSince := Some(now))];
        return Missing(rec.status.GetOr(Ok));
      }
      if now - rec.missingSince.value >= grace {
        data := data[host := rec.(status := Some(Quarantined), mismatches := [StoppedReporting], flaggedAt := now)];
        return FlaggedMissing;
      }
      return Missing(rec.status.GetOr(Ok));
    }

    method Rebaseline(host: Host)
      modifies this
      ensures data == old(data) - {host}
    {
      if host in data {
        data := data - {host};
      }
    }

    method MarkUpdating(host: Host, window: real, now: real)
      modifies this
      ensures data == Marked(old(data), host, window, now)
    {
      var rec := if host in data then data[host] else BLANK;
      rec := rec.(resealUntil := now + window);
      if rec.status == Some(Quarantined) {
        rec := rec.(status := Some(Ok), mismatches := []);
      }
      data := data[host := rec];
    }
  }

  // --------------------------------------------------------------- history

  datatype Event =
    | Report(host: Host, at: real, m: Measurement)
    | Miss(host: Host, at: real)
    | Rebaseline(host: Host, at: real)
    | Updating(host: Host, at: real, window: real)

  function Apply(data: Store, e: Event, grace: real, eager: bool): (Store, Outcome) {
    match e
    case Report(host, at, m) => Evaluate(data, host, m, at, eager)
    case Miss(host, at) => NoteMissing(data, host, at, grace)
    case Rebaseline(host, _) => (data - {host}, Unknown)
    case Updating(host, at, window) => (Marked(data, host, window, at), Unknown)
  }

  function After(h: seq<Event>, grace: real, eager: bool): Store {
    if h == [] then map[] else Apply(After(Init(h), grace, eager), Last(h), grace, eager).0
  }

  /** A clock that starts at 0 and never goes back. */
  ghost predicate Clocked(h: seq<Event>) {
    && (forall i | 0 <= i < |h| :: h[i].at >= 0.0)
    && (forall i, j | 0 <= i < j < |h| :: h[i].at <= h[j].at)
  }

  function Now(h: seq<Event>): real { if h == [] then 0.0 else Last(h).at }

  // What the history alone says about a host, without any record.

  /** Did a measurement arrive since the host's last rebaseline? */
  predicate Measured(h: seq<Event>, host: Host) {
    h != [] && (if Last(h).host == host && Last(h).Report? then true
                else if Last(h).host == host && Last(h).Rebaseline? then false
                else Measured(Init(h), host))
  }

  /** The end of the re-seal window opened last since the host's last rebaseline; 0 if none. */
  function WindowEnd(h: seq<Event>, host: Host): real {
    if h == [] || (Last(h).host == host && Last(h).Rebaseline?) then 0.0
    else if Last(h).host == host && Last(h).Updating? then Last(h).at + Last(h).window
    else WindowEnd(Init(h), host)
  }

  /** A report seals when it is the first since creation or rebaseline, or falls in an open window. */
  predicate Seals(h: seq<Event>, host: Host, e: Event) {
    e.Report? && e.host == host && (!Measured(h, host) || WindowEnd(h, host) > e.at)
  }

  /** The measurement of the latest sealing event since the last rebaseline. */
  function SealedMeasurement(h: seq<Event>, host: Host): Option<Measurement> {
    if h == [] then None
    else if Seals(Init(h), host, Last(h)) then Some(Last(h).m)
    else if Last(h).host == host && Last(h).Rebaseline? then None
    else SealedMeasurement(Init(h), host)
  }

  /** The same, said with an index: event i seals, and nothing after it seals or rebaselines the host. */
  ghost predicate LatestSealAt(h: seq<Event>, host: Host, i: nat) {
    && i < |h| && Seals(h[..i], host, h[i])
    && forall j | i < j < |h| :: !Seals(h[..j], host, h[j]) && !(h[j].host == host && h[j].Rebaseline?)
  }

  lemma {:induction false} SealedIsLatest(h: seq<Event>, host: Host)
    requires SealedMeasurement(h, host).Some?
    ensures exists i: nat :: LatestSealAt(h, host, i) && h[i].m == SealedMeasurement(h, host).value
  {
    var n := |h| - 1;
    if Seals(Init(h), host, Last(h)) {
      assert LatestSealAt(h, host, n);
    } else {
      SealedIsLatest(Init(h), host);
      var i: nat :| LatestSealAt(Init(h), host, i) && Init(h)[i].m == SealedMeasurement(Init(h), host).value;
      assert Init(h)[..i] == h[..i];
      forall j | i < j < |h| ensures !Seals(h[..j], host, h[j]) && !(h[j].host == host && h[j].Rebaseline?) {
        if j < n { assert Init(h)[..j] == h[..j] && Init(h)[j] == h[j]; }
      }
      assert LatestSealAt(h, host, i);
    }
  }

  function BaselineOf(data: Store, host: Host): Option<Measurement> {
    if host in data then data[host].baseline else None
  }

  ghost predicate WindowAgrees(rec: Rec, h: seq<Event>, host: Host) {
    forall t: real | t >= Now(h) :: WindowOpen(rec, t) <==> WindowEnd(h, host) > t
  }

  ghost predicate WindowOpen(rec: Rec, t: real) { rec.resealUntil > t }

  /** A quarantine for silence: armed at missingSince, no report since, and at least the grace in between. */
  ghost predicate SilentSince(rec: Rec, h: seq<Event>, host: Host, grace: real) {
    && (rec.missingSince.Some? ==>
          forall i | 0 <= i < |h| :: h[i].Report? && h[i].host == host ==> h[i].at <= rec.missingSince.value)
    && (StoppedReporting in rec.mismatches ==>
          && rec.mismatches == [StoppedReporting]
          && rec.missingSince.Some? && rec.flaggedAt - rec.missingSince.value >= grace)
  }

  ghost predicate RecAgrees(rec: Rec, h: seq<Event>, host: Host, grace: real) {
    && WindowAgrees(rec, h, host)
    && (rec.status == Some(Quarantined) <==> rec.mismatches != [])
    && (rec.baseline.Some? ==> rec.status.Some?)
    && SilentSince(rec, h, host, grace)
  }

  ghost predicate Agrees(data: Store, h: seq<Event>, host: Host, grace: real) {
    && BaselineOf(data, host) == SealedMeasurement(h, host)
    && (SealedMeasurement(h, host).Some? <==> Measured(h, host))
    && (host !in data ==> !Measured(h, host) && WindowAgrees(BLANK, h, host))
    && (host in data ==> RecAgrees(data[host], h, host, grace))
  }

  lemma {:induction false} NeverStopped(reported: Measurement, baseline: Measurement)
    ensures StoppedReporting !in Compare(reported, baseline)
  {
    FileChecksNeverStopped(reported.files, baseline.files);
    NewFilesNeverStopped(reported.files, baseline.files);
  }

  lemma {:induction false} FileChecksNeverStopped(reported: Files, expected: Files)
    ensures StoppedReporting !in FileChecks(reported, expected)
  {
    if expected != [] { FileChecksNeverStopped(reported, expected[..|expected| - 1]); }
  }

  lemma {:induction false} NewFilesNeverStopped(reported: Files, baseline: Files)
    ensures StoppedReporting !in NewFiles(reported, baseline)
  {
    if reported != [] { NewFilesNeverStopped(reported[..|reported| - 1], baseline); }
  }

  lemma ClockedLast(h: seq<Event>, e: Event)
    requires Clocked(h + [e])
    ensures e.at >= 0.0 && e.at >= Now(h) && forall i | 0 <= i < |h| :: h[i].at <= e.at
  {
    var h' := h + [e];
    assert h'[|h|] == e && forall i | 0 <= i < |h| :: h'[i] == h[i];
    if h != [] { assert h'[|h| - 1] == Last(h); }
  }

  lemma ReportHistory(h: seq<Event>, e: Event)
    requires e.Report?
    ensures var h' := h + [e];
            && Measured(h', e.host) && WindowEnd(h', e.host) == WindowEnd(h, e.host) && Now(h') == e.at
            && SealedMeasurement(h', e.host) == if Seals(h, e.host, e) then Some(e.m) else SealedMeasurement(h, e.host)
  {
    var h' := h + [e];
    assert Init(h') == h && Last(h') == e;
  }

  lemma ReportAgrees(data: Store, h: seq<Event>, e: Event, grace: real)
    requires e.Report? && Clocked(h + [e]) && Agrees(data, h, e.host, grace)
    ensures Agrees(Apply(data, e, grace, false).0, h + [e], e.host, grace)
  {
    hide Compare, Clocked, Measured, WindowEnd, SealedMeasurement, Init, Last, Now;
    var h' := h + [e];
    ReportHistory(h, e);
    ClockedLast(h, e);
    var rec := if e.host in data then data[e.host] else BLANK;
    assert WindowOpen(rec, e.at) <==> WindowEnd(h, e.host) > e.at;
    if rec.baseline.Some? { NeverStopped(e.m, rec.baseline.value); }
    var rec' := Apply(data, e, grace, false).0[e.host];
    assert WindowAgrees(rec', h', e.host) by {
      forall t: real | t >= e.at ensures WindowOpen(rec', t) <==> WindowEnd(h', e.host) > t {
        assert WindowOpen(rec, t) <==> WindowEnd(h, e.host) > t;
      }
    }
  }

  /** For this host, the event changes nothing the history says. */
  lemma QuietEvent(h: seq<Event>, e: Event, host: Host)
    requires e.host != host || e.Miss?
    ensures var h' := h + [e];
            && Measured(h', host) == Measured(h, host) && WindowEnd(h', host) == WindowEnd(h, host)
            && SealedMeasurement(h', host) == SealedMeasurement(h, host) && Now(h') == e.at
  {
    var h' := h + [e];
    assert Init(h') == h && Last(h') == e;
  }

  /** A record that keeps its window and its silence still agrees after a quiet event. */
  lemma StillAgrees(rec: Rec, h: seq<Event>, e: Event, host: Host, grace: real)
    requires (e.host != host || e.Miss?) && e.at >= Now(h)
    ensures WindowAgrees(rec, h, host) ==> WindowAgrees(rec, h + [e], host)
    ensures SilentSince(rec, h, host, grace) ==> SilentSince(rec, h + [e], host, grace)
  {
    hide WindowEnd, Measured, SealedMeasurement;
    QuietEvent(h, e, host);
    var h' := h + [e];
    assert h'[|h|] == e && forall i | 0 <= i < |h| :: h'[i] == h[i];
  }

  lemma MissAgrees(data: Store, h: seq<Event>, e: Event, grace: real)
    requires e.Miss? && Clocked(h + [e]) && Agrees(data, h, e.host, grace)
    ensures Agrees(Apply(data, e, grace, false).0, h + [e], e.host, grace)
  {
    hide Measured, WindowEnd, SealedMeasurement, Clocked;
    QuietEvent(h, e, e.host);
    ClockedLast(h, e);
    var data' := Apply(data, e, grace, false).0;
    if e.host in data {
      var rec, rec' := data[e.host], data'[e.host];
      assert WindowAgrees(rec', h, e.host) by { assert forall t :: WindowOpen(rec', t) == WindowOpen(rec, t); }
      assert SilentSince(rec', h, e.host, grace);
      StillAgrees(rec', h, e, e.host, grace);
    } else {
      StillAgrees(BLANK, h, e, e.host, grace);
    }
  }

  lemma AdminHistory(h: seq<Event>, e: Event)
    requires e.Rebaseline? || e.Updating?
    ensures var h' := h + [e];
            && Measured(h', e.host) == (e.Updating? && Measured(h, e.host)) && Now(h') == e.at
            && WindowEnd(h', e.host) == (if e.Updating? then e.at + e.window else 0.0)
            && SealedMeasurement(h', e.host) == if e.Updating? then SealedMeasurement(h, e.host) else None
  {
    var h' := h + [e];
    assert Init(h') == h && Last(h') == e;
  }

  lemma AdminAgrees(data: Store, h: seq<Event>, e: Event, grace: real)
    requires (e.Rebaseline? || e.Updating?) && Clocked(h + [e]) && Agrees(data, h, e.host, grace)
    ensures Agrees(Apply(data, e, grace, false).0, h + [e], e.host, grace)
  {
    hide Measured, WindowEnd, SealedMeasurement, Init, Last, Now, Clocked;
    var h' := h + [e];
    assert forall i | 0 <= i < |h| :: h'[i] == h[i];
    AdminHistory(h, e);
    ClockedLast(h, e);
  }

  lemma ApplyElsewhere(data: Store, e: Event, host: Host, grace: real)
    requires e.host != host
    ensures var data' := Apply(data, e, grace, false).0;
            (host in data' <==> host in data) && (host in data ==> data'[host] == data[host])
  {
    hide Compare;
  }

  lemma ElsewhereAgrees(data: Store, h: seq<Event>, e: Event, host: Host, grace: real)
    requires e.host != host && Clocked(h + [e]) && Agrees(data, h, host, grace)
    ensures Agrees(Apply(data, e, grace, false).0, h + [e], host, grace)
  {
    hide Measured, WindowEnd, SealedMeasurement, Clocked, Apply, WindowAgrees, SilentSince;
    QuietEvent(h, e, host);
    ClockedLast(h, e);
    ApplyElsewhere(data, e, host, grace);
    StillAgrees(if host in data then data[host] else BLANK, h, e, host, grace);
  }

  /** Every reachable record agrees with what its host's history says. */
  lemma {:induction false} HistoryAgrees(h: seq<Event>, host: Host, grace: real)
    requires Clocked(h)
    ensures Agrees(After(h, grace, false), h, host, grace)
  {
    if h == [] {
      assert WindowAgrees(BLANK, h, host);
    } else {
      var h0, e := Init(h), Last(h);
      assert h == h0 + [e];
      assert Clocked(h0) by { assert forall i | 0 <= i < |h0| :: h0[i] == h[i]; }
      hide Agrees, Apply, Clocked;
      HistoryAgrees(h0, host, grace);
      var data := After(h0, grace, false);
      if e.host != host {
        ElsewhereAgrees(data, h0, e, host, grace);
      } else if e.Report? {
        ReportAgrees(data, h0, e, grace);
      } else if e.Miss? {
        MissAgrees(data, h0, e, grace);
      } else {
        AdminAgrees(data, h0, e, grace);
      }
    }
  }

  /** The sealed baseline is the measurement of the host's latest sealing event;
      quarantined means exactly that the mismatch list is not empty. */
  lemma BaselineAndStatus(h: seq<Event>, host: Host, grace: real)
    requires Clocked(h)
    ensures var data := After(h, grace, false);
            && BaselineOf(data, host) == SealedMeasurement(h, host)
            && (host in data ==> (data[host].status == Some(Quarantined) <==> data[host].mismatches != []))
  {
    HistoryAgrees(h, host, grace);
  }

  /** A report outside a window leaves the host ok exactly when version and file map
      equal the sealed baseline and that baseline holds no null hash. */
  lemma ReportVerdict(h: seq<Event>, e: Event, grace: real)
    requires Clocked(h + [e]) && e.Report? && Measured(h, e.host) && WindowEnd(h, e.host) <= e.at
    ensures SealedMeasurement(h, e.host).Some?
    ensures var b := SealedMeasurement(h, e.host).value;
            var data := After(h + [e], grace, false);
            && e.host in data
            && (DistinctPaths(e.m.files) && DistinctPaths(b.files) ==>
                  (data[e.host].status == Some(Ok) <==>
                     e.m.version == b.version && SameFiles(e.m.files, b.files) && NoNull(b.files)))
  {
    hide Compare, SameFiles;
    var h' := h + [e];
    assert Init(h') == h && Last(h') == e;
    assert e.at >= Now(h) by { if h != [] { assert h'[|h| - 1] == Last(h) && h'[|h|] == e; } }
    assert Clocked(h) by { assert forall i | 0 <= i < |h| :: h[i] == h'[i]; }
    HistoryAgrees(h, e.host, grace);
    var data := After(h, grace, false);
    assert WindowOpen(data[e.host], e.at) <==> WindowEnd(h, e.host) > e.at;
    var b := SealedMeasurement(h, e.host).value;
    if DistinctPaths(e.m.files) && DistinctPaths(b.files) {
      CompareClean(e.m, b);
    }
  }

  /** A quarantine for missing reports means that for at least the grace period no measurement arrived. */
  lemma SilenceMeansGrace(h: seq<Event>, host: Host, grace: real, i: nat)
    requires Clocked(h) && i < |h| && h[i].Report? && h[i].host == host
    requires var data := After(h, grace, false); host in data && StoppedReporting in data[host].mismatches
    ensures h[i].at <= After(h, grace, false)[host].flaggedAt - grace
  {
    HistoryAgrees(h, host, grace);
    assert SilentSince(After(h, grace, false)[host], h, host, grace);
  }

  /** What a report outside a window is answered is what the record then says; a report
      inside one is always accepted. */
  lemma ReportAnswer(h: seq<Event>, e: Event, grace: real)
    requires Clocked(h + [e]) && e.Report? && Measured(h, e.host)
    ensures var (data, answer) := Apply(After(h, grace, false), e, grace, false);
            && e.host in data && data[e.host].status.Some?
            && if WindowEnd(h, e.host) > e.at
               then answer == Resealed && data[e.host].status == Some(Ok) && data[e.host].baseline == Some(e.m)
               else answer == Compared(data[e.host].status.value, data[e.host].mismatches)
  {
    hide Compare;
    ClockedLast(h, e);
    assert Clocked(h) by { assert forall i | 0 <= i < |h| :: h[i] == (h + [e])[i]; }
    HistoryAgrees(h, e.host, grace);
    var data := After(h, grace, false);
    assert WindowOpen(data[e.host], e.at) <==> WindowEnd(h, e.host) > e.at;
  }

  /** An announced update lifts a quarantine, and until the window ends nothing starts another. */
  lemma UpdateLiftsQuarantine(h: seq<Event>, host: Host, at: real, window: real, next: Event, grace: real)
    requires Clocked(h + [Updating(host, at, window), next]) && next.host == host && next.at < at + window
    ensures var data := After(h + [Updating(host, at, window)], grace, false);
            && host in data && data[host].status != Some(Quarantined)
            && var data' := Apply(data, next, grace, false).0;
               host in data' ==> data'[host].status != Some(Quarantined)
  {
    hide Compare;
    assert Init(h + [Updating(host, at, window)]) == h;
  }

  // --------------------------------------------------- silence is flagged

  /** Of the host's own events the last is a report. */
  ghost predicate LastWordIsReport(h: seq<Event>, host: Host) {
    h != [] && if Last(h).host == host then Last(h).Report? else LastWordIsReport(Init(h), host)
  }

  lemma AfterStep(h: seq<Event>, e: Event, grace: real)
    ensures After(h + [e], grace, false) == Apply(After(h, grace, false), e, grace, false).0
  {
    assert Init(h + [e]) == h;
  }

  /** A report leaves a baseline and no running timer. */
  lemma {:induction false} ReportedRecord(h: seq<Event>, host: Host, grace: real)
    requires LastWordIsReport(h, host)
    ensures var data := After(h, grace, false);
            host in data && data[host].baseline.Some? && data[host].missingSince.None?
  {
    hide Compare;
    if Last(h).host != host {
      ReportedRecord(Init(h), host, grace);
      ApplyElsewhere(After(Init(h), grace, false), Last(h), host, grace);
    }
  }

  /** Some miss came at least the grace period after t. */
  ghost predicate Late(quiet: seq<Event>, host: Host, t: real, grace: real) {
    exists i :: 0 <= i < |quiet| && quiet[i].host == host && quiet[i].at - t >= grace
  }

  ghost predicate Waiting(rec: Rec, t: real, late: bool) {
    && rec.baseline.Some? && rec.missingSince == Some(t) && rec.resealUntil <= t
    && if late then rec.status == Some(Quarantined) && rec.mismatches == [StoppedReporting] else rec.status == Some(Ok)
  }

  lemma LateGrows(quiet: seq<Event>, last: Event, host: Host, t: real, grace: real)
    ensures Late(quiet + [last], host, t, grace)
            <==> Late(quiet, host, t, grace) || (last.host == host && last.at - t >= grace)
  {
    var all := quiet + [last];
    assert all[|quiet|] == last && forall i | 0 <= i < |quiet| :: all[i] == quiet[i];
  }

  lemma {:induction false} QuietKeepsWaiting(h: seq<Event>, quiet: seq<Event>, host: Host, t: real, grace: real)
    requires forall i | 0 <= i < |quiet| :: quiet[i].at >= t > 0.0 && (quiet[i].host == host ==> quiet[i].Miss?)
    requires host in After(h, grace, false) && Waiting(After(h, grace, false)[host], t, false)
    ensures var data := After(h + quiet, grace, false);
            host in data && Waiting(data[host], t, Late(quiet, host, t, grace))
  {
    hide Apply, After, Waiting;
    if quiet == [] {
      assert h + quiet == h;
    } else {
      var init, last := Init(quiet), Last(quiet);
      assert forall i | 0 <= i < |init| :: init[i] == quiet[i];
      QuietKeepsWaiting(h, init, host, t, grace);
      assert h + quiet == h + init + [last];
      AfterStep(h + init, last, grace);
      LateGrows(init, last, host, t, grace);
      assert init + [last] == quiet;
      if last.host == host {
        MissWhileWaiting(After(h + init, grace, false), host, t, Late(init, host, t, grace), last.at, grace);
      } else {
        ApplyElsewhere(After(h + init, grace, false), last, host, grace);
      }
    }
  }

  lemma SilenceClock(h: seq<Event>, first: Event, quiet: seq<Event>, last: Event)
    requires Clocked(h + [first] + quiet + [last])
    ensures Clocked(h) && Now(h) <= first.at <= last.at
    ensures forall i | 0 <= i < |quiet| :: first.at <= quiet[i].at <= last.at
  {
    var all := h + [first] + quiet + [last];
    var n := |h| + 1;
    assert all[|h|] == first && all[n + |quiet|] == last;
    assert forall i | 0 <= i < |h| :: all[i] == h[i];
    forall i | 0 <= i < |quiet| ensures first.at <= quiet[i].at <= last.at { assert all[n + i] == quiet[i]; }
    if h != [] { assert all[|h| - 1] == Last(h); }
  }

  /** The first miss after a report outside a window starts the timer. */
  lemma FirstMissArms(h: seq<Event>, host: Host, t: real, grace: real)
    requires Clocked(h) && Now(h) <= t && LastWordIsReport(h, host) && WindowEnd(h, host) <= t
    requires host in After(h, grace, false) && After(h, grace, false)[host].status == Some(Ok)
    ensures var data := After(h + [Miss(host, t)], grace, false);
            host in data && Waiting(data[host], t, false)
  {
    hide LastWordIsReport, WindowEnd, SealedMeasurement, Measured, After, Clocked;
    ReportedRecord(h, host, grace);
    HistoryAgrees(h, host, grace);
    var rec := After(h, grace, false)[host];
    assert WindowOpen(rec, t) <==> WindowEnd(h, host) > t;
    AfterStep(h, Miss(host, t), grace);
  }

  /** A later miss finds the timer, or the quarantine that it brought. */
  lemma MissWhileWaiting(data: Store, host: Host, t: real, late: bool, now: real, grace: real)
    requires host in data && Waiting(data[host], t, late) && now >= t > 0.0
    ensures var (data', answer) := Apply(data, Miss(host, now), grace, false);
            && host in data' && Waiting(data'[host], t, late || now - t >= grace)
            && if late || now - t >= grace then answer in {FlaggedMissing, Unchanged(Quarantined)}
               else answer == Missing(Ok)
  {
  }

  /** A sealed host that was ok and falls silent, with no window open and nothing done about it: a
      miss at least the grace period after the first one finds it quarantined for
      silence or quarantines it, and one before that leaves it ok. */
  lemma SilenceIsFlagged(h: seq<Event>, host: Host, t: real, quiet: seq<Event>, now: real, grace: real)
    requires Clocked(h + [Miss(host, t)] + quiet + [Miss(host, now)]) && t > 0.0
    requires LastWordIsReport(h, host) && WindowEnd(h, host) <= t
    requires host in After(h, grace, false) && After(h, grace, false)[host].status == Some(Ok)
    requires forall i | 0 <= i < |quiet| && quiet[i].host == host :: quiet[i].Miss?
    ensures var before := After(h + [Miss(host, t)] + quiet, grace, false);
            var (data, answer) := Apply(before, Miss(host, now), grace, false);
            && host in data
            && if now - t >= grace
               then && data[host].status == Some(Quarantined) && data[host].mismatches == [StoppedReporting]
                    && answer in {FlaggedMissing, Unchanged(Quarantined)}
               else data[host].status == Some(Ok) && answer == Missing(Ok)
  {
    hide Apply, After, Clocked, WindowEnd, LastWordIsReport;
    SilenceClock(h, Miss(host, t), quiet, Miss(host, now));
    FirstMissArms(h, host, t, grace);
    QuietKeepsWaiting(h + [Miss(host, t)], quiet, host, t, grace);
    var before := After(h + [Miss(host, t)] + quiet, grace, false);
    MissWhileWaiting(before, host, t, Late(quiet, host, t, grace), now, grace);
  }

  // --------------------------------------------------- skipping the write

  ghost predicate SameButFlag(r: Rec, s: Rec) { r.(flaggedAt := 0.0) == s.(flaggedAt := 0.0) }

  ghost predicate Alike(lazy: Store, eager: Store) {
    lazy.Keys == eager.Keys && forall h | h in lazy :: SameButFlag(lazy[h], eager[h])
  }

  lemma StepAlike(lazy: Store, eager: Store, e: Event, grace: real)
    requires Alike(lazy, eager)
    ensures Apply(lazy, e, grace, false).1 == Apply(eager, e, grace, true).1
    ensures Alike(Apply(lazy, e, grace, false).0, Apply(eager, e, grace, true).0)
  {
    hide Compare;
    assert e.host in lazy ==> SameButFlag(lazy[e.host], eager[e.host]);
  }

  function Outcomes(h: seq<Event>, grace: real, eager: bool): seq<Outcome> {
    if h == [] then []
    else Outcomes(Init(h), grace, eager) + [Apply(After(Init(h), grace, eager), Last(h), grace, eager).1]
  }

  /** Skipping unchanged writes is invisible: over every history, every call answers the
      same as if each heartbeat were saved, and the stores differ at most in flagged-at. */
  lemma {:induction false} SkippedWritesAreInvisible(h: seq<Event>, grace: real)
    ensures Outcomes(h, grace, false) == Outcomes(h, grace, true)
    ensures Alike(After(h, grace, false), After(h, grace, true))
  {
    if h != [] {
      SkippedWritesAreInvisible(Init(h), grace);
      StepAlike(After(Init(h), grace, false), After(Init(h), grace, true), Last(h), grace);
    }
  }
}
