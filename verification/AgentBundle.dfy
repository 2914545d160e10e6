/** Baking the controller address into agent.py, and the canonical form under
    which a patched agent still reports its version (backend/agent_bundle.py). */
module AgentBundle {
  import opened Common
  import opened JsonText

  /** os.getenv("SYSIBLE_CONTROLLER", up to the comma: what the pattern and the fragment share. */
  const CALL := "os.getenv(\"SYSIBLE_CONTROLLER\","
  const DEFAULT_URL := "https://127.0.0.1:9000"

  function Fragment(literalBody: string): string { CALL + " \"" + literalBody + "\")" }

  const DEFAULT_FRAGMENT := Fragment(DEFAULT_URL)

  // -------------------------------------------------- quotes in the literal

  ghost predicate NoQuote(s: string) { forall i | 0 <= i < |s| :: s[i] != '"' }

  lemma {:induction false} JsonBodyHasNoQuote(s: string)
    requires NoQuote(s)
    ensures NoQuote(JsonBody(s))
  {
    if s != "" {
      assert s[0] != '"';
      EscapeHasNoQuote(s[0]);
      JsonBodyHasNoQuote(s[1..]);
    }
  }

  lemma HexIsNoQuote(n: nat)
    requires n < 0x1_0000
    ensures NoQuote(Hex4(n))
  {
  }

  lemma EscapeHasNoQuote(c: char)
    requires c != '"'
    ensures NoQuote(Escape(c))
  {
    if c as int >= 0x1_0000 {
      var v := c as int - 0x1_0000;
      HexIsNoQuote(0xd800 + v / 1024 % 1024);
      HexIsNoQuote(0xdc00 + v % 1024);
    } else {
      HexIsNoQuote(c as int);
    }
  }

  // ------------------------------------------------------------- matching

  predicate HasAt(s: string, i: nat, part: string) { i + |part| <= |s| && s[i..i + |part|] == part }

  /** Python's \s in a str pattern. */
  predicate IsSpace(c: char) {
    var n := c as int;
    || 9 <= n <= 13 || 28 <= n <= 32 || n == 0x85 || n == 0xa0 || n == 0x1680
    || 0x2000 <= n <= 0x200a || n == 0x2028 || n == 0x2029 || n == 0x202f || n == 0x205f || n == 0x3000
  }

  function SkipSpaces(s: string, i: nat): (j: nat)
    requires i <= |s|
    ensures i <= j <= |s| && (forall k | i <= k < j :: IsSpace(s[k])) && (j < |s| ==> !IsSpace(s[j]))
    decreases |s| - i
  {
    if i < |s| && IsSpace(s[i]) then SkipSpaces(s, i + 1) else i
  }

  /** The first quote at or after i, or the end of the text. */
  function NextQuote(s: string, i: nat): (j: nat)
    requires i <= |s|
    ensures i <= j <= |s| && (forall k | i <= k < j :: s[k] != '"') && (j < |s| ==> s[j] == '"')
    decreases |s| - i
  {
    if i < |s| && s[i] != '"' then NextQuote(s, i + 1) else i
  }

  /** os\.getenv\("SYSIBLE_CONTROLLER",\s*"[^"]*"\) at i: the end of the match. */
  function MatchAt(s: string, i: nat): (r: Option<nat>)
    ensures r.Some? ==> i + |CALL| + 3 <= r.value <= |s|
  {
    if !HasAt(s, i, CALL) then None
    else
      var open := SkipSpaces(s, i + |CALL|);
      if open >= |s| || s[open] != '"' then None
      else
        var close := NextQuote(s, open + 1);
        if close + 1 < |s| && s[close + 1] == ')' then Some(close + 2) else None
  }

  /** re.sub: leftmost matches, none overlapping, each replaced by the default fragment. */
  function Canonical(s: string, i: nat): string
    requires i <= |s|
    decreases |s| - i
  {
    if i == |s| then ""
    else
      match MatchAt(s, i)
      case Some(e) => DEFAULT_FRAGMENT + Canonical(s, e)
      case None => [s[i]] + Canonical(s, i + 1)
  }

  /** Twelve characters of the hash of the canonical source; the hash is left abstract. */
  function AgentVersion(src: string, hash: string -> string): (v: string)
    ensures v <= hash(Canonical(src, 0)) && |v| == Min(|hash(Canonical(src, 0))|, 12)
  {
    var digest := hash(Canonical(src, 0));
    if |digest| <= 12 then digest else digest[..12]
  }

  // ------------------------------------------------------------- patching

  function Find(s: string, part: string, from: nat): (r: Option<nat>)
    requires from <= |s|
    ensures r.Some? ==>
              from <= r.value && HasAt(s, r.value, part) && forall k | from <= k < r.value :: !HasAt(s, k, part)
    ensures r.None? ==> forall k: nat | from <= k <= |s| :: !HasAt(s, k, part)
    decreases |s| - from
  {
    if HasAt(s, from, part) then Some(from) else if from == |s| then None else Find(s, part, from + 1)
  }

  /** None stands for the RuntimeError raised when the fragment is missing. */
  function Patch(src: string, url: string): Option<string> {
    match Find(src, DEFAULT_FRAGMENT, 0)
    case None => None
    case Some(p) => Some(src[..p] + Fragment(JsonBody(url)) + src[p + |DEFAULT_FRAGMENT|..])
  }

  // ------------------------------------- canonicalisation undoes patching

  lemma CharAt(s: string, i: nat, part: string, k: nat)
    requires HasAt(s, i, part) && k < |part|
    ensures i + k < |s| && s[i + k] == part[k]
  {
    assert s[i..i + |part|][k] == s[i + k];
  }

  lemma HasAtFits(s: string, i: nat, part: string)
    requires HasAt(s, i, part)
    ensures i + |part| <= |s|
  {
  }

  lemma IsHasAt(s: string, i: nat, part: string)
    requires i + |part| <= |s| && s[i..i + |part|] == part
    ensures HasAt(s, i, part)
  {
  }

  lemma SliceAt(s: string, i: nat, part: string, lo: nat, hi: nat)
    requires HasAt(s, i, part) && lo <= hi <= |part|
    ensures HasAt(s, i + lo, part[lo..hi]) && i + |part| <= |s|
  {
    hide HasAt;
    assert i + |part| <= |s| by { HasAtFits(s, i, part); }
    var a, b := part[lo..hi], s[i + lo..i + hi];
    forall k | 0 <= k < hi - lo ensures a[k] == b[k] { CharAt(s, i, part, lo + k); }
    IsHasAt(s, i + lo, a);
  }

  lemma CallFacts()
    ensures |CALL| == 31 && CALL[0] == 'o' && CALL[9] == '(' && CALL[10] == '"' && CALL[11] == 'S'
    ensures forall k | 0 < k < |CALL| :: CALL[k] != 'o'
    ensures forall k | 0 <= k < 10 :: CALL[k] != '"'
  {
  }

  lemma FragmentShape(body: string)
    ensures var f, n := Fragment(body), |CALL|;
            && |f| == n + |body| + 4 && f[..n] == CALL && f[n] == ' ' && f[n + 1] == '"'
            && f[n + 2..n + 2 + |body|] == body && f[n + 2..] == body + "\")"
            && f[n + 2 + |body|] == '"' && f[n + 3 + |body|] == ')'
  {
  }

  lemma FragmentInText(s: string, p: nat, body: string)
    requires HasAt(s, p, Fragment(body))
    ensures var n := |CALL|;
            && p + n + |body| + 4 <= |s| && HasAt(s, p, CALL) && s[p + n] == ' ' && s[p + n + 1] == '"'
            && HasAt(s, p + n + 2, body) && HasAt(s, p + n + 2, body + "\")")
            && s[p + n + 2 + |body|] == '"' && s[p + n + 3 + |body|] == ')'
  {
    hide Fragment, HasAt;
    FragmentShape(body);
    var f, n := Fragment(body), |CALL|;
    SliceAt(s, p, f, 0, n);
    SliceAt(s, p, f, n + 2, n + 2 + |body|);
    SliceAt(s, p, f, n + 2, |f|);
    assert f[0..n] == CALL && f[n + 2..|f|] == body + "\")";
    CharAt(s, p, f, n);
    CharAt(s, p, f, n + 1);
    CharAt(s, p, f, n + 2 + |body|);
    CharAt(s, p, f, n + 3 + |body|);
  }

  /** A fragment whose literal has no quote matches, exactly to its end. */
  lemma FragmentMatches(s: string, p: nat, body: string)
    requires HasAt(s, p, Fragment(body)) && NoQuote(body)
    ensures MatchAt(s, p) == Some(p + |Fragment(body)|)
  {
    FragmentInText(s, p, body);
    FragmentShape(body);
    var n := |CALL|;
    assert SkipSpaces(s, p + n) == p + n + 1;
    NoQuoteInText(s, p + n + 2, body);
    assert NextQuote(s, p + n + 2) == p + n + 2 + |body|;
  }

  lemma NoQuoteInText(s: string, x: nat, body: string)
    requires HasAt(s, x, body) && NoQuote(body)
    ensures forall k | x <= k < x + |body| :: s[k] != '"'
  {
    forall k | x <= k < x + |body| ensures s[k] != '"' { CharAt(s, x, body, k - x); }
  }

  lemma NoSelfOverlap(s: string, i: nat, p: nat)
    requires i < p && HasAt(s, p, CALL) && HasAt(s, i, CALL)
    ensures i + |CALL| <= p
  {
    CallFacts();
    CharAt(s, p, CALL, 0);
    if p < i + |CALL| { CharAt(s, i, CALL, p - i); }
  }

  /** The pattern as an expression: the call, white space, a literal without a quote in it, and the closing
      parenthesis, up to e. */
  ghost predicate Expression(s: string, i: nat, open: nat, close: nat, e: nat) {
    && i + |CALL| <= open < close < |s| - 1 && HasAt(s, i, CALL)
    && (forall k | i + |CALL| <= k < open :: IsSpace(s[k])) && s[open] == '"'
    && (forall k | open < k < close :: s[k] != '"') && s[close] == '"'
    && s[close + 1] == ')' && e == close + 2
  }

  /** The matcher finds exactly what the expression describes, and it describes one end at most. */
  lemma MatchMeans(s: string, i: nat, e: nat)
    ensures MatchAt(s, i) == Some(e) <==> exists open: nat, close: nat :: Expression(s, i, open, close, e)
  {
    if MatchAt(s, i) == Some(e) {
      var open := SkipSpaces(s, i + |CALL|);
      assert Expression(s, i, open, NextQuote(s, open + 1), e);
    }
    if open: nat, close: nat :| Expression(s, i, open, close, e) {
      assert SkipSpaces(s, i + |CALL|) == open;
      assert NextQuote(s, open + 1) == close;
    }
  }

  /** A literal cannot end at the call's own quote: no ')' follows it. */
  lemma LiteralEndsBefore(s: string, open: nat, p: nat)
    requires open < p && HasAt(s, p, CALL)
    requires var close := NextQuote(s, open + 1); close + 1 < |s| && s[close + 1] == ')'
    ensures NextQuote(s, open + 1) <= p
  {
    CallFacts();
    CharAt(s, p, CALL, 10);
    CharAt(s, p, CALL, 11);
    var close := NextQuote(s, open + 1);
    if p <= close < p + 10 { CharAt(s, p, CALL, close - p); }
  }

  /** No match that starts before an occurrence of the call reaches into it. */
  lemma NoStraddle(s: string, i: nat, p: nat)
    requires i < p && HasAt(s, p, CALL) && MatchAt(s, i).Some?
    ensures MatchAt(s, i).value <= p
  {
    NoSelfOverlap(s, i, p);
    CallFacts();
    CharAt(s, p, CALL, 0);
    var open := SkipSpaces(s, i + |CALL|);
    assert open <= p by { assert !IsSpace('o'); }
    LiteralEndsBefore(s, open, p);
  }

  /** Matching before p only looks at text before p. */
  lemma SameBefore(s: string, t: string, i: nat, p: nat)
    requires i < p <= |s| && p <= |t| && s[..p] == t[..p]
    requires HasAt(s, p, CALL) && HasAt(t, p, CALL)
    ensures MatchAt(s, i) == MatchAt(t, i)
  {
    if MatchAt(s, i).Some? {
      NoStraddle(s, i, p);
      MatchCarriesOver(s, t, i, p);
    }
    if MatchAt(t, i).Some? {
      NoStraddle(t, i, p);
      MatchCarriesOver(t, s, i, p);
    }
  }

  lemma MatchCarriesOver(s: string, t: string, i: nat, p: nat)
    requires i < p <= |s| && p <= |t| && s[..p] == t[..p]
    requires MatchAt(s, i).Some? && MatchAt(s, i).value <= p
    ensures MatchAt(t, i) == MatchAt(s, i)
  {
    var n := |CALL|;
    assert forall k | 0 <= k < p :: s[k] == s[..p][k] && t[k] == t[..p][k];
    assert s[i..i + n] == t[i..i + n];
    var open := SkipSpaces(s, i + n);
    assert SkipSpaces(t, i + n) == open;
    assert NextQuote(t, open + 1) == NextQuote(s, open + 1);
  }

  lemma {:induction false} SkipShifts(s: string, i: nat, t: string, j: nat)
    requires i <= |s| && j <= |t| && s[i..] == t[j..]
    ensures SkipSpaces(s, i) - i == SkipSpaces(t, j) - j
    decreases |s| - i
  {
    assert |s| - i == |t| - j;
    if i < |s| {
      assert s[i] == s[i..][0] && t[j] == t[j..][0];
      assert s[i + 1..] == s[i..][1..] && t[j + 1..] == t[j..][1..];
      SkipShifts(s, i + 1, t, j + 1);
    }
  }

  lemma {:induction false} QuoteShifts(s: string, i: nat, t: string, j: nat)
    requires i <= |s| && j <= |t| && s[i..] == t[j..]
    ensures NextQuote(s, i) - i == NextQuote(t, j) - j
    decreases |s| - i
  {
    assert |s| - i == |t| - j;
    if i < |s| {
      assert s[i] == s[i..][0] && t[j] == t[j..][0];
      assert s[i + 1..] == s[i..][1..] && t[j + 1..] == t[j..][1..];
      QuoteShifts(s, i + 1, t, j + 1);
    }
  }

  lemma SuffixShifts(s: string, i: nat, t: string, j: nat, d: nat)
    requires i + d <= |s| && j + d <= |t| && s[i..] == t[j..]
    ensures s[i + d..] == t[j + d..]
  {
    assert s[i + d..] == s[i..][d..] && t[j + d..] == t[j..][d..];
  }

  lemma CharShifts(s: string, i: nat, t: string, j: nat, a: nat, b: nat)
    requires i <= a <= |s| && j <= b <= |t| && a - i == b - j && i <= |s| && j <= |t| && s[i..] == t[j..]
    ensures a < |s| <==> b < |t|
    ensures a < |s| ==> s[a] == t[b]
  {
    assert |s| - i == |s[i..]| == |t[j..]| == |t| - j;
    if a < |s| { assert s[a] == s[i..][a - i] && t[b] == t[j..][b - j]; }
  }

  lemma HasAtShifts(s: string, i: nat, t: string, j: nat, part: string)
    requires i <= |s| && j <= |t| && s[i..] == t[j..]
    ensures HasAt(s, i, part) <==> HasAt(t, j, part)
  {
    var n := |part|;
    assert |s| - i == |s[i..]| == |t[j..]| == |t| - j;
    if i + n <= |s| {
      assert s[i..i + n] == s[i..][..n] && t[j..j + n] == t[j..][..n];
    }
  }

  lemma MatchShifts(s: string, i: nat, t: string, j: nat)
    requires i <= |s| && j <= |t| && s[i..] == t[j..]
    ensures MatchAt(s, i).Some? <==> MatchAt(t, j).Some?
    ensures MatchAt(s, i).Some? ==> MatchAt(t, j).value - j == MatchAt(s, i).value - i
  {
    hide SkipSpaces, NextQuote, HasAt;
    HasAtShifts(s, i, t, j, CALL);
    assert |s| - i == |s[i..]| == |t[j..]| == |t| - j;
    if HasAt(s, i, CALL) {
      HasAtFits(s, i, CALL);
      HasAtFits(t, j, CALL);
      var n := |CALL|;
      SpacesShift(s, i, t, j, n);
      var a := SkipSpaces(s, i + n);
      if a < |s| { LiteralShifts(s, i, t, j, a, SkipSpaces(t, j + n)); }
    }
  }

  lemma SpacesShift(s: string, i: nat, t: string, j: nat, n: nat)
    requires i + n <= |s| && j + n <= |t| && s[i..] == t[j..]
    ensures var a, b := SkipSpaces(s, i + n), SkipSpaces(t, j + n);
            a - i == b - j && (a < |s| <==> b < |t|) && (a < |s| ==> s[a] == t[b])
  {
    hide SkipSpaces, IsSpace;
    SuffixShifts(s, i, t, j, n);
    SkipShifts(s, i + n, t, j + n);
    CharShifts(s, i, t, j, SkipSpaces(s, i + n), SkipSpaces(t, j + n));
  }

  /** The literal opened at a and b ends alike, and so does the character after it. */
  lemma LiteralShifts(s: string, i: nat, t: string, j: nat, a: nat, b: nat)
    requires i <= a < |s| && j <= b < |t| && a - i == b - j && s[i..] == t[j..]
    ensures var c, d := NextQuote(s, a + 1), NextQuote(t, b + 1);
            c - i == d - j && (c + 1 < |s| <==> d + 1 < |t|) && (c + 1 < |s| ==> s[c + 1] == t[d + 1])
  {
    hide NextQuote;
    assert |s| - i == |s[i..]| == |t[j..]| == |t| - j;
    SuffixShifts(s, i, t, j, a + 1 - i);
    QuoteShifts(s, a + 1, t, b + 1);
    var c, d := NextQuote(s, a + 1), NextQuote(t, b + 1);
    if c + 1 < |s| { CharShifts(s, i, t, j, c + 1, d + 1); }
  }

  lemma CanonicalStep(s: string, i: nat)
    requires i < |s|
    ensures Canonical(s, i) == if MatchAt(s, i).Some?
                               then DEFAULT_FRAGMENT + Canonical(s, MatchAt(s, i).value)
                               else [s[i]] + Canonical(s, i + 1)
  {
    hide MatchAt, Fragment;
  }

  /** Equal rests take the same step, and leave equal rests. */
  lemma SameStep(s: string, i: nat, t: string, j: nat)
    requires i < |s| && j <= |t| && s[i..] == t[j..]
    ensures j < |t| && s[i] == t[j] && s[i + 1..] == t[j + 1..]
    ensures MatchAt(s, i).Some? <==> MatchAt(t, j).Some?
    ensures MatchAt(s, i).Some? ==> s[MatchAt(s, i).value..] == t[MatchAt(t, j).value..]
  {
    hide MatchAt, Fragment, HasAt;
    CharShifts(s, i, t, j, i, j);
    SuffixShifts(s, i, t, j, 1);
    MatchShifts(s, i, t, j);
    if MatchAt(s, i).Some? { SuffixShifts(s, i, t, j, MatchAt(s, i).value - i); }
  }

  lemma {:induction false} SameRest(s: string, i: nat, t: string, j: nat)
    requires i <= |s| && j <= |t| && s[i..] == t[j..]
    ensures Canonical(s, i) == Canonical(t, j)
    decreases |s| - i
  {
    hide MatchAt, Fragment, HasAt, Canonical;
    if i < |s| {
      SameStep(s, i, t, j);
      CanonicalStep(s, i);
      CanonicalStep(t, j);
      if MatchAt(s, i).Some? {
        SameRest(s, MatchAt(s, i).value, t, MatchAt(t, j).value);
      } else {
        SameRest(s, i + 1, t, j + 1);
      }
    } else {
      assert |s| - i == |s[i..]| == |t[j..]| == |t| - j;
      NothingLeft(s);
      NothingLeft(t);
    }
  }

  lemma NothingLeft(s: string)
    ensures Canonical(s, |s|) == ""
  {
  }

  /** Up to an occurrence of the call at p, the canonical form depends only on the text before p. */
  function CanonicalHead(s: string, i: nat, p: nat): string
    requires i <= p < |s| && HasAt(s, p, CALL)
    decreases p - i
  {
    if i == p then ""
    else
      match MatchAt(s, i)
      case Some(e) => NoStraddle(s, i, p); DEFAULT_FRAGMENT + CanonicalHead(s, e, p)
      case None => [s[i]] + CanonicalHead(s, i + 1, p)
  }

  lemma HeadStep(s: string, i: nat, p: nat)
    requires i < p < |s| && HasAt(s, p, CALL)
    ensures MatchAt(s, i).Some? ==>
              var e := MatchAt(s, i).value;
              && e <= p && Canonical(s, i) == DEFAULT_FRAGMENT + Canonical(s, e)
              && CanonicalHead(s, i, p) == DEFAULT_FRAGMENT + CanonicalHead(s, e, p)
    ensures MatchAt(s, i).None? ==>
              && Canonical(s, i) == [s[i]] + Canonical(s, i + 1)
              && CanonicalHead(s, i, p) == [s[i]] + CanonicalHead(s, i + 1, p)
  {
    hide MatchAt, HasAt, Fragment, Canonical;
    CanonicalStep(s, i);
    if MatchAt(s, i).Some? { NoStraddle(s, i, p); }
  }

  lemma Regroup(a: string, b: string, c: string)
    ensures a + (b + c) == (a + b) + c
  {
  }

  lemma {:induction false} HeadThenTail(s: string, i: nat, p: nat)
    requires i <= p < |s| && HasAt(s, p, CALL)
    ensures Canonical(s, i) == CanonicalHead(s, i, p) + Canonical(s, p)
    decreases p - i
  {
    if i < p {
      hide *;
      HeadStep(s, i, p);
      match MatchAt(s, i)
      case Some(e) =>
        HeadThenTail(s, e, p);
        Regroup(DEFAULT_FRAGMENT, CanonicalHead(s, e, p), Canonical(s, p));
      case None =>
        HeadThenTail(s, i + 1, p);
        Regroup([s[i]], CanonicalHead(s, i + 1, p), Canonical(s, p));
    }
  }

  lemma {:induction false} SameHead(s: string, t: string, i: nat, p: nat)
    requires i <= p < |s| && p < |t| && s[..p] == t[..p] && HasAt(s, p, CALL) && HasAt(t, p, CALL)
    ensures CanonicalHead(s, i, p) == CanonicalHead(t, i, p)
    decreases p - i
  {
    hide MatchAt, HasAt, Fragment;
    if i < p {
      SameBefore(s, t, i, p);
      assert s[i] == s[..p][i] && t[i] == t[..p][i];
      match MatchAt(s, i)
      case Some(e) =>
        NoStraddle(s, i, p);
        SameHead(s, t, e, p);
      case None =>
        SameHead(s, t, i + 1, p);
    }
  }

  /** What patching does to the text, and where. */
  lemma PatchShape(src: string, url: string) returns (p: nat)
    requires Patch(src, url).Some?
    ensures var patched, f := Patch(src, url).value, Fragment(JsonBody(url));
            && HasAt(src, p, DEFAULT_FRAGMENT) && HasAt(patched, p, f) && src[..p] == patched[..p]
            && src[p + |DEFAULT_FRAGMENT|..] == patched[p + |f|..]
            && HasAt(src, p, CALL) && HasAt(patched, p, CALL) && p < |src| && p < |patched|
  {
    p := Find(src, DEFAULT_FRAGMENT, 0).value;
    var f, patched := Fragment(JsonBody(url)), Patch(src, url).value;
    assert patched[..p] == src[..p] && patched[p..p + |f|] == f;
    assert patched[p + |f|..] == src[p + |DEFAULT_FRAGMENT|..];
    FragmentInText(src, p, DEFAULT_URL);
    FragmentInText(patched, p, JsonBody(url));
  }

  /** What is baked in is the address given: the first default fragment becomes the call with a literal
      whose body reads as exactly that address, and the rest of the source stays. */
  lemma BakedInAddress(src: string, url: string) returns (p: nat, body: string)
    requires Patch(src, url).Some?
    ensures p + |DEFAULT_FRAGMENT| <= |src| && HasAt(src, p, DEFAULT_FRAGMENT)
    ensures forall k | 0 <= k < p :: !HasAt(src, k, DEFAULT_FRAGMENT)
    ensures Patch(src, url).value == src[..p] + (CALL + " \"" + body + "\")") + src[p + |DEFAULT_FRAGMENT|..]
    ensures JsonValue(body) == Some(url)
    ensures Units(body) == Some(CodePoints(url)) <==> forall i | 0 <= i < |url| :: url[i] as int < 0x1_0000
  {
    p := Find(src, DEFAULT_FRAGMENT, 0).value;
    body := JsonBody(url);
    JsonRoundTrip(url);
    PythonRoundTripIff(url);
  }

  /** Patching fails exactly when the source does not hold the default fragment. */
  lemma PatchFailsWhen(src: string, url: string)
    ensures Patch(src, url).None? <==> forall k: nat | k <= |src| :: !HasAt(src, k, DEFAULT_FRAGMENT)
  {
    hide Fragment;
  }

  lemma DefaultHasNoQuote()
    ensures NoQuote(DEFAULT_URL)
  {
  }

  lemma DefaultCanonical(s: string, p: nat, body: string)
    requires HasAt(s, p, Fragment(body)) && NoQuote(body)
    ensures Canonical(s, p) == DEFAULT_FRAGMENT + Canonical(s, p + |Fragment(body)|)
  {
    hide MatchAt, Fragment, HasAt, NoQuote;
    FragmentMatches(s, p, body);
  }

  /** For every source with the default fragment and every address without a
      double quote, patching leaves the canonical form unchanged. */
  lemma PatchUndone(src: string, url: string)
    requires NoQuote(url) && Patch(src, url).Some?
    ensures Canonical(Patch(src, url).value, 0) == Canonical(src, 0)
  {
    hide Patch, HasAt, Fragment, CanonicalHead, Canonical, NoQuote;
    var p := PatchShape(src, url);
    var patched := Patch(src, url).value;
    JsonBodyHasNoQuote(url);
    HeadThenTail(src, 0, p);
    HeadThenTail(patched, 0, p);
    SameHead(src, patched, 0, p);
    DefaultHasNoQuote();
    DefaultCanonical(src, p, DEFAULT_URL);
    DefaultCanonical(patched, p, JsonBody(url));
    SameRest(src, p + |DEFAULT_FRAGMENT|, patched, p + |Fragment(JsonBody(url))|);
  }

  // ----------------------------------------------- and only without a quote

  /** Every quote inside a JSON string body is escaped. */
  ghost predicate QuotesEscaped(b: string) {
    forall k | 0 <= k < |b| && b[k] == '"' :: k > 0 && b[k - 1] == '\\'
  }

  lemma {:induction false} JsonBodyQuotes(s: string)
    ensures QuotesEscaped(JsonBody(s)) && (NoQuote(JsonBody(s)) ==> NoQuote(s))
  {
    if s != "" {
      var head, tail := Escape(s[0]), JsonBody(s[1..]);
      JsonBodyQuotes(s[1..]);
      if s[0] != '"' { EscapeHasNoQuote(s[0]); }
      var b := head + tail;
      forall k | 0 <= k < |b| && b[k] == '"' ensures k > 0 && b[k - 1] == '\\' {
        if k >= |head| { assert b[k] == tail[k - |head|]; }
      }
      if s[0] == '"' { assert b[1] == '"'; }
      if NoQuote(b) {
        assert forall k | 0 <= k < |head| :: head[k] == b[k];
        assert forall k | 0 <= k < |tail| :: tail[k] == b[|head| + k];
        assert forall k | 1 <= k < |s| :: s[k] == s[1..][k - 1];
      }
    }
  }

  /** The call never starts inside a literal body or its closing `")`. */
  lemma NoCallInLiteral(s: string, x: nat, body: string, k: nat)
    requires QuotesEscaped(body) && HasAt(s, x, body + "\")") && x <= k < x + |body| + 2
    ensures !HasAt(s, k, CALL)
  {
    var lit := body + "\")";
    if HasAt(s, k, CALL) {
      CallFacts();
      var m := k - x;
      CharAt(s, k, CALL, 0);
      CharAt(s, k, CALL, 9);
      CharAt(s, k, CALL, 10);
      CharAt(s, k, CALL, 11);
      if m + 10 < |lit| { CharAt(s, x, lit, m + 10); CharAt(s, x, lit, m + 9); }
      if m + 11 < |lit| { CharAt(s, x, lit, m + 11); }
      if m <= |body| && |body| < m + 10 { CharAt(s, x, lit, |body|); CharAt(s, k, CALL, |body| - m); }
      if m == |body| + 1 { CharAt(s, x, lit, m); }
    }
  }

  lemma CopiedOne(s: string, i: nat)
    requires i < |s| && !HasAt(s, i, CALL)
    ensures Canonical(s, i) == [s[i]] + Canonical(s, i + 1)
  {
    hide HasAt;
  }

  /** Where the call starts nowhere, the canonical form copies the text. */
  lemma {:induction false} Copied(s: string, lo: nat, hi: nat)
    requires lo <= hi <= |s| && forall k | lo <= k < hi :: !HasAt(s, k, CALL)
    ensures Canonical(s, lo) == s[lo..hi] + Canonical(s, hi)
    decreases hi - lo
  {
    hide HasAt, Canonical;
    if lo < hi {
      CopiedOne(s, lo);
      Copied(s, lo + 1, hi);
      assert s[lo..hi] == [s[lo]] + s[lo + 1..hi];
    }
  }

  /** With a quote in the literal, the fragment at p never canonicalises to the default one. */
  lemma QuotedFragmentDiffers(s: string, p: nat, body: string)
    requires HasAt(s, p, Fragment(body)) && QuotesEscaped(body) && !NoQuote(body)
    ensures p + |Fragment(body)| <= |s|
    ensures Canonical(s, p) != DEFAULT_FRAGMENT + Canonical(s, p + |Fragment(body)|)
  {
    if MatchAt(s, p).Some? {
      MatchedQuotedDiffers(s, p, body);
    } else {
      UnmatchedQuotedDiffers(s, p, body);
    }
  }

  lemma NoCallAfterStart(s: string, p: nat, body: string)
    requires HasAt(s, p, Fragment(body)) && QuotesEscaped(body)
    ensures forall k | p < k < p + |Fragment(body)| :: !HasAt(s, k, CALL)
  {
    FragmentInText(s, p, body);
    FragmentShape(body);
    var x := p + |CALL| + 2;
    forall k | p < k < p + |Fragment(body)| ensures !HasAt(s, k, CALL) {
      if k < x { NoCallJustAfter(s, p, body, k); } else { NoCallInLiteral(s, x, body, k); }
    }
  }

  lemma MatchedQuotedDiffers(s: string, p: nat, body: string)
    requires HasAt(s, p, Fragment(body)) && QuotesEscaped(body) && !NoQuote(body) && MatchAt(s, p).Some?
    ensures Canonical(s, p) != DEFAULT_FRAGMENT + Canonical(s, p + |Fragment(body)|)
  {
    hide MatchAt, Fragment, NoQuote, QuotesEscaped;
    var e, end := MatchAt(s, p).value, p + |Fragment(body)|;
    MatchEndsInside(s, p, body);
    NoCallAfterStart(s, p, body);
    assert Canonical(s, p) == DEFAULT_FRAGMENT + Canonical(s, e);
    Copied(s, e, end);
    assert |s[e..end]| == end - e > 0;
  }

  lemma UnmatchedQuotedDiffers(s: string, p: nat, body: string)
    requires HasAt(s, p, Fragment(body)) && QuotesEscaped(body) && !NoQuote(body) && MatchAt(s, p).None?
    ensures Canonical(s, p) != DEFAULT_FRAGMENT + Canonical(s, p + |Fragment(body)|)
  {
    hide Canonical, Fragment, NoQuote, QuotesEscaped;
    var end := p + |Fragment(body)|;
    QuotedIsNotDefault(body);
    UnmatchedIsCopied(s, p, body);
    if Fragment(body) + Canonical(s, end) == DEFAULT_FRAGMENT + Canonical(s, end) {
      SamePrefix(Fragment(body), DEFAULT_FRAGMENT, Canonical(s, end));
    }
  }

  lemma FragmentText(s: string, p: nat, body: string)
    requires HasAt(s, p, Fragment(body))
    ensures p < p + |Fragment(body)| <= |s| && s[p..p + |Fragment(body)|] == Fragment(body)
  {
    FragmentShape(body);
  }

  lemma UnmatchedIsCopied(s: string, p: nat, body: string)
    requires HasAt(s, p, Fragment(body)) && QuotesEscaped(body) && MatchAt(s, p).None?
    ensures Canonical(s, p) == Fragment(body) + Canonical(s, p + |Fragment(body)|)
  {
    hide NoQuote, QuotesEscaped, MatchAt, HasAt, Fragment, Canonical;
    var end := p + |Fragment(body)|;
    FragmentText(s, p, body);
    NoCallAfterStart(s, p, body);
    Copied(s, p + 1, end);
    CanonicalStep(s, p);
    Regroup([s[p]], s[p + 1..end], Canonical(s, end));
    assert [s[p]] + s[p + 1..end] == s[p..end];
  }

  lemma QuotedIsNotDefault(body: string)
    requires !NoQuote(body)
    ensures Fragment(body) != DEFAULT_FRAGMENT
  {
    FragmentShape(body);
    FragmentShape(DEFAULT_URL);
    assert NoQuote(DEFAULT_URL);
    if |body| == |DEFAULT_URL| {
      var n := |CALL|;
      assert Fragment(body)[n + 2..n + 2 + |body|] == body;
    }
  }

  lemma SamePrefix(a: string, b: string, c: string)
    requires a + c == b + c
    ensures a == b
  {
    assert |a + c| == |b + c|;
    assert a == (a + c)[..|a|] && b == (b + c)[..|b|];
  }

  lemma NoCallJustAfter(s: string, p: nat, body: string, k: nat)
    requires HasAt(s, p, Fragment(body)) && p < k < p + |CALL| + 2
    ensures !HasAt(s, k, CALL)
  {
    FragmentInText(s, p, body);
    CallFacts();
    if HasAt(s, k, CALL) {
      CharAt(s, k, CALL, 0);
      if k < p + |CALL| { CharAt(s, p, CALL, k - p); }
    }
  }

  /** A match at p ends at the first escaped quote, short of the fragment's end. */
  lemma MatchEndsInside(s: string, p: nat, body: string)
    requires HasAt(s, p, Fragment(body)) && !NoQuote(body) && MatchAt(s, p).Some?
    ensures p + |CALL| + 2 <= MatchAt(s, p).value < p + |Fragment(body)|
  {
    FragmentInText(s, p, body);
    FragmentShape(body);
    var n := |CALL|;
    assert SkipSpaces(s, p + n) == p + n + 1;
    var k :| 0 <= k < |body| && body[k] == '"';
    CharAt(s, p + n + 2, body, k);
    assert NextQuote(s, p + n + 2) <= p + n + 2 + k;
  }

  /** The canonical form survives patching exactly when the address has no double quote. */
  lemma PatchUndoneIffNoQuote(src: string, url: string)
    requires Patch(src, url).Some?
    ensures Canonical(Patch(src, url).value, 0) == Canonical(src, 0) <==> NoQuote(url)
  {
    hide Patch, HasAt, Fragment, CanonicalHead, Canonical, NoQuote;
    if NoQuote(url) {
      PatchUndone(src, url);
    } else {
      var p := PatchShape(src, url);
      var patched := Patch(src, url).value;
      JsonBodyQuotes(url);
      HeadThenTail(src, 0, p);
      HeadThenTail(patched, 0, p);
      SameHead(src, patched, 0, p);
      DefaultHasNoQuote();
      DefaultCanonical(src, p, DEFAULT_URL);
      QuotedFragmentDiffers(patched, p, JsonBody(url));
      SameRest(src, p + |DEFAULT_FRAGMENT|, patched, p + |Fragment(JsonBody(url))|);
      var head, a, b := CanonicalHead(src, 0, p), Canonical(src, p), Canonical(patched, p);
      assert a == (head + a)[|head|..] && b == (head + b)[|head|..];
    }
  }

  /** So an agent patched with such an address reports the version of the shipped source. */
  lemma PatchKeepsVersion(src: string, url: string, hash: string -> string)
    requires NoQuote(url) && Patch(src, url).Some?
    ensures AgentVersion(Patch(src, url).value, hash) == AgentVersion(src, hash)
  {
    PatchUndone(src, url);
  }

  /** Two different canonical forms that the truncated hash does not tell apart. */
  ghost predicate VersionCollision(a: string, b: string, hash: string -> string) {
    Canonical(a, 0) != Canonical(b, 0) && AgentVersion(a, hash) == AgentVersion(b, hash)
  }

  /** The version survives patching exactly when the address has no double
      quote, or the truncated hash collides on the two canonical forms. */
  lemma PatchKeepsVersionIff(src: string, url: string, hash: string -> string)
    requires Patch(src, url).Some?
    ensures var patched := Patch(src, url).value;
            AgentVersion(patched, hash) == AgentVersion(src, hash)
            <==> NoQuote(url) || VersionCollision(patched, src, hash)
  {
    hide Patch, Canonical, NoQuote;
    PatchUndoneIffNoQuote(src, url);
  }
}
