/** Printing a relay configuration as an SSH jump hop (backend/relay.py) and
    parsing a hop back (backend/remote_routes.py, _parse_jump_hop). */
module JumpHop {
  import opened Common
  import Decimal

  const DEFAULT_USER := "sysible-relay"

  predicate IsAlnum(c: char) { '0' <= c <= '9' || 'A' <= c <= 'Z' || 'a' <= c <= 'z' }
  predicate IsNameChar(c: char) { IsAlnum(c) || c == '.' || c == '_' || c == '-' }
  predicate IsUserChar(c: char) { IsNameChar(c) || c == '%' || c == '+' }
  predicate IsV6Char(c: char) { '0' <= c <= '9' || 'A' <= c <= 'F' || 'a' <= c <= 'f' || c == ':' }

  /** The end of the longest run of such characters from i. */
  function Span(s: string, i: nat, p: char -> bool): (j: nat)
    requires i <= |s|
    ensures i <= j <= |s| && (forall k | i <= k < j :: p(s[k])) && (j < |s| ==> !p(s[j]))
    decreases |s| - i
  {
    if i < |s| && p(s[i]) then Span(s, i + 1, p) else i
  }

  // ------------------------------------------------------------- valid_jump

  /** The end of the optional user@ group. */
  function UserEnd(s: string): (i: nat)
    ensures i <= |s|
    ensures i > 0 ==> s[i - 1] == '@' && forall k | 0 <= k < i - 1 :: IsUserChar(s[k])
  {
    var i := Span(s, 0, IsUserChar);
    if 0 < i < |s| && s[i] == '@' then i + 1 else 0
  }

  /** The end of the host: [ipv6] or a name. */
  function HostEnd(t: string): (r: Option<nat>)
    ensures r.Some? ==> 0 < r.value <= |t|
  {
    if t != "" && t[0] == '[' then
      var j := Span(t, 1, IsV6Char);
      if 1 < j < |t| && t[j] == ']' then Some(j + 1) else None
    else
      var j := Span(t, 0, IsNameChar);
      if j > 0 then Some(j) else None
  }

  /** The end of the optional :port group of one to five digits. */
  function PortEnd(t: string, j: nat): (k: nat)
    requires j <= |t|
    ensures j <= k <= |t|
  {
    if j < |t| && t[j] == ':' then
      var k := Span(t, j + 1, Decimal.IsDigit);
      if 1 <= k - (j + 1) <= 5 then k else j
    else j
  }

  /** "$" also matches before a final newline. */
  predicate AtEnd(t: string, k: nat) { k == |t| || (k + 1 == |t| && t[k] == '\n') }

  predicate TailMatches(t: string) {
    HostEnd(t).Some? && AtEnd(t, PortEnd(t, HostEnd(t).value))
  }

  function LastColon(s: string): int
    ensures -1 <= LastColon(s) < |s|
    ensures LastColon(s) >= 0 ==> s[LastColon(s)] == ':'
    ensures forall k | LastColon(s) < k < |s| :: s[k] != ':'
  {
    if s == "" then -1 else if s[|s| - 1] == ':' then |s| - 1 else LastColon(s[..|s| - 1])
  }

  predicate PortInRange(s: string) {
    var tail := s[LastColon(s) + 1..];
    LastColon(s) >= 0 && tail != "" && Decimal.AllDigits(tail) ==> 1 <= Decimal.Value(tail) <= 65535
  }

  predicate ValidJump(s: string) {
    && s != "" && s[0] != '-'
    && TailMatches(s[UserEnd(s)..])
    && PortInRange(s)
  }

  ghost predicate HostAt(s: string, i: nat, j: nat)
    requires i <= j <= |s|
  {
    || (j - i >= 3 && s[i] == '[' && s[j - 1] == ']' && forall k | i < k < j - 1 :: IsV6Char(s[k]))
    || (j > i && forall k | i <= k < j :: IsNameChar(s[k]))
  }

  /** The expression itself: an optional user@ up to i, a host up to j, an optional port of one to
      five digits up to k, and at most one newline after it. */
  ghost predicate Expression(s: string, i: nat, j: nat, k: nat) {
    && i <= j <= k <= |s|
    && (i == 0 || (i >= 2 && s[i - 1] == '@' && forall l | 0 <= l < i - 1 :: IsUserChar(s[l])))
    && HostAt(s, i, j)
    && (k == j || (2 <= k - j <= 6 && s[j] == ':' && forall l | j < l < k :: Decimal.IsDigit(s[l])))
    && (k == |s| || (k + 1 == |s| && s[k] == '\n'))
  }

  // --------------------------------------------------- resolve_ssh_proxy

  /** None stands for a value that int() refuses. */
  function CoercePort(port: Option<int>): (p: int)
    ensures 1 <= p <= 65535
    ensures port.Some? && 1 <= port.value <= 65535 ==> p == port.value
    ensures port.None? || !(1 <= port.value <= 65535) ==> p == 22
  {
    if port.Some? && 1 <= port.value <= 65535 then port.value else 22
  }

  function UserOf(user: string): string { if user == "" then DEFAULT_USER else user }

  function PortPart(p: int): string
    requires p >= 0
  {
    if p != 22 then ":" + Decimal.ToString(p) else ""
  }

  function Tail(host: string, port: Option<int>): string { host + PortPart(CoercePort(port)) }

  /** The jump emitted for a host that is to be routed; None is a direct connection. */
  function ResolveJump(host: string, user: string, port: Option<int>): Option<string> {
    if host == "" then None
    else
      var jump := UserOf(user) + "@" + Tail(host, port);
      if ValidJump(jump) then Some(jump) else None
  }

  // ------------------------------------------------------ _parse_jump_hop

  datatype Parsed = Hop(user: Option<string>, host: string, port: int) | Raises

  function Find(s: string, c: char): (i: nat)
    ensures i <= |s| && (forall k | 0 <= k < i :: s[k] != c) && (i < |s| ==> s[i] == c)
  {
    if s == "" || s[0] == c then 0 else 1 + Find(s[1..], c)
  }

  /** The string without one final newline. */
  function Chomp(s: string): string { if s != "" && s[|s| - 1] == '\n' then s[..|s| - 1] else s }

  /** int(): of the spellings it takes besides digits, a hop that passed the check can
      hold only a final newline. */
  function WithPort(user: Option<string>, host: string, text: string): Parsed {
    var digits := Chomp(text);
    if digits != "" && Decimal.AllDigits(digits) then Hop(user, host, Decimal.Value(digits)) else Raises
  }

  function ParseTail(user: Option<string>, t: string): Parsed {
    if t != "" && t[0] == '[' then
      var end := Find(t, ']');
      if end == |t| then Hop(user, if |t| >= 2 then t[1..|t| - 1] else "", 22)
      else
        var rest := t[end + 1..];
        if rest != "" && rest[0] == ':' then WithPort(user, t[1..end], rest[1..]) else Hop(user, t[1..end], 22)
    else if LastColon(t) >= 0 then WithPort(user, t[..LastColon(t)], t[LastColon(t) + 1..])
    else Hop(user, t, 22)
  }

  function Parse(hop: string): Parsed {
    var at := Find(hop, '@');
    if at < |hop| then ParseTail(Some(hop[..at]), hop[at + 1..]) else ParseTail(None, hop)
  }

  // ------------------------------------------------------------ the proofs

  /** What the expression lets through after the user: a host, then nothing or a port. */
  ghost predicate TailShape(t: string, j: nat) {
    && 0 < j <= |t|
    && (if t[0] == '[' then j >= 3 && t[j - 1] == ']' && forall k | 1 <= k < j - 1 :: IsV6Char(t[k])
        else forall k | 0 <= k < j :: IsNameChar(t[k]))
    && (j < |t| ==> t[j] == ':' && |t| >= j + 2 && Decimal.AllDigits(t[j + 1..]))
  }

  lemma MatchShape(t: string)
    requires TailMatches(t)
    ensures HostEnd(t).Some? && TailShape(Chomp(t), HostEnd(t).value)
  {
    var c := Chomp(t);
    var j := HostEnd(t).value;
    var k := PortEnd(t, j);
    assert k == |c|;
    if j < |c| {
      var port := c[j + 1..];
      forall m | 0 <= m < |port| ensures Decimal.IsDigit(port[m]) { assert port[m] == t[j + 1 + m]; }
    }
  }

  lemma PortDigits(t: string, j: nat)
    requires TailShape(t, j)
    ensures forall k | j < k < |t| :: Decimal.IsDigit(t[k])
  {
    forall k | j < k < |t| ensures Decimal.IsDigit(t[k]) { assert t[k] == t[j + 1..][k - (j + 1)]; }
  }

  lemma ShapeColon(t: string, j: nat)
    requires TailShape(t, j) && j < |t|
    ensures LastColon(t) == j
  {
    PortDigits(t, j);
  }

  ghost function PortOf(t: string, j: nat): int
    requires TailShape(t, j)
  {
    if j < |t| then Decimal.Value(t[j + 1..]) else 22
  }

  lemma ParseBracketed(user: Option<string>, t: string, j: nat)
    requires TailShape(Chomp(t), j) && t[0] == '['
    ensures ParseTail(user, t) == Hop(user, t[1..j - 1], PortOf(Chomp(t), j))
  {
    hide Decimal.Value, LastColon;
    var c := Chomp(t);
    assert forall k | 0 <= k < |c| :: c[k] == t[k];
    assert Find(t, ']') == j - 1;
    assert t[j - 1 + 1..] == t[j..];
    if j < |c| {
      assert t[j..][1..] == t[j + 1..];
      ChompSuffix(t, j + 1);
    }
  }

  lemma ParseNamed(user: Option<string>, t: string, j: nat)
    requires TailShape(Chomp(t), j) && t[0] != '['
    ensures ParseTail(user, t) == Hop(user, if j < |Chomp(t)| then t[..j] else t, PortOf(Chomp(t), j))
  {
    hide Decimal.Value, Find;
    var c := Chomp(t);
    assert forall k | 0 <= k < |c| :: c[k] == t[k];
    PortDigits(c, j);
    if j < |c| {
      assert LastColon(t) == j;
      ChompSuffix(t, j + 1);
    } else {
      assert LastColon(t) == -1;
    }
  }

  /** A hop of the right shape parses, and to this. */
  lemma ParseShape(user: Option<string>, t: string, j: nat)
    requires TailShape(Chomp(t), j)
    ensures var r := ParseTail(user, t);
            && r.Hop? && r.user == user && r.port == PortOf(Chomp(t), j)
            && (Chomp(t) == t ==> r.host == if t[0] == '[' then t[1..j - 1] else t[..j])
  {
    hide ParseTail, PortOf, Decimal.Value;
    if t[0] == '[' {
      ParseBracketed(user, t, j);
    } else {
      ParseNamed(user, t, j);
      if j == |t| { assert t[..j] == t; }
    }
  }

  lemma ChompSuffix(t: string, n: nat)
    requires n < |Chomp(t)|
    ensures Chomp(t[n..]) == Chomp(t)[n..]
  {
    assert t[n..][|t| - n - 1] == t[|t| - 1];
  }

  /** What follows the user group holds no "@". */
  lemma NoAtAfterUser(s: string)
    requires TailMatches(s[UserEnd(s)..])
    ensures forall k | UserEnd(s) <= k < |s| :: s[k] != '@'
  {
    hide UserEnd, TailMatches;
    var i := UserEnd(s);
    var rest := s[i..];
    MatchShape(rest);
    var c := Chomp(rest);
    PortDigits(c, HostEnd(rest).value);
    forall k | i <= k < |s| ensures s[k] != '@' {
      assert s[k] == rest[k - i];
      if k - i < |c| { assert rest[k - i] == c[k - i]; }
    }
  }

  /** In an emitted hop the user group ends at the separator the resolver printed. */
  lemma UserIsFirst(user: string, t: string)
    requires TailMatches((user + "@" + t)[UserEnd(user + "@" + t)..])
    ensures var s := user + "@" + t;
            UserEnd(s) == |user| + 1 && s[|user| + 1..] == t && Find(s, '@') == |user| && s[..|user|] == user
  {
    hide TailMatches, UserEnd, Find;
    var s := user + "@" + t;
    assert s[|user|] == '@';
    NoAtAfterUser(s);
  }

  lemma LastColonOfTail(s: string, t: string, n: nat)
    requires n <= |s| && s[n..] == t && LastColon(t) >= 0
    ensures LastColon(s) == n + LastColon(t) && s[LastColon(s) + 1..] == t[LastColon(t) + 1..]
  {
    assert forall k | 0 <= k < |t| :: t[k] == s[n + k];
    forall k | n + LastColon(t) < k < |s| ensures s[k] != ':' { assert s[k] == t[k - n]; }
    assert s[n + LastColon(t)] == ':';
  }

  /** The range test of valid_jump looks at exactly the port that will be read. */
  lemma RangeOfShape(s: string, n: nat, j: nat)
    requires n <= |s| && TailShape(s[n..], j) && forall k | 0 <= k < n :: s[k] != ':'
    ensures PortInRange(s) <==> 1 <= PortOf(s[n..], j) <= 65535
  {
    hide Decimal.Value;
    var t := s[n..];
    assert forall k | 0 <= k < |t| :: t[k] == s[n + k];
    if j < |t| {
      ShapeColon(t, j);
      LastColonOfTail(s, t, n);
    } else if LastColon(s) >= 0 {
      var tail := s[LastColon(s) + 1..];
      assert s[LastColon(s)] == t[LastColon(s) - n];
      assert tail[|tail| - 1] == t[j - 1];
    }
  }

  /** The two ways a checked hop is taken apart coincide. */
  lemma ParseSplits(s: string)
    requires s != "" && TailMatches(s[UserEnd(s)..])
    ensures var u := UserEnd(s);
            Parse(s) == ParseTail(if u > 0 then Some(s[..u - 1]) else None, s[u..])
  {
    hide UserEnd, TailMatches, ParseTail, Find;
    NoAtAfterUser(s);
    var u := UserEnd(s);
    var at := Find(s, '@');
    if u > 0 {
      assert s[u - 1] == '@';
      assert at == u - 1;
    } else {
      assert at == |s|;
      assert s[0..] == s;
    }
  }

  lemma ChompTail(s: string, n: nat)
    requires n <= |s| && Chomp(s[n..]) != ""
    ensures n <= |Chomp(s)| && Chomp(s)[n..] == Chomp(s[n..])
  {
    assert s[n..][|s| - n - 1] == s[|s| - 1];
  }

  lemma UserHasNoColon(s: string)
    ensures forall k | 0 <= k < UserEnd(s) :: s[k] != ':'
  {
  }

  /** Parsing a hop that passed the check never raises, and the port it gives lies in
      1..65535 if and only if the hop without its final newline passes the range test:
      always, when the hop does not end in a newline. */
  lemma CheckedHopParses(s: string)
    requires ValidJump(s)
    ensures Parse(s).Hop?
    ensures 1 <= Parse(s).port <= 65535 <==> PortInRange(Chomp(s))
    ensures s[|s| - 1] != '\n' ==> 1 <= Parse(s).port <= 65535
  {
    hide UserEnd, TailMatches, ParseTail, Parse, HostEnd, LastColon, PortOf, PortInRange, Decimal.Value,
      IsNameChar, IsV6Char;
    var u := UserEnd(s);
    var t := s[u..];
    ParseSplits(s);
    MatchShape(t);
    var j := HostEnd(t).value;
    assert Chomp(t) != "";
    ParseShape(if u > 0 then Some(s[..u - 1]) else None, t, j);
    ChompTail(s, u);
    UserHasNoColon(s);
    assert forall k | 0 <= k < u :: Chomp(s)[k] == s[k];
    RangeOfShape(Chomp(s), u, j);
  }

  lemma ValueOfNines()
    ensures Decimal.AllDigits("99999") && Decimal.Value("99999") == 99999
  {
    assert "99999"[..4] == "9999" && "9999"[..3] == "999" && "999"[..2] == "99" && "99"[..1] == "9" && "9"[..0] == "";
  }

  lemma NewlineIsValid(s: string)
    requires s == "h:99999\n"
    ensures ValidJump(s)
  {
    hide Decimal.Value;
    assert UserEnd(s) == 0 && s[0..] == s;
    assert s[1] == ':' && s[7] == '\n' && forall k | 2 <= k < 7 :: s[k] == '9';
    assert Span(s, 0, IsNameChar) == 1;
    assert Span(s, 2, Decimal.IsDigit) == 7;
    assert LastColon(s) == 1;
    assert s[2..][5] == '\n';
  }

  lemma NinesOutOfRange(c: string)
    requires c == "h:" + "99999"
    ensures !PortInRange(c)
  {
    ValueOfNines();
    hide Decimal.Value, LastColon;
    assert c[2..] == "99999";
    assert c[1] == ':' && forall k | 2 <= k < |c| :: c[k] == c[2..][k - 2];
  }

  /** The newline is a real exception: some hop passes the check and names port 99999. */
  lemma NewlineHidesThePort() returns (hop: string)
    ensures ValidJump(hop) && Parse(hop).Hop? && !(1 <= Parse(hop).port <= 65535)
  {
    hide Parse, ValidJump, PortInRange;
    hop := "h:99999\n";
    NewlineIsValid(hop);
    var c := "h:" + "99999";
    assert |c| == 7 && hop[..7] == c;
    assert Chomp(hop) == c;
    NinesOutOfRange(c);
    CheckedHopParses(hop);
  }

  ghost predicate Stripped(s: string) { s == "" || s[|s| - 1] != '\n' }

  lemma TailEnds(host: string, port: Option<int>)
    requires host != "" && Stripped(host)
    ensures Tail(host, port) != "" && Tail(host, port)[|Tail(host, port)| - 1] != '\n'
  {
    var t, p := Tail(host, port), PortPart(CoercePort(port));
    if p != "" { assert t[|t| - 1] == p[|p| - 1] == Decimal.ToString(CoercePort(port))[|p| - 2]; }
  }

  lemma EmittedShape(host: string, user: string, port: Option<int>)
    requires Stripped(host) && ResolveJump(host, user, port).Some?
    ensures var t := Tail(host, port);
            && host != "" && t != "" && Chomp(t) == t && HostEnd(t).Some? && TailShape(t, HostEnd(t).value)
            && Parse(ResolveJump(host, user, port).value) == ParseTail(Some(UserOf(user)), t)
  {
    hide Tail, TailMatches, TailShape, PortInRange, UserEnd, ParseTail, UserOf;
    var t := Tail(host, port);
    TailEnds(host, port);
    UserIsFirst(UserOf(user), t);
    MatchShape(t);
  }

  /** Every emitted hop parses without an exception, with a port in 1..65535. */
  lemma EmittedHopParses(host: string, user: string, port: Option<int>)
    requires Stripped(host) && ResolveJump(host, user, port).Some?
    ensures var r := Parse(ResolveJump(host, user, port).value);
            r.Hop? && 1 <= r.port <= 65535
  {
    hide Tail, UserOf, ValidJump, Parse;
    var t, s := Tail(host, port), ResolveJump(host, user, port).value;
    TailEnds(host, port);
    assert s[|s| - 1] == t[|t| - 1];
    CheckedHopParses(s);
  }

  /** No port of its own: no colon, or a bracketed literal and nothing after it. */
  ghost predicate NoOwnPort(host: string) {
    ':' !in host || Bracketed(host)
  }

  predicate Bracketed(host: string) { |host| >= 2 && host[0] == '[' && host[|host| - 1] == ']' }

  function Unbracketed(host: string): string { if Bracketed(host) then host[1..|host| - 1] else host }

  /** The host part of the match is the configured host. */
  lemma HostIsWhole(host: string, port: Option<int>, j: nat)
    requires host != "" && NoOwnPort(host) && TailShape(Tail(host, port), j)
    ensures j == |host|
  {
    var t, p := Tail(host, port), PortPart(CoercePort(port));
    PortDigits(t, j);
    assert forall k | 0 <= k < |host| :: t[k] == host[k] && host[k] in host;
    assert t[|host|..] == p;
    assert ':' !in host || t[|host| - 1] == ']';
    forall k | |host| <= k < |t| ensures if k == |host| then t[k] == ':' else Decimal.IsDigit(t[k]) {
      assert t[k] == p[k - |host|];
    }
    assert |t| > |host| ==> t[|host|] == ':';
  }

  /** The pieces of the printed tail are the configured values. */
  lemma TailPieces(host: string, port: Option<int>)
    requires host != ""
    ensures var t, p := Tail(host, port), CoercePort(port);
            && t[0] == host[0] && t[..|host|] == host && (p == 22 <==> t == host)
            && (p != 22 ==> |t| > |host| && Decimal.Value(t[|host| + 1..]) == p)
  {
    hide Decimal.Value, Decimal.ToString, CoercePort;
    var t, p := Tail(host, port), CoercePort(port);
    Decimal.RoundTrip(p);
    if p != 22 {
      var d := ":" + Decimal.ToString(p);
      assert t == host + d && d[1..] == Decimal.ToString(p);
      assert t[|host| + 1..] == d[1..];
    } else {
      assert t == host;
    }
  }

  /** Parsing an emitted hop gives back exactly the configured user, unbracketed
      host and port, if and only if the relay host carries no port of its own. */
  lemma PrintThenParse(host: string, user: string, port: Option<int>)
    requires Stripped(host) && ResolveJump(host, user, port).Some?
    ensures Parse(ResolveJump(host, user, port).value) == Hop(Some(UserOf(user)), Unbracketed(host), CoercePort(port))
            <==> NoOwnPort(host)
  {
    hide ResolveJump, Parse, ParseTail, HostEnd, Span, TailShape, UserOf, Tail, NoOwnPort, Decimal.Value,
      Unbracketed, CoercePort, Stripped, PortPart, Chomp;
    EmittedShape(host, user, port);
    var t := Tail(host, port);
    var j := HostEnd(t).value;
    ParseShape(Some(UserOf(user)), t, j);
    TailPieces(host, port);
    if NoOwnPort(host) {
      HostIsWhole(host, port, j);
      BracketsMatch(host, port, j);
    } else {
      HostIsCut(host, t, j);
    }
  }

  lemma BracketsMatch(host: string, port: Option<int>, j: nat)
    requires host != "" && TailShape(Tail(host, port), j) && j == |host|
    ensures Unbracketed(host) == if Tail(host, port)[0] == '[' then Tail(host, port)[1..j - 1] else host
  {
    var t := Tail(host, port);
    assert t[0] == host[0] && t[j - 1] == host[j - 1];
    if host[0] == '[' { assert t[1..j - 1] == host[1..j - 1]; }
  }

  /** A colon outside brackets is never part of the host that is read back. */
  lemma HostIsCut(host: string, t: string, j: nat)
    requires !NoOwnPort(host) && TailShape(t, j) && t[0] == host[0]
    ensures (if t[0] == '[' then t[1..j - 1] else t[..j]) != Unbracketed(host)
  {
    var r := if t[0] == '[' then t[1..j - 1] else t[..j];
    assert Unbracketed(host) == host && ':' in host;
    if t[0] == '[' {
      assert forall k | 0 <= k < |r| :: r[k] == t[k + 1] && IsV6Char(r[k]);
    } else {
      assert forall k | 0 <= k < |r| :: r[k] == t[k] && IsNameChar(r[k]);
    }
  }

  // ------------------------------------------- what the check lets through

  lemma ScanIsExpression(s: string)
    requires s != "" && TailMatches(s[UserEnd(s)..])
    ensures exists i: nat, j: nat, k: nat :: Expression(s, i, j, k)
  {
    hide UserEnd, HostEnd, PortEnd, IsNameChar, IsV6Char, IsUserChar, Decimal.IsDigit;
    var i := UserEnd(s);
    var t := s[i..];
    var j := HostEnd(t).value;
    var k := PortEnd(t, j);
    assert forall l | 0 <= l < |t| :: t[l] == s[i + l];
    UserEndShape(s);
    HostEndShape(t);
    PortEndShape(t, j);
    HostShifts(s, i, j);
    PortShifts(s, i, j, k);
    assert Expression(s, i, i + j, i + k);
  }

  lemma UserEndShape(s: string)
    ensures var i := UserEnd(s);
            i == 0 || (i >= 2 && s[i - 1] == '@' && forall l | 0 <= l < i - 1 :: IsUserChar(s[l]))
  {
  }

  lemma HostEndShape(t: string)
    requires HostEnd(t).Some?
    ensures HostAt(t, 0, HostEnd(t).value)
  {
  }

  ghost predicate PortAt(t: string, j: nat, k: nat)
    requires j <= k <= |t|
  {
    k == j || (2 <= k - j <= 6 && t[j] == ':' && forall l | j < l < k :: Decimal.IsDigit(t[l]))
  }

  lemma PortEndShape(t: string, j: nat)
    requires j <= |t|
    ensures PortAt(t, j, PortEnd(t, j))
  {
  }

  lemma HostShifts(s: string, i: nat, j: nat)
    requires i <= |s| && j <= |s| - i
    ensures HostAt(s[i..], 0, j) <==> HostAt(s, i, i + j)
  {
    var t := s[i..];
    assert forall l | 0 <= l < |t| :: t[l] == s[i + l];
    if HostAt(s[i..], 0, j) { assert forall l | i <= l < |s| :: s[l] == t[l - i]; }
  }

  lemma PortShifts(s: string, i: nat, j: nat, k: nat)
    requires i <= |s| && j <= k <= |s| - i
    ensures PortAt(s[i..], j, k) <==> PortAt(s, i + j, i + k)
  {
    var t := s[i..];
    assert forall l | 0 <= l < |t| :: t[l] == s[i + l];
    assert forall l | i <= l < |s| :: s[l] == t[l - i];
  }

  lemma HostAndPortEnd(t: string, j: nat, k: nat)
    requires j <= k <= |t| && HostAt(t, 0, j) && PortAt(t, j, k) && AtEnd(t, k)
    ensures TailMatches(t)
  {
    if t[0] == '[' {
      assert Span(t, 1, IsV6Char) == j - 1;
    } else {
      assert Span(t, 0, IsNameChar) == j;
    }
    if k > j {
      assert Span(t, j + 1, Decimal.IsDigit) == k;
    }
  }

  lemma NoAtInTail(t: string, j: nat, k: nat)
    requires j <= k <= |t| && HostAt(t, 0, j) && PortAt(t, j, k) && AtEnd(t, k)
    ensures forall l | 0 <= l < |t| :: t[l] != '@'
  {
  }

  lemma ExpressionIsScanned(s: string, i: nat, j: nat, k: nat)
    requires Expression(s, i, j, k)
    ensures UserEnd(s) == i && TailMatches(s[i..])
  {
    hide TailMatches, IsV6Char;
    var t := s[i..];
    HostShifts(s, i, j - i);
    PortShifts(s, i, j - i, k - i);
    assert AtEnd(t, k - i);
    HostAndPortEnd(t, j - i, k - i);
    NoAtInTail(t, j - i, k - i);
    assert forall l | i <= l < |s| :: s[l] == t[l - i];
  }

  /** The greedy scan is the regular expression: a hop passes if and only if it does not start with a
      dash, the expression describes it, and its port is in range. */
  lemma CheckMeans(s: string)
    ensures ValidJump(s) <==>
            && s != "" && s[0] != '-' && PortInRange(s)
            && exists i: nat, j: nat, k: nat :: Expression(s, i, j, k)
  {
    hide TailMatches, UserEnd, Expression, PortInRange;
    if s != "" && TailMatches(s[UserEnd(s)..]) { ScanIsExpression(s); }
    if i: nat, j: nat, k: nat :| Expression(s, i, j, k) { ExpressionIsScanned(s, i, j, k); }
  }

  /** A plain host name with a plain user is routed, as user@host, with the port when it is not 22. */
  lemma PlainConfigIsEmitted(host: string, user: string, port: Option<int>)
    requires host != "" && forall l | 0 <= l < |host| :: IsNameChar(host[l])
    requires UserOf(user)[0] != '-' && forall l | 0 <= l < |UserOf(user)| :: IsUserChar(UserOf(user)[l])
    ensures var p := CoercePort(port);
            ResolveJump(host, user, port)
            == Some(UserOf(user) + "@" + (if p == 22 then host else host + ":" + Decimal.ToString(p)))
  {
    hide TailMatches, UserEnd, PortInRange, TailShape, PortOf, Decimal.ToString, Decimal.Value;
    var u, t := UserOf(user), Tail(host, port);
    var s, i, j := u + "@" + t, |u| + 1, |u| + 1 + |host|;
    PlainTail(host, port);
    assert s[i - 1] == '@' && forall l | 0 <= l < |u| :: s[l] == u[l];
    assert s[i..] == t;
    HostShifts(s, i, |host|);
    PortShifts(s, i, |host|, |t|);
    assert Expression(s, i, j, |s|);
    ExpressionIsScanned(s, i, j, |s|);
    RangeOfShape(s, i, |host|);
    assert PortPart(CoercePort(port)) == "" ==> t == host;
    assert CoercePort(port) != 22 ==> t == host + ":" + Decimal.ToString(CoercePort(port));
  }

  lemma PlainTail(host: string, port: Option<int>)
    requires host != "" && forall l | 0 <= l < |host| :: IsNameChar(host[l])
    ensures var t := Tail(host, port);
            && |t| >= |host| && HostAt(t, 0, |host|) && PortAt(t, |host|, |t|)
            && TailShape(t, |host|) && PortOf(t, |host|) == CoercePort(port)
  {
    hide Decimal.ToString, Decimal.Value;
    var t, p := Tail(host, port), CoercePort(port);
    assert forall l | 0 <= l < |host| :: t[l] == host[l];
    Decimal.RoundTrip(p);
    assert Decimal.Pow10(5) == 100000 by { assert Decimal.Pow10(3) == 1000; }
    Decimal.PrintLength(p, 5);
    if p != 22 {
      var d := Decimal.ToString(p);
      assert t[|host| + 1..] == d;
      forall l | |host| < l < |t| ensures Decimal.IsDigit(t[l]) { assert t[l] == d[l - |host| - 1]; }
    }
  }

  /** Without a configured user the relay's own account is used. */
  lemma DefaultUserIsEmitted(host: string)
    requires host != "" && forall l | 0 <= l < |host| :: IsNameChar(host[l])
    ensures ResolveJump(host, "", None) == Some("sysible-relay@" + host)
  {
    PlainConfigIsEmitted(host, "", None);
    assert "sysible-relay" + "@" == "sysible-relay@";
  }
}
