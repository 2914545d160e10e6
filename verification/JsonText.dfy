/** json.dumps of a string, character by character (backend/agent_bundle.py bakes the
    result into Python source), and the readers that give the text back. A Dafny string has no
    lone surrogates. */
module JsonText {
  import opened Common

  function Hex(d: nat): char
    requires d < 16
  {
    if d < 10 then ('0' as int + d) as char else ('a' as int + d - 10) as char
  }

  function Hex4(n: nat): (s: string)
    requires n < 0x1_0000
    ensures |s| == 4
  {
    [Hex(n / 4096), Hex(n / 256 % 16), Hex(n / 16 % 16), Hex(n % 16)]
  }

  /** One character inside a JSON string, non-ASCII escaped (a surrogate pair beyond U+FFFF). */
  function Escape(c: char): string {
    if c == '"' then "\\\""
    else if c == '\\' then "\\\\"
    else if c == '\n' then "\\n"
    else if c == '\r' then "\\r"
    else if c == '\t' then "\\t"
    else if c as int == 8 then "\\b"
    else if c as int == 12 then "\\f"
    else if ' ' <= c <= '~' then [c]
    else if c as int < 0x1_0000 then "\\u" + Hex4(c as int)
    else
      var v := c as int - 0x1_0000;
      "\\u" + Hex4(0xd800 + v / 1024 % 1024) + "\\u" + Hex4(0xdc00 + v % 1024)
  }

  function JsonBody(s: string): string { if s == "" then "" else Escape(s[0]) + JsonBody(s[1..]) }

  // ------------------------------------------------------------ the readers

  function HexValue(c: char): Option<nat> {
    if '0' <= c <= '9' then Some(c as int - '0' as int)
    else if 'a' <= c <= 'f' then Some(c as int - 'a' as int + 10)
    else if 'A' <= c <= 'F' then Some(c as int - 'A' as int + 10)
    else None
  }

  function Hex4Value(s: string): Option<nat>
    requires |s| == 4
  {
    var a, b, c, d := HexValue(s[0]), HexValue(s[1]), HexValue(s[2]), HexValue(s[3]);
    if a.Some? && b.Some? && c.Some? && d.Some?
    then Some(((a.value * 16 + b.value) * 16 + c.value) * 16 + d.value) else None
  }

  /** What follows a backslash, when it is a single character. */
  function ShortEscape(c: char): Option<nat> {
    if c == '"' || c == '\\' || c == '/' then Some(c as int)
    else if c == 'n' then Some(10)
    else if c == 'r' then Some(13)
    else if c == 't' then Some(9)
    else if c == 'b' then Some(8)
    else if c == 'f' then Some(12)
    else None
  }

  /** The units between the quotes, as a Python or a JSON reader splits them: a plain character, a short
      escape, or \uXXXX. None for a bare quote, an unknown escape or a broken one. */
  function Units(body: string): Option<seq<nat>> {
    if body == "" then Some([])
    else if body[0] == '"' then None
    else if body[0] != '\\' then Then(body[0] as int, Units(body[1..]))
    else if |body| >= 2 && ShortEscape(body[1]).Some? then Then(ShortEscape(body[1]).value, Units(body[2..]))
    else if |body| >= 6 && body[1] == 'u' && Hex4Value(body[2..6]).Some? then
      Then(Hex4Value(body[2..6]).value, Units(body[6..]))
    else None
  }

  function Then(unit: nat, rest: Option<seq<nat>>): Option<seq<nat>> {
    if rest.Some? then Some([unit] + rest.value) else None
  }

  predicate IsHigh(u: nat) { 0xd800 <= u < 0xdc00 }
  predicate IsLow(u: nat) { 0xdc00 <= u < 0xe000 }

  /** JSON reads a surrogate pair as one character. */
  function Paired(units: seq<nat>): Option<string> {
    if units == [] then Some("")
    else if IsHigh(units[0]) && |units| >= 2 && IsLow(units[1]) then
      var c := (0x1_0000 + (units[0] - 0xd800) * 1024 + (units[1] - 0xdc00)) as char;
      if Paired(units[2..]).Some? then Some([c] + Paired(units[2..]).value) else None
    else if units[0] < 0xd800 || 0xe000 <= units[0] < 0x11_0000 then
      if Paired(units[1..]).Some? then Some([units[0] as char] + Paired(units[1..]).value) else None
    else None
  }

  /** json.loads of the quoted body. */
  function JsonValue(body: string): Option<string> {
    if Units(body).Some? then Paired(Units(body).value) else None
  }

  /** The units of a text: its code points, the ones beyond U+FFFF in two. */
  function UnitsOf(c: char): seq<nat> {
    if c as int < 0x1_0000 then [c as int]
    else
      var v := c as int - 0x1_0000;
      [0xd800 + v / 1024, 0xdc00 + v % 1024]
  }

  function TextUnits(s: string): seq<nat> { if s == "" then [] else UnitsOf(s[0]) + TextUnits(s[1..]) }

  function CodePoints(s: string): seq<nat> { if s == "" then [] else [s[0] as int] + CodePoints(s[1..]) }

  // ------------------------------------------------------------ round trips

  lemma HexRoundTrip(d: nat)
    requires d < 16
    ensures HexValue(Hex(d)) == Some(d)
  {
  }

  lemma Hex4RoundTrip(n: nat)
    requires n < 0x1_0000
    ensures Hex4Value(Hex4(n)) == Some(n)
  {
    var a, b, c, d := n / 4096, n / 256 % 16, n / 16 % 16, n % 16;
    HexRoundTrip(a);
    HexRoundTrip(b);
    HexRoundTrip(c);
    HexRoundTrip(d);
    assert n / 16 == n / 256 * 16 + c && n / 256 == a * 16 + b;
    assert n == ((a * 16 + b) * 16 + c) * 16 + d;
  }

  lemma UnicodeEscapeReads(n: nat, rest: string)
    requires n < 0x1_0000
    ensures Units("\\u" + Hex4(n) + rest) == Then(n, Units(rest))
  {
    hide Hex4, Hex4Value;
    Hex4RoundTrip(n);
    var b := "\\u" + Hex4(n) + rest;
    assert b[0] == '\\' && b[1] == 'u' && b[2..6] == Hex4(n) && b[6..] == rest;
  }

  lemma PlainReads(c: char, rest: string)
    requires c != '"' && c != '\\'
    ensures Units([c] + rest) == Then(c as int, Units(rest))
  {
    assert ([c] + rest)[1..] == rest;
  }

  lemma ShortReads(c: char, rest: string)
    requires ShortEscape(c).Some?
    ensures Units(['\\', c] + rest) == Then(ShortEscape(c).value, Units(rest))
  {
    hide Hex4Value;
    assert (['\\', c] + rest)[2..] == rest;
  }

  lemma PairReads(c: char, rest: string)
    requires c as int >= 0x1_0000 && Units(rest).Some?
    ensures Units(Escape(c) + rest) == Some(UnitsOf(c) + Units(rest).value)
  {
    hide Hex4, Hex4Value, Units;
    var v := c as int - 0x1_0000;
    assert v / 1024 < 1024;
    var high, low := 0xd800 + v / 1024, 0xdc00 + v % 1024;
    UnicodeEscapeReads(low, rest);
    UnicodeEscapeReads(high, "\\u" + Hex4(low) + rest);
    assert Escape(c) + rest == "\\u" + Hex4(high) + ("\\u" + Hex4(low) + rest);
    assert [high] + ([low] + Units(rest).value) == [high, low] + Units(rest).value;
  }

  /** Reading one escaped character and going on. */
  lemma EscapeReads(c: char, rest: string)
    requires Units(rest).Some?
    ensures Units(Escape(c) + rest) == Some(UnitsOf(c) + Units(rest).value)
  {
    hide Hex4, Hex4Value, Units;
    if c as int >= 0x1_0000 {
      PairReads(c, rest);
    } else if ' ' <= c <= '~' && c != '"' && c != '\\' {
      PlainReads(c, rest);
    } else if |Escape(c)| == 2 {
      assert Escape(c) == ['\\', Escape(c)[1]];
      ShortReads(Escape(c)[1], rest);
    } else {
      UnicodeEscapeReads(c as int, rest);
    }
  }

  /** The body reads as the units of the text: nothing is lost, changed or ends it early. */
  lemma {:induction false} BodyReads(s: string)
    ensures Units(JsonBody(s)) == Some(TextUnits(s))
  {
    hide Escape;
    if s != "" {
      BodyReads(s[1..]);
      EscapeReads(s[0], JsonBody(s[1..]));
    }
  }

  lemma {:induction false} PairedTextUnits(s: string)
    ensures Paired(TextUnits(s)) == Some(s)
  {
    if s != "" {
      PairedTextUnits(s[1..]);
      var u, rest := UnitsOf(s[0]), TextUnits(s[1..]);
      assert s == [s[0]] + s[1..];
      if s[0] as int >= 0x1_0000 {
        assert TextUnits(s)[0] == u[0] && TextUnits(s)[1] == u[1] && TextUnits(s)[2..] == rest;
        PairValue(s[0]);
      } else {
        assert TextUnits(s)[1..] == rest;
      }
    }
  }

  lemma PairValue(c: char)
    requires c as int >= 0x1_0000
    ensures var u := UnitsOf(c);
            IsHigh(u[0]) && IsLow(u[1]) && 0x1_0000 + (u[0] - 0xd800) * 1024 + (u[1] - 0xdc00) == c as int
  {
  }

  /** json.loads(json.dumps(s)) == s. */
  lemma JsonRoundTrip(s: string)
    ensures JsonValue(JsonBody(s)) == Some(s)
  {
    BodyReads(s);
    PairedTextUnits(s);
  }

  lemma {:induction false} TextUnitsLength(s: string)
    ensures |TextUnits(s)| >= |s| == |CodePoints(s)|
    ensures TextUnits(s) == CodePoints(s) <==> forall i | 0 <= i < |s| :: s[i] as int < 0x1_0000
  {
    if s != "" {
      TextUnitsLength(s[1..]);
      if s[0] as int < 0x1_0000 {
        assert TextUnits(s)[1..] == TextUnits(s[1..]) && CodePoints(s)[1..] == CodePoints(s[1..]);
        assert forall i | 1 <= i < |s| :: s[i] == s[1..][i - 1];
        assert forall i | 0 <= i < |s[1..]| :: s[1..][i] == s[i + 1];
      }
    }
  }

  /** As a Python literal, which does not pair surrogates, the body stands for the
      text itself if and only if the text stays within U+FFFF. */
  lemma PythonRoundTripIff(s: string)
    ensures Units(JsonBody(s)) == Some(CodePoints(s)) <==> forall i | 0 <= i < |s| :: s[i] as int < 0x1_0000
  {
    BodyReads(s);
    TextUnitsLength(s);
  }
}
