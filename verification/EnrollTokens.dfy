/** The enrolment-token table (backend/db.py): minting, validation, resolution
    and the conditional UPDATE that claims a token. Tokens are keyed by their
    hash at rest. Requests of any number of replicas interleave freely. */
module EnrollTokens {
  import opened Common

  type Token = string
  type Host = string

  datatype TokenRow = TokenRow(
    expires: real,
    used: bool,
    bound: Option<Host>,
    lastUsed: Option<real>,
    reissue: bool)

  type Table = map<Token, TokenRow>

  // ------------------------------------------------ what the statements do

  predicate Validates(t: Table, token: Token, now: real, reuseWindow: real) {
    && token in t
    && var row := t[token];
       && now <= row.expires
       && (!row.used || (row.bound.Some? && row.lastUsed.Some? && now - row.lastUsed.value <= reuseWindow))
  }

  function Resolves(t: Table, token: Token, requested: Host): Host {
    if token in t && t[token].bound.Some? && t[token].bound.value != "" then t[token].bound.value else requested
  }

  /** An unused, unexpired reissue token bound to exactly this host. */
  predicate AuthorizesRebind(t: Table, token: Token, host: Host, now: real) {
    && host != "" && token in t
    && t[token].reissue && !t[token].used && now <= t[token].expires && t[token].bound == Some(host)
  }

  /** WHERE token=? AND (used=0 OR bound_host_id=?). */
  predicate Claimable(t: Table, token: Token, host: Host) {
    token in t && (!t[token].used || t[token].bound == Some(host))
  }

  function Claimed(t: Table, token: Token, host: Host, now: real): Table
    requires Claimable(t, token, host)
  {
    t[token := t[token].(used := true, bound := Some(host), lastUsed := Some(now))]
  }

  function WithoutHost(t: Table, host: Host): Table {
    if host == "" then t else map k | k in t && t[k].bound != Some(host) :: t[k]
  }

  function WithoutUnused(t: Table): Table { map k | k in t && t[k].used :: t[k] }

  // ------------------------------------------------------------ the object

  class TokenStore {
    var rows: Table

    constructor ()
      ensures rows == map[]
    {
      rows := map[];
    }

    /** `token` is freshly drawn at random: no row carries it yet. */
    method Create(token: Token, expires: real)
      requires token !in rows
      modifies this
      ensures rows == old(rows)[token := TokenRow(expires, false, None, None, false)]
    {
      rows := rows[token := TokenRow(expires, false, None, None, false)];
    }

    method CreateReissue(token: Token, host: Host, expires: real)
      requires token !in rows
      modifies this
      ensures rows == old(rows)[token := TokenRow(expires, false, Some(host), None, true)]
    {
      rows := rows[token := TokenRow(expires, false, Some(host), None, true)];
    }

    method Validate(token: Token, now: real, reuseWindow: real) returns (ok: bool)
      ensures ok <==> Validates(rows, token, now, reuseWindow)
      ensures ok ==> token in rows && now <= rows[token].expires
      ensures token in rows && now <= rows[token].expires && !rows[token].used ==> ok
      ensures token in rows && rows[token].used ==>
                (ok <==> && now <= rows[token].expires && rows[token].bound.Some?
                         && rows[token].lastUsed.Some? && now - rows[token].lastUsed.value <= reuseWindow)
    {
      if token !in rows {
        return false;
      }
      var row := rows[token];
      if now > row.expires {
        return false;
      }
      if !row.used {
        return true;
      }
      if row.bound.None? || row.lastUsed.None? {
        return false;
      }
      return now - row.lastUsed.value <= reuseWindow;
    }

    method Authorizes(token: Token, host: Host, now: real) returns (ok: bool)
      ensures ok <==> AuthorizesRebind(rows, token, host, now)
      ensures ok <==> && token in rows && host != "" && rows[token].bound == Some(host)
                      && rows[token].reissue && !rows[token].used && now <= rows[token].expires
    {
      if host == "" || token !in rows {
        return false;
      }
      var row := rows[token];
      if !row.reissue || row.used {
        return false;
      }
      if now > row.expires {
        return false;
      }
      return row.bound == Some(host);
    }

    method Consume(token: Token, host: Host, now: real) returns (claimed: bool)
      modifies this
      ensures claimed <==> Claimable(old(rows), token, host)
      ensures rows == if claimed then Claimed(old(rows), token, host, now) else old(rows)
      ensures claimed <==> token in old(rows) && (!old(rows)[token].used || old(rows)[token].bound == Some(host))
      ensures claimed ==> token in rows && rows[token].used && rows[token].bound == Some(host)
      ensures forall k :: k in rows <==> k in old(rows)
      ensures forall k | k in rows && k != token :: rows[k] == old(rows)[k]
    {
      claimed := token in rows && (!rows[token].used || rows[token].bound == Some(host));
      if claimed {
        rows := rows[token := rows[token].(used := true, bound := Some(host), lastUsed := Some(now))];
      }
    }

    method InvalidateFor(host: Host) returns (n: nat)
      modifies this
      ensures rows == WithoutHost(old(rows), host)
      ensures forall k :: k in rows <==> k in old(rows) && (host == "" || old(rows)[k].bound != Some(host))
      ensures forall k | k in rows :: rows[k] == old(rows)[k]
      ensures n == |old(rows)| - |rows|
    {
      if host == "" {
        return 0;
      }
      var kept := map k | k in rows && rows[k].bound != Some(host) :: rows[k];
      assert kept.Keys <= rows.Keys;
      SubsetSize(kept.Keys, rows.Keys);
      assert |kept| == |kept.Keys| && |rows| == |rows.Keys|;
      n := |rows| - |kept|;
      rows := kept;
    }

    method PurgeUnconsumed() returns (n: nat)
      modifies this
      ensures rows == WithoutUnused(old(rows)) && n == |old(rows)| - |rows|
      ensures forall k :: k in rows <==> k in old(rows) && old(rows)[k].used
      ensures forall k | k in rows :: rows[k] == old(rows)[k]
    {
      var unused := set k | k in rows && !rows[k].used;
      SubsetSize((rows - unused).Keys, rows.Keys);
      assert |(rows - unused).Keys| == |rows - unused| && |rows.Keys| == |rows|;
      n := |rows| - |rows - unused|;
      rows := rows - unused;
      assert rows == WithoutUnused(old(rows));
    }
  }

  // --------------------------------------------------------- interleavings

  /** One committed statement. Validation and resolution only read, so a replica
      that acts on a stale answer is just a Consume at a later moment. */
  datatype Step =
    | Mint(token: Token, expires: real)
    | MintReissue(token: Token, host: Host, expires: real)
    | Consume(token: Token, host: Host, now: real)
    | Invalidate(host: Host)
    | PurgeUnused

  /** `minted` remembers every token ever drawn, so that none is drawn twice;
      `claims` lists the consume calls that answered True, oldest first. */
  datatype World = World(table: Table, minted: set<Token>, claims: seq<(Token, Host)>)

  const EMPTY := World(map[], {}, [])

  function Apply(w: World, step: Step): World {
    match step
    case Mint(token, expires) =>
      if token in w.minted then w
      else World(w.table[token := TokenRow(expires, false, None, None, false)], w.minted + {token}, w.claims)
    case MintReissue(token, host, expires) =>
      if token in w.minted then w
      else World(w.table[token := TokenRow(expires, false, Some(host), None, true)], w.minted + {token}, w.claims)
    case Consume(token, host, now) =>
      if Claimable(w.table, token, host)
      then World(Claimed(w.table, token, host, now), w.minted, w.claims + [(token, host)])
      else w
    case Invalidate(host) => w.(table := WithoutHost(w.table, host))
    case PurgeUnused => w.(table := WithoutUnused(w.table))
  }

  function Run(w: World, steps: seq<Step>): World
    decreases |steps|
  {
    if steps == [] then w else Run(Apply(w, steps[0]), steps[1..])
  }

  ghost predicate Inv(w: World) {
    && w.table.Keys <= w.minted
    && (forall c | c in w.claims :: ClaimHolds(w, c))
    && (forall c, d | c in w.claims && d in w.claims :: c.0 == d.0 ==> c.1 == d.1)
  }

  /** A claimed token is gone, or used and bound to the claimant. */
  ghost predicate ClaimHolds(w: World, c: (Token, Host)) {
    c.0 in w.minted && (c.0 in w.table ==> w.table[c.0].used && w.table[c.0].bound == Some(c.1))
  }

  lemma ApplyKeepsInv(w: World, step: Step)
    requires Inv(w)
    ensures Inv(Apply(w, step))
  {
    var w' := Apply(w, step);
    forall c | c in w'.claims ensures ClaimHolds(w', c) {
      if c in w.claims { assert ClaimHolds(w, c); }
    }
    forall c, d | c in w'.claims && d in w'.claims && c.0 == d.0 ensures c.1 == d.1 {
      if c in w.claims { assert ClaimHolds(w, c); }
      if d in w.claims { assert ClaimHolds(w, d); }
    }
  }

  lemma {:induction false} RunKeepsInv(w: World, steps: seq<Step>)
    requires Inv(w)
    ensures Inv(Run(w, steps))
    decreases |steps|
  {
    if steps != [] {
      ApplyKeepsInv(w, steps[0]);
      RunKeepsInv(Apply(w, steps[0]), steps[1..]);
    }
  }

  /** One token, one host, for all time. */
  lemma OneTokenOneHost(steps: seq<Step>, i: nat, j: nat)
    requires var claims := Run(EMPTY, steps).claims;
             i < |claims| && j < |claims| && claims[i].0 == claims[j].0
    ensures var claims := Run(EMPTY, steps).claims;
            claims[i].1 == claims[j].1
  {
    RunKeepsInv(EMPTY, steps);
    var claims := Run(EMPTY, steps).claims;
    assert claims[i] in claims && claims[j] in claims;
  }

  /** Once used, a token's binding never changes: it stays or the row disappears. */
  lemma {:induction false} UsedBindingIsFrozen(w: World, steps: seq<Step>, token: Token)
    requires Inv(w) && token in w.table && w.table[token].used
    ensures var w' := Run(w, steps);
            token in w'.table ==> w'.table[token].used && w'.table[token].bound == w.table[token].bound
    decreases |steps|
  {
    if steps != [] {
      var w1 := Apply(w, steps[0]);
      ApplyKeepsInv(w, steps[0]);
      if token in w1.table {
        UsedBindingIsFrozen(w1, steps[1..], token);
      } else {
        GoneIsGone(w1, steps[1..], token);
      }
    }
  }

  /** A deleted token never comes back and is never claimed again. */
  lemma {:induction false} GoneIsGone(w: World, steps: seq<Step>, token: Token)
    requires token in w.minted && token !in w.table
    ensures var w' := Run(w, steps);
            token !in w'.table && ClaimsOf(w'.claims, token) == ClaimsOf(w.claims, token)
    decreases |steps|
  {
    if steps != [] {
      var w1 := Apply(w, steps[0]);
      if w1.claims != w.claims {
        ClaimsOfAppend(w.claims, w1.claims[|w.claims|], token);
      }
      GoneIsGone(w1, steps[1..], token);
    }
  }

  function ClaimsOf(claims: seq<(Token, Host)>, token: Token): nat {
    if claims == [] then 0
    else ClaimsOf(claims[..|claims| - 1], token) + (if claims[|claims| - 1].0 == token then 1 else 0)
  }

  lemma ClaimsOfAppend(claims: seq<(Token, Host)>, c: (Token, Host), token: Token)
    ensures ClaimsOf(claims + [c], token) == ClaimsOf(claims, token) + if c.0 == token then 1 else 0
  {
    assert (claims + [c])[..|claims|] == claims;
  }

  /** After a purging Force Delete of a host, no token that ever claimed it, and
      none bound to it at that moment, validates or claims anything again. */
  lemma ForceDeleteIsFinal(w: World, host: Host, after: seq<Step>, token: Token, now: real, reuseWindow: real)
    requires Inv(w) && host != ""
    requires (token in w.table && w.table[token].bound == Some(host)) || (token, host) in w.claims
    ensures var w' := Run(Apply(w, Invalidate(host)), after);
            && !Validates(w'.table, token, now, reuseWindow)
            && (forall h :: !Claimable(w'.table, token, h))
            && ClaimsOf(w'.claims, token) == ClaimsOf(w.claims, token)
  {
    if (token, host) in w.claims { assert ClaimHolds(w, (token, host)); }
    GoneIsGone(Apply(w, Invalidate(host)), after, token);
  }
}
