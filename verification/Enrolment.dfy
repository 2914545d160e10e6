/** The enrolment handler and the administrator's revoke, restore and delete
    routes (backend/app.py), over the agents and token tables. Each request is
    one atomic step, as the enrol lock makes it. */
module Enrolment {
  import opened Common
  import opened EnrollTokens

  /** `atRest` is the SHA-256 under which secrets are stored, left abstract. */
  datatype Config = Config(atRest: string -> string, reuseWindow: real, liveGrace: real, rebindAuth: bool)

  /** Hostnames are stripped; "" stands for an absent hostname, address or secret. */
  datatype Agent = Agent(secret: string, revoked: bool, lastSeen: real, hostname: string, ip: string)

  type Agents = map<Host, Agent>

  datatype Request = Request(token: Token, hostId: Host, hostname: string, ip: string, prevSecret: string)

  datatype Response = Enrolled(host: Host, secret: string) | Refused(code: nat)

  datatype State = State(agents: Agents, tokens: Table)

  // --------------------------------------------------------------- secrets

  predicate IsHashAtRest(v: string) {
    |v| == 64 && forall i | 0 <= i < |v| :: '0' <= v[i] <= '9' || 'a' <= v[i] <= 'f'
  }

  /** A stored hash never matches itself presented raw; a legacy raw secret does. */
  predicate SecretMatches(cfg: Config, stored: string, presented: string) {
    && presented != "" && stored != ""
    && (cfg.atRest(presented) == stored || (!IsHashAtRest(stored) && presented == stored))
  }

  /** A legacy row is re-stored hashed when its secret is accepted. */
  function Verified(cfg: Config, agents: Agents, host: Host, presented: string): Agents
    requires host in agents
  {
    if SecretMatches(cfg, agents[host].secret, presented)
    then agents[host := agents[host].(secret := cfg.atRest(presented))]
    else agents
  }

  // ------------------------------------------------------ stale-record adoption

  predicate Adoptable(cfg: Config, a: Agent, hostname: string, ip: string, now: real) {
    && a.ip == ip
    && (hostname == "" || a.hostname == "" || a.hostname == hostname)
    && !a.revoked
    && now - a.lastSeen >= cfg.liveGrace
  }

  predicate Candidate(cfg: Config, agents: Agents, h: Host, hostname: string, ip: string, exclude: Host, now: real) {
    h in agents && h != exclude && Adoptable(cfg, agents[h], hostname, ip, now)
  }

  function Candidates(cfg: Config, agents: Agents, listing: seq<Host>, hostname: string, ip: string,
                      exclude: Host, now: real): (cs: seq<Host>)
    ensures forall h :: h in cs <==> h in listing && Candidate(cfg, agents, h, hostname, ip, exclude, now)
  {
    if listing == [] then []
    else
      var rest := Candidates(cfg, agents, listing[..|listing| - 1], hostname, ip, exclude, now);
      var last := listing[|listing| - 1];
      if Candidate(cfg, agents, last, hostname, ip, exclude, now) then rest + [last] else rest
  }

  /** The head of a stable sort by descending last_seen. */
  function MostRecent(agents: Agents, hosts: seq<Host>): (r: Option<Host>)
    requires forall h | h in hosts :: h in agents
    ensures r.None? <==> hosts == []
    ensures r.Some? ==> r.value in hosts && forall h | h in hosts :: agents[h].lastSeen <= agents[r.value].lastSeen
  {
    if hosts == [] then None
    else
      var last := hosts[|hosts| - 1];
      match MostRecent(agents, hosts[..|hosts| - 1])
      case None => Some(last)
      case Some(h) => if agents[h].lastSeen < agents[last].lastSeen then Some(last) else Some(h)
  }

  function Supersedable(cfg: Config, agents: Agents, listing: seq<Host>, hostname: string, ip: string,
                        exclude: Host, now: real): (r: Option<Host>)
    ensures r.Some? ==> Candidate(cfg, agents, r.value, hostname, ip, exclude, now)
  {
    if ip == "" then None
    else MostRecent(agents, Candidates(cfg, agents, listing, hostname, ip, exclude, now))
  }

  // ---------------------------------------------------------------- enrol

  /** The host id this request lands on: resolved by the token, or an adopted stale record. */
  function Landing(cfg: Config, s: State, req: Request, now: real, listing: seq<Host>): Host {
    var host := Resolves(s.tokens, req.token, req.hostId);
    if host in s.agents then host
    else Supersedable(cfg, s.agents, listing, req.hostname, req.ip, host, now).GetOr(host)
  }

  predicate Proven(cfg: Config, s: State, req: Request, host: Host, now: real)
    requires host in s.agents
  {
    || SecretMatches(cfg, s.agents[host].secret, req.prevSecret)
    || AuthorizesRebind(s.tokens, req.token, host, now)
  }

  /** The handler's checks in order, and the tables it leaves behind. */
  function Enrol(cfg: Config, s: State, req: Request, now: real,
                 listing: seq<Host>, newSecret: string): (State, Response) {
    if !Validates(s.tokens, req.token, now, cfg.reuseWindow) then (s, Refused(403))
    else
      var host := Landing(cfg, s, req, now, listing);
      if host in s.agents && s.agents[host].revoked then (s, Refused(403))
      else if host in s.agents && cfg.rebindAuth && !Proven(cfg, s, req, host, now) then
        (s, Refused(if now - s.agents[host].lastSeen < cfg.liveGrace then 409 else 403))
      else
        var agents := if host in s.agents then Verified(cfg, s.agents, host, req.prevSecret) else s.agents;
        if !Claimable(s.tokens, req.token, host) then (State(agents, s.tokens), Refused(409))
        else
          (State(agents[host := Agent(cfg.atRest(newSecret), false, now, req.hostname, req.ip)],
                 Claimed(s.tokens, req.token, host, now)),
           Enrolled(host, newSecret))
  }

  class Controller {
    const cfg: Config
    const store: TokenStore
    var agents: Agents

    constructor (cfg: Config, store: TokenStore)
      ensures this.cfg == cfg && this.store == store && agents == map[]
    {
      this.cfg := cfg;
      this.store := store;
      this.agents := map[];
    }

    ghost function Snapshot(): State
      reads this, store
    {
      State(agents, store.rows)
    }

    method MatchSecret(host: Host, presented: string) returns (ok: bool)
      requires host in agents
      modifies this`agents
      ensures ok <==> SecretMatches(cfg, old(agents)[host].secret, presented)
      ensures agents == Verified(cfg, old(agents), host, presented)
      ensures agents == if ok then old(agents)[host := old(agents)[host].(secret := cfg.atRest(presented))]
                        else old(agents)
    {
      if presented == "" || agents[host].secret == "" {
        return false;
      }
      var stored := agents[host].secret;
      if cfg.atRest(presented) == stored {
        assert agents == agents[host := agents[host].(secret := cfg.atRest(presented))];
        return true;
      }
      if !IsHashAtRest(stored) && presented == stored {
        agents := agents[host := agents[host].(secret := cfg.atRest(presented))];
        return true;
      }
      return false;
    }

    /** `listing` is the order in which the agents table is read. */
    method FindSupersedable(hostname: string, ip: string, exclude: Host, now: real, listing: seq<Host>)
      returns (r: Option<Host>)
      requires forall h | h in listing :: h in agents
      ensures r == Supersedable(cfg, agents, listing, hostname, ip, exclude, now)
    {
      if ip == "" {
        return None;
      }
      var candidates: seq<Host> := [];
      for k := 0 to |listing|
        invariant candidates == Candidates(cfg, agents, listing[..k], hostname, ip, exclude, now)
      {
        assert listing[..k + 1][..k] == listing[..k];
        var h := listing[k];
        if h == exclude { continue; }
        var a := agents[h];
        if a.ip != ip { continue; }
        if hostname != "" && a.hostname != "" && a.hostname != hostname { continue; }
        if a.revoked { continue; }
        if now - a.lastSeen < cfg.liveGrace { continue; }
        candidates := candidates + [h];
      }
      assert listing[..|listing|] == listing;
      r := None;
      for k := 0 to |candidates|
        invariant r == MostRecent(agents, candidates[..k])
      {
        assert candidates[..k + 1][..k] == candidates[..k];
        if r.None? || agents[r.value].lastSeen < agents[candidates[k]].lastSeen {
          r := Some(candidates[k]);
        }
      }
      assert candidates[..|candidates|] == candidates;
    }

    method HandleEnrol(req: Request, now: real, listing: seq<Host>, newSecret: string) returns (r: Response)
      requires forall h | h in listing :: h in agents
      modifies this`agents, store
      ensures (Snapshot(), r) == Enrol(cfg, old(Snapshot()), req, now, listing, newSecret)
    {
      var valid := store.Validate(req.token, now, cfg.reuseWindow);
      if !valid {
        return Refused(403);
      }
      var host := Resolves(store.rows, req.token, req.hostId);
      if host !in agents {
        var dup := FindSupersedable(req.hostname, req.ip, host, now, listing);
        if dup.Some? {
          host := dup.value;
        }
      }
      if host in agents {
        if agents[host].revoked {
          return Refused(403);
        }
        var lastSeen := agents[host].lastSeen;
        var proven := MatchSecret(host, req.prevSecret);
        if !proven {
          proven := store.Authorizes(req.token, host, now);
        }
        if !proven && cfg.rebindAuth {
          if now - lastSeen < cfg.liveGrace {
            return Refused(409);
          }
          return Refused(403);
        }
      }
      var claimed := store.Consume(req.token, host, now);
      if !claimed {
        return Refused(409);
      }
      agents := agents[host := Agent(cfg.atRest(newSecret), false, now, req.hostname, req.ip)];
      return Enrolled(host, newSecret);
    }

    method Remove(host: Host, purgeToken: bool)
      modifies this`agents, store
      ensures agents == old(agents) - {host}
      ensures store.rows == if purgeToken then WithoutHost(old(store.rows), host) else old(store.rows)
      ensures purgeToken && host != "" ==>
                forall k :: k in store.rows <==> k in old(store.rows) && old(store.rows)[k].bound != Some(host)
    {
      agents := agents - {host};
      if purgeToken {
        var _ := store.InvalidateFor(host);
      }
    }
  }

  // ------------------------------------------------------------------ runs

  datatype Step =
    | Mint(token: Token, expires: real)
    | MintReissue(token: Token, host: Host, expires: real)
    | EnrolRequest(req: Request, now: real, listing: seq<Host>, newSecret: string)
    | Heartbeat(host: Host, presented: string, now: real, ip: Option<string>, hostname: Option<string>)
    | Revoke(host: Host)
    | Restore(host: Host)
    | Disenroll(host: Host, presented: string)
    | Remove(host: Host, purgeToken: bool)
    | PurgeUnused

  /** `enrolled` lists the (token, host) pairs of the requests answered Enrolled, `rebinds` those
      that took over an existing record on the strength of a reissue token alone. */
  datatype Fleet = Fleet(s: State, minted: set<Token>, enrolled: seq<(Token, Host)>, rebinds: seq<(Token, Host)>)

  predicate TokenRebind(cfg: Config, s: State, req: Request, now: real, listing: seq<Host>) {
    var host := Landing(cfg, s, req, now, listing);
    && Enrol(cfg, s, req, now, listing, "").1.Enrolled?
    && host in s.agents
    && !SecretMatches(cfg, s.agents[host].secret, req.prevSecret)
  }

  /** A request authenticated by the per-host secret: known, not revoked, matching. */
  predicate Authenticated(cfg: Config, agents: Agents, host: Host, presented: string) {
    host in agents && !agents[host].revoked && SecretMatches(cfg, agents[host].secret, presented)
  }

  function Apply(cfg: Config, w: Fleet, step: Step): Fleet {
    var s := w.s;
    match step
    case Mint(token, expires) =>
      if token in w.minted then w
      else w.(s := s.(tokens := s.tokens[token := TokenRow(expires, false, None, None, false)]),
              minted := w.minted + {token})
    case MintReissue(token, host, expires) =>
      if token in w.minted || host !in s.agents then w
      else w.(s := s.(tokens := s.tokens[token := TokenRow(expires, false, Some(host), None, true)]),
              minted := w.minted + {token})
    case EnrolRequest(req, now, listing, newSecret) =>
      var (s', answer) := Enrol(cfg, s, req, now, listing, newSecret);
      Fleet(s', w.minted,
            if answer.Enrolled? then w.enrolled + [(req.token, answer.host)] else w.enrolled,
            if TokenRebind(cfg, s, req, now, listing)
            then w.rebinds + [(req.token, Landing(cfg, s, req, now, listing))]
            else w.rebinds)
    case Heartbeat(host, presented, now, ip, hostname) =>
      if Authenticated(cfg, s.agents, host, presented) then
        // COALESCE: only an absent value leaves the stored one alone
        var a := s.agents[host].(secret := cfg.atRest(presented), lastSeen := now);
        var a' := a.(ip := ip.GetOr(a.ip), hostname := hostname.GetOr(a.hostname));
        w.(s := s.(agents := s.agents[host := a']))
      else w
    case Revoke(host) =>
      if host in s.agents then w.(s := s.(agents := s.agents[host := s.agents[host].(revoked := true)])) else w
    case Restore(host) =>
      if host in s.agents then w.(s := s.(agents := s.agents[host := s.agents[host].(revoked := false)])) else w
    case Disenroll(host, presented) =>
      if Authenticated(cfg, s.agents, host, presented) then w.(s := s.(agents := s.agents - {host})) else w
    case Remove(host, purge) =>
      w.(s := State(s.agents - {host}, if purge then WithoutHost(s.tokens, host) else s.tokens))
    case PurgeUnused => w.(s := s.(tokens := WithoutUnused(s.tokens)))
  }

  function Run(cfg: Config, w: Fleet, steps: seq<Step>): Fleet
    decreases |steps|
  {
    if steps == [] then w else Run(cfg, Apply(cfg, w, steps[0]), steps[1..])
  }

  const EMPTY_FLEET := Fleet(State(map[], map[]), {}, [], [])

  // -------------------------------------------- what an answer stands for

  /** An accepted request: its token was known, unexpired and free for the host that is answered, and
      is now used and bound to it; that host's record stores the hash of the secret in the
      answer; no other token and no other record has changed. */
  lemma EnrolledMeans(cfg: Config, s: State, req: Request, now: real, listing: seq<Host>, newSecret: string)
    requires Enrol(cfg, s, req, now, listing, newSecret).1.Enrolled?
    ensures var (s', answer) := Enrol(cfg, s, req, now, listing, newSecret);
            && answer.secret == newSecret
            && req.token in s.tokens && now <= s.tokens[req.token].expires
            && (s.tokens[req.token].used ==>
                  && s.tokens[req.token].bound == Some(answer.host)
                  && s.tokens[req.token].lastUsed.Some? && now - s.tokens[req.token].lastUsed.value <= cfg.reuseWindow)
            && s'.tokens == s.tokens[req.token := s.tokens[req.token].(used := true, bound := Some(answer.host),
                                                                       lastUsed := Some(now))]
            && s'.agents == s.agents[answer.host := Agent(cfg.atRest(newSecret), false, now, req.hostname, req.ip)]
            && (answer.host in s.agents ==> !s.agents[answer.host].revoked)
  {
    hide Landing, SecretMatches;
  }

  /** A refused request changes nothing, except that an accepted legacy secret is re-stored hashed. */
  lemma RefusedMeans(cfg: Config, s: State, req: Request, now: real, listing: seq<Host>, newSecret: string)
    requires Enrol(cfg, s, req, now, listing, newSecret).1.Refused?
    ensures var (s', _) := Enrol(cfg, s, req, now, listing, newSecret);
            && s'.tokens == s.tokens && s'.agents.Keys == s.agents.Keys
            && forall h | h in s.agents ::
                 s'.agents[h] == s.agents[h]
                 || (s'.agents[h] == s.agents[h].(secret := cfg.atRest(req.prevSecret))
                     && SecretMatches(cfg, s.agents[h].secret, req.prevSecret))
  {
    hide Landing, SecretMatches;
  }

  /** A record that this request could adopt: same address, no conflicting name, not revoked, not live. */
  ghost predicate Stale(cfg: Config, a: Agent, req: Request, now: real) {
    && req.ip != "" && a.ip == req.ip && (req.hostname == "" || a.hostname == "" || a.hostname == req.hostname)
    && !a.revoked && now - a.lastSeen >= cfg.liveGrace
  }

  ghost predicate Unclaimed(s: State, token: Token, now: real) {
    token in s.tokens && !s.tokens[token].used && now <= s.tokens[token].expires
  }

  /** A request that names a known host, or whose token does, lands there; one that names
      an unknown host lands on the most recent stale record of its machine, if there is one. */
  lemma WhereRequestsLand(cfg: Config, s: State, req: Request, now: real, listing: seq<Host>)
    requires forall h :: h in listing <==> h in s.agents
    ensures var asked := if req.token in s.tokens && s.tokens[req.token].bound.GetOr("") != ""
                         then s.tokens[req.token].bound.value else req.hostId;
            var host := Landing(cfg, s, req, now, listing);
            && (host == asked || (asked !in s.agents && host in s.agents && Stale(cfg, s.agents[host], req, now)))
            && (asked !in s.agents ==>
                  forall h | h in s.agents && Stale(cfg, s.agents[h], req, now) ::
                    host in s.agents && s.agents[h].lastSeen <= s.agents[host].lastSeen)
  {
    var asked := Resolves(s.tokens, req.token, req.hostId);
    var cs := Candidates(cfg, s.agents, listing, req.hostname, req.ip, asked, now);
    forall h | asked !in s.agents && h in s.agents && Stale(cfg, s.agents[h], req, now) ensures h in cs {}
  }

  /** A valid, unbound token enrols an unknown host with no stale record of its own. */
  lemma NewHostEnrols(cfg: Config, s: State, req: Request, now: real, listing: seq<Host>, newSecret: string)
    requires Unclaimed(s, req.token, now) && s.tokens[req.token].bound.None? && req.hostId !in s.agents
    requires forall h :: h in listing <==> h in s.agents
    requires forall h | h in s.agents :: !Stale(cfg, s.agents[h], req, now)
    ensures var (s', answer) := Enrol(cfg, s, req, now, listing, newSecret);
            && answer == Enrolled(req.hostId, newSecret)
            && req.hostId in s'.agents && s'.agents[req.hostId].secret == cfg.atRest(newSecret)
  {
    WhereRequestsLand(cfg, s, req, now, listing);
    hide Landing;
    assert Landing(cfg, s, req, now, listing) == req.hostId;
  }

  /** Whoever holds the current secret of a host that is not revoked, or an unused reissue
      token for it, re-enrols it; the host then authenticates with the secret answered. */
  lemma AuthorisedRebindSucceeds(cfg: Config, s: State, req: Request, now: real, listing: seq<Host>, newSecret: string)
    requires Unclaimed(s, req.token, now)
    requires var host := Resolves(s.tokens, req.token, req.hostId);
             host in s.agents && !s.agents[host].revoked
             && (SecretMatches(cfg, s.agents[host].secret, req.prevSecret)
                 || (host != "" && s.tokens[req.token].reissue && s.tokens[req.token].bound == Some(host)))
    requires newSecret != "" && cfg.atRest(newSecret) != ""
    ensures var (s', answer) := Enrol(cfg, s, req, now, listing, newSecret);
            && answer == Enrolled(Resolves(s.tokens, req.token, req.hostId), newSecret)
            && Authenticated(cfg, s'.agents, answer.host, answer.secret)
  {
  }

  /** With rebind authorisation, a request for an existing host without either is
      refused: with 409 while the host is live, with 403 afterwards. */
  lemma UnprovenIsRefused(cfg: Config, s: State, req: Request, now: real, listing: seq<Host>, newSecret: string)
    requires cfg.rebindAuth && Unclaimed(s, req.token, now)
    requires var host := Landing(cfg, s, req, now, listing);
             host in s.agents && !s.agents[host].revoked
             && !SecretMatches(cfg, s.agents[host].secret, req.prevSecret)
             && !(s.tokens[req.token].reissue && s.tokens[req.token].bound == Some(host))
    ensures var live := now - s.agents[Landing(cfg, s, req, now, listing)].lastSeen < cfg.liveGrace;
            Enrol(cfg, s, req, now, listing, newSecret) == (s, Refused(if live then 409 else 403))
  {
    hide Landing, SecretMatches;
  }

  /** The hash stored for a secret is not itself a secret; a raw legacy secret still is one. */
  lemma StoredHashIsNoSecret(cfg: Config, secret: string)
    requires secret != "" && cfg.atRest(secret) != ""
    ensures SecretMatches(cfg, cfg.atRest(secret), secret)
    ensures IsHashAtRest(cfg.atRest(secret)) && cfg.atRest(cfg.atRest(secret)) != cfg.atRest(secret) ==>
              !SecretMatches(cfg, cfg.atRest(secret), cfg.atRest(secret))
    ensures !IsHashAtRest(secret) ==> SecretMatches(cfg, secret, secret)
  {
  }

  // ------------------------------------------------- one token, one host

  /** The fleet as the token layer sees it: an enrolment answered is a claim that succeeded. */
  function View(w: Fleet): EnrollTokens.World { EnrollTokens.World(w.s.tokens, w.minted, w.enrolled) }

  /** Every request does one token statement or none: the handler performs its claim. */
  lemma StepIsTokenStep(cfg: Config, w: Fleet, step: Step) returns (t: Option<EnrollTokens.Step>)
    ensures View(Apply(cfg, w, step)) == if t.None? then View(w) else EnrollTokens.Apply(View(w), t.value)
  {
    t := match step
      case Mint(token, expires) => Some(EnrollTokens.Mint(token, expires))
      case MintReissue(token, host, expires) =>
        if host in w.s.agents then Some(EnrollTokens.MintReissue(token, host, expires)) else None
      case EnrolRequest(req, now, listing, newSecret) =>
        var answer := Enrol(cfg, w.s, req, now, listing, newSecret).1;
        if answer.Enrolled? then Some(EnrollTokens.Consume(req.token, answer.host, now)) else None
      case Remove(host, purge) => if purge then Some(EnrollTokens.Invalidate(host)) else None
      case PurgeUnused => Some(EnrollTokens.PurgeUnused)
      case _ => None;
    match step
    case EnrolRequest(req, now, listing, newSecret) =>
      if Enrol(cfg, w.s, req, now, listing, newSecret).1.Enrolled? {
        EnrolledMeans(cfg, w.s, req, now, listing, newSecret);
      } else {
        RefusedMeans(cfg, w.s, req, now, listing, newSecret);
      }
      hide Enrol;
    case _ => hide Enrol;
  }

  lemma {:induction false} RunKeepsClaims(cfg: Config, w: Fleet, steps: seq<Step>)
    requires EnrollTokens.Inv(View(w))
    ensures EnrollTokens.Inv(View(Run(cfg, w, steps)))
    decreases |steps|
  {
    hide Apply, EnrollTokens.Inv, EnrollTokens.Apply;
    if steps != [] {
      var t := StepIsTokenStep(cfg, w, steps[0]);
      if t.Some? { EnrollTokens.ApplyKeepsInv(View(w), t.value); }
      RunKeepsClaims(cfg, Apply(cfg, w, steps[0]), steps[1..]);
    }
  }

  /** Over every run, under every configuration, the requests answered Enrolled with one token all
      name one host, and while the token is in the table it is used and bound to that host. */
  lemma OneTokenEnrolsOneHost(cfg: Config, steps: seq<Step>, i: nat, j: nat)
    requires var e := Run(cfg, EMPTY_FLEET, steps).enrolled; i < |e| && j < |e| && e[i].0 == e[j].0
    ensures var w := Run(cfg, EMPTY_FLEET, steps);
            var (token, host) := w.enrolled[i];
            && w.enrolled[j].1 == host
            && (token in w.s.tokens ==> w.s.tokens[token].used && w.s.tokens[token].bound == Some(host))
  {
    hide Run;
    RunKeepsClaims(cfg, EMPTY_FLEET, steps);
    var w := Run(cfg, EMPTY_FLEET, steps);
    assert w.enrolled[i] in View(w).claims && w.enrolled[j] in View(w).claims;
    assert EnrollTokens.ClaimHolds(View(w), w.enrolled[i]);
  }

  lemma {:induction false} ExpiryIsFixed(cfg: Config, w: Fleet, steps: seq<Step>, token: Token)
    requires w.s.tokens.Keys <= w.minted && token in w.minted
    ensures var w' := Run(cfg, w, steps);
            token in w'.s.tokens ==> token in w.s.tokens && w'.s.tokens[token].expires == w.s.tokens[token].expires
    decreases |steps|
  {
    if steps != [] {
      ExpiryStep(cfg, w, steps[0], token);
      hide Apply;
      ExpiryIsFixed(cfg, Apply(cfg, w, steps[0]), steps[1..], token);
    }
  }

  lemma ExpiryStep(cfg: Config, w: Fleet, step: Step, token: Token)
    requires w.s.tokens.Keys <= w.minted && token in w.minted
    ensures var w' := Apply(cfg, w, step);
            && w'.s.tokens.Keys <= w'.minted && token in w'.minted
            && (token in w'.s.tokens ==>
                  token in w.s.tokens && w'.s.tokens[token].expires == w.s.tokens[token].expires)
  {
    hide Landing, SecretMatches;
  }

  /** A token that has expired never enrols anything again, whatever happens in between. */
  lemma ExpiredNeverEnrols(cfg: Config, before: seq<Step>, after: seq<Step>,
                           req: Request, now: real, listing: seq<Host>, newSecret: string)
    requires var t := Run(cfg, EMPTY_FLEET, before).s.tokens; req.token in t && t[req.token].expires < now
    ensures var w := Run(cfg, Run(cfg, EMPTY_FLEET, before), after);
            Enrol(cfg, w.s, req, now, listing, newSecret) == (w.s, Refused(403))
  {
    TokensAreMinted(cfg, EMPTY_FLEET, before);
    hide Run;
    ExpiryIsFixed(cfg, Run(cfg, EMPTY_FLEET, before), after, req.token);
  }

  // --------------------------------------------- who may change a secret

  /** The step presented the secret the record currently stores. */
  ghost predicate HeldSecret(cfg: Config, s: State, step: Step, h: Host) {
    && h in s.agents
    && match step
       case EnrolRequest(req, _, _, _) => SecretMatches(cfg, s.agents[h].secret, req.prevSecret)
       case Heartbeat(host, presented, _, _, _) => host == h && SecretMatches(cfg, s.agents[h].secret, presented)
       case _ => false
  }

  /** The step presented an unused, unexpired reissue token bound to exactly this host. */
  ghost predicate HeldReissue(s: State, step: Step, h: Host) {
    step.EnrolRequest? && AuthorizesRebind(s.tokens, step.req.token, h, step.now)
  }

  lemma SecretChangeNeedsAuthority(cfg: Config, w: Fleet, step: Step, h: Host)
    requires cfg.rebindAuth && h in w.s.agents
    requires var s' := Apply(cfg, w, step).s; h in s'.agents && s'.agents[h].secret != w.s.agents[h].secret
    ensures HeldSecret(cfg, w.s, step, h) || HeldReissue(w.s, step, h)
    ensures step.EnrolRequest? ==> !w.s.agents[h].revoked
  {
  }

  ghost predicate Authorised(cfg: Config, w: Fleet, steps: seq<Step>, k: nat, h: Host)
    requires k < |steps|
  {
    var s := Run(cfg, w, steps[..k]).s;
    HeldSecret(cfg, s, steps[k], h) || HeldReissue(s, steps[k], h)
  }

  lemma {:induction false} RunPrefix(cfg: Config, w: Fleet, steps: seq<Step>, k: nat)
    requires steps != [] && 1 <= k <= |steps|
    ensures Run(cfg, w, steps[..k]) == Run(cfg, Apply(cfg, w, steps[0]), steps[1..][..k - 1])
  {
    assert steps[..k][1..] == steps[1..][..k - 1];
  }

  /** Between two moments of a run in which the record is never deleted, its secret
      differs only if some step in between held the secret or a reissue token for it. */
  lemma {:induction false} SecretSafetyOverRun(cfg: Config, w: Fleet, steps: seq<Step>, h: Host)
    requires cfg.rebindAuth
    requires forall k | 0 <= k <= |steps| :: h in Run(cfg, w, steps[..k]).s.agents
    requires var before, after := w.s.agents, Run(cfg, w, steps).s.agents;
             h in before && h in after && before[h].secret != after[h].secret
    ensures exists k :: 0 <= k < |steps| && Authorised(cfg, w, steps, k, h)
    decreases |steps|
  {
    hide Apply;
    assert steps[..|steps|] == steps && steps[..0] == [];
    var w1 := Apply(cfg, w, steps[0]);
    RunPrefix(cfg, w, steps, 1);
    assert steps[1..][..0] == [];
    assert h in Run(cfg, w, steps[..1]).s.agents;
    if w1.s.agents[h].secret != w.s.agents[h].secret {
      SecretChangeNeedsAuthority(cfg, w, steps[0], h);
      assert Authorised(cfg, w, steps, 0, h);
    } else {
      forall k | 0 <= k <= |steps| - 1 ensures h in Run(cfg, w1, steps[1..][..k]).s.agents {
        RunPrefix(cfg, w, steps, k + 1);
        assert h in Run(cfg, w, steps[..k + 1]).s.agents;
      }
      SecretSafetyOverRun(cfg, w1, steps[1..], h);
      var k :| 0 <= k < |steps| - 1 && Authorised(cfg, w1, steps[1..], k, h);
      RunPrefix(cfg, w, steps, k + 1);
      assert Authorised(cfg, w, steps, k + 1, h);
    }
  }

  /** With rebind authorisation switched off the statement is false: a bare token
      for a stale record's id replaces its secret. */
  lemma WithoutRebindAuthATokenSuffices(cfg: Config, w: Fleet, req: Request, now: real, newSecret: string)
    requires !cfg.rebindAuth
    requires Validates(w.s.tokens, req.token, now, cfg.reuseWindow)
    requires var row := w.s.tokens[req.token]; !row.used && row.bound.None? && !row.reissue
    requires req.hostId in w.s.agents && !w.s.agents[req.hostId].revoked && req.prevSecret == ""
    requires cfg.atRest(newSecret) != w.s.agents[req.hostId].secret
    ensures var step := EnrolRequest(req, now, [], newSecret);
            var s' := Apply(cfg, w, step).s;
            && req.hostId in s'.agents && s'.agents[req.hostId].secret != w.s.agents[req.hostId].secret
            && !HeldSecret(cfg, w.s, step, req.hostId) && !HeldReissue(w.s, step, req.hostId)
  {
  }

  // ----------------------------------------------- one rebind per reissue

  ghost predicate Inv(w: Fleet) {
    && w.s.tokens.Keys <= w.minted
    && (forall i | 0 <= i < |w.rebinds| :: SpentToken(w, w.rebinds[i].0))
    && (forall i, j | 0 <= i < j < |w.rebinds| :: w.rebinds[i].0 != w.rebinds[j].0)
  }

  ghost predicate SpentToken(w: Fleet, token: Token) {
    token in w.minted && (token in w.s.tokens ==> w.s.tokens[token].used)
  }

  lemma RebindSpendsReissue(cfg: Config, w: Fleet, req: Request, now: real, listing: seq<Host>, newSecret: string)
    requires cfg.rebindAuth && TokenRebind(cfg, w.s, req, now, listing)
    ensures var host, s' := Landing(cfg, w.s, req, now, listing), Enrol(cfg, w.s, req, now, listing, newSecret).0;
            && AuthorizesRebind(w.s.tokens, req.token, host, now)
            && s'.tokens == Claimed(w.s.tokens, req.token, host, now)
  {
  }

  lemma SpentStays(cfg: Config, w: Fleet, step: Step, token: Token)
    requires SpentToken(w, token)
    ensures SpentToken(Apply(cfg, w, step), token)
  {
  }

  lemma ApplyKeepsInv(cfg: Config, w: Fleet, step: Step)
    requires cfg.rebindAuth && Inv(w)
    ensures Inv(Apply(cfg, w, step))
  {
    var w' := Apply(cfg, w, step);
    forall i | 0 <= i < |w.rebinds| ensures SpentToken(w', w.rebinds[i].0) {
      SpentStays(cfg, w, step, w.rebinds[i].0);
    }
    if step.EnrolRequest? && TokenRebind(cfg, w.s, step.req, step.now, step.listing) {
      RebindSpendsReissue(cfg, w, step.req, step.now, step.listing, step.newSecret);
      hide Apply, Enrol, TokenRebind, Landing;
      var n := |w.rebinds|;
      assert forall i | 0 <= i < n :: w'.rebinds[i] == w.rebinds[i];
      forall i | 0 <= i < n ensures w'.rebinds[i].0 != w'.rebinds[n].0 {
        assert SpentToken(w, w.rebinds[i].0);
      }
    }
  }

  lemma {:induction false} RunKeepsInv(cfg: Config, w: Fleet, steps: seq<Step>)
    requires cfg.rebindAuth && Inv(w)
    ensures Inv(Run(cfg, w, steps))
    decreases |steps|
  {
    hide Apply;
    if steps != [] {
      ApplyKeepsInv(cfg, w, steps[0]);
      RunKeepsInv(cfg, Apply(cfg, w, steps[0]), steps[1..]);
    }
  }

  /** A reissue token authorises at most one rebind, whatever the run. */
  lemma ReissueRebindsOnce(cfg: Config, steps: seq<Step>, i: nat, j: nat)
    requires cfg.rebindAuth
    requires i < j < |Run(cfg, EMPTY_FLEET, steps).rebinds|
    ensures var rebinds := Run(cfg, EMPTY_FLEET, steps).rebinds; rebinds[i].0 != rebinds[j].0
  {
    hide Run;
    RunKeepsInv(cfg, EMPTY_FLEET, steps);
  }

  // ----------------------------------------------------------- revocation

  lemma RevokedUntouched(cfg: Config, w: Fleet, step: Step, h: Host)
    requires h in w.s.agents && w.s.agents[h].revoked
    requires step != Restore(h) && !(step.Remove? && step.host == h)
    ensures var s' := Apply(cfg, w, step).s; h in s'.agents && s'.agents[h] == w.s.agents[h]
  {
  }

  /** A revoked record keeps its secret and stays revoked until an explicit
      restore or deletion, whatever tokens, adoptions and requests arrive. */
  lemma {:induction false} RevokedStaysRevoked(cfg: Config, w: Fleet, steps: seq<Step>, h: Host)
    requires h in w.s.agents && w.s.agents[h].revoked
    requires forall k | 0 <= k < |steps| :: steps[k] != Restore(h) && !(steps[k].Remove? && steps[k].host == h)
    ensures var s' := Run(cfg, w, steps).s; h in s'.agents && s'.agents[h] == w.s.agents[h]
    decreases |steps|
  {
    hide Apply;
    if steps != [] {
      RevokedUntouched(cfg, w, steps[0], h);
      RevokedStaysRevoked(cfg, Apply(cfg, w, steps[0]), steps[1..], h);
    }
  }

  /** Revoking locks a host out whatever it presents, and restoring lets exactly the
      secrets in again that were good before; neither touches another record. */
  lemma RevokeThenRestore(cfg: Config, w: Fleet, h: Host, other: Host, presented: string)
    requires h in w.s.agents
    ensures var revoked := Apply(cfg, w, Revoke(h));
            var restored := Apply(cfg, revoked, Restore(h));
            && !Authenticated(cfg, revoked.s.agents, h, presented)
            && (Authenticated(cfg, restored.s.agents, h, presented)
                <==> SecretMatches(cfg, w.s.agents[h].secret, presented))
            && (other != h ==>
                  (Authenticated(cfg, revoked.s.agents, other, presented)
                   <==> Authenticated(cfg, w.s.agents, other, presented)))
            && restored.s.tokens == w.s.tokens
  {
    hide SecretMatches;
  }

  /** A heartbeat with the right secret marks the host seen, keeps what it leaves out and
      goes on authenticating; one without it changes nothing. */
  lemma HeartbeatMeans(cfg: Config, w: Fleet, host: Host, presented: string, now: real,
                       ip: Option<string>, hostname: Option<string>)
    ensures var agents, agents' := w.s.agents, Apply(cfg, w, Heartbeat(host, presented, now, ip, hostname)).s.agents;
            if Authenticated(cfg, agents, host, presented) then
              && agents'.Keys == agents.Keys && (forall h | h in agents && h != host :: agents'[h] == agents[h])
              && agents'[host].lastSeen == now && !agents'[host].revoked
              && agents'[host].ip == (if ip.Some? then ip.value else agents[host].ip)
              && agents'[host].hostname == (if hostname.Some? then hostname.value else agents[host].hostname)
              && (cfg.atRest(presented) != "" ==> Authenticated(cfg, agents', host, presented))
            else agents' == agents
  {
  }

  /** Disenrolling takes the host's own secret, and removes that host and no other. */
  lemma DisenrollMeans(cfg: Config, w: Fleet, host: Host, presented: string)
    ensures var agents, agents' := w.s.agents, Apply(cfg, w, Disenroll(host, presented)).s.agents;
            && (host in agents' <==> host in agents && !Authenticated(cfg, agents, host, presented))
            && forall h | h != host :: (h in agents' <==> h in agents) && (h in agents ==> agents'[h] == agents[h])
  {
  }

  // --------------------------------------------------------- Force Delete

  lemma {:induction false} DeadTokenStaysDead(cfg: Config, w: Fleet, steps: seq<Step>, token: Token)
    requires token in w.minted && token !in w.s.tokens
    ensures token !in Run(cfg, w, steps).s.tokens
    decreases |steps|
  {
    if steps != [] {
      DeadTokenStaysDead(cfg, Apply(cfg, w, steps[0]), steps[1..], token);
    }
  }

  /** Every token in the table was minted, whatever the configuration. */
  lemma {:induction false} TokensAreMinted(cfg: Config, w: Fleet, steps: seq<Step>)
    requires w.s.tokens.Keys <= w.minted
    ensures Run(cfg, w, steps).s.tokens.Keys <= Run(cfg, w, steps).minted
    decreases |steps|
  {
    if steps != [] {
      TokensAreMinted(cfg, Apply(cfg, w, steps[0]), steps[1..]);
    }
  }

  /** After a purging Force Delete in any run, no request carrying a token bound to the deleted
      host is ever accepted again, for this host or any other. */
  lemma ForceDeleteRefusesForEver(cfg: Config, before: seq<Step>, host: Host, after: seq<Step>,
                                  req: Request, now: real, listing: seq<Host>, newSecret: string)
    requires host != ""
    requires var t := Run(cfg, EMPTY_FLEET, before).s.tokens;
             req.token in t && t[req.token].bound == Some(host)
    ensures var w' := Run(cfg, Apply(cfg, Run(cfg, EMPTY_FLEET, before), Remove(host, true)), after);
            Enrol(cfg, w'.s, req, now, listing, newSecret) == (w'.s, Refused(403))
  {
    hide Run;
    TokensAreMinted(cfg, EMPTY_FLEET, before);
    var w := Run(cfg, EMPTY_FLEET, before);
    DeadTokenStaysDead(cfg, Apply(cfg, w, Remove(host, true)), after, req.token);
  }
}
