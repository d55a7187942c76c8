/**
 Refresh-token rotation: a refresh token is verified, put on an expiring blacklist and exchanged
 for a new pair.

 Time is counted in ticks, `resolution` of them to a second, on one clock.  A token's expiry is
 stored in whole seconds and a blacklist lifetime is truncated to whole seconds, so the resolution
 matters: the file proves that refresh tokens are single-use exactly when the clock ticks in whole
 seconds and no leeway is configured.
 */
module JwtRotation {
  import opened Prelude

  datatype Config = Config(resolution: pos, refreshTtlDays: pos, accessTtlMinutes: pos, leewaySeconds: nat)
  {
    function RefreshTtl(): pos { 86400 * refreshTtlDays }
    function AccessTtl(): pos { 60 * accessTtlMinutes }
  }

  /** Verified claims; `exp` is in seconds.  Access tokens have no family of their own. */
  datatype Token = Token(jti: nat, sub: string, refresh: bool, family: nat, exp: int)

  /**
   `issued` stands for the signing key: a token's signature is valid exactly if it was issued.
   `lineage` records, for each issued token, which login it descends from.
   */
  datatype State = State(
    blacklist: map<nat, int>, families: set<(string, nat)>, issued: seq<Token>, lineage: seq<nat>, logins: nat)

  datatype Result =
    | Pair(access: Token, refresh: Token)
    | Done
    | TokenExpired
    | TokenInvalid
    | TokenRevoked

  datatype Op =
    | Login(sub: string)
    | Rotate(token: Token)
    | Revoke(token: Token)
    | IsBlacklisted(jti: nat)
    | Cleanup

  datatype Event = Event(now: int, op: Op)

  // ----- Storage and manager operations on values -----------------------------------------

  predicate Blocked(blacklist: map<nat, int>, jti: nat, now: int) {
    jti in blacklist && now < blacklist[jti]
  }

  /** `exp <= now - leeway` is PyJWT's expiry test. */
  predicate ExpiredAt(cfg: Config, token: Token, now: int) {
    token.exp * cfg.resolution <= now - cfg.leewaySeconds * cfg.resolution
  }

  lemma ExpiredMeans(cfg: Config, token: Token, now: int)
    ensures ExpiredAt(cfg, token, now) <==> now >= (token.exp + cfg.leewaySeconds) * cfg.resolution
  {
    assert (token.exp + cfg.leewaySeconds) * cfg.resolution ==
           token.exp * cfg.resolution + cfg.leewaySeconds * cfg.resolution;
  }

  /** `decode_token` for an expected refresh token: `Done` when it is accepted. */
  function DecodeRefresh(s: State, cfg: Config, token: Token, now: int): Result {
    if token !in s.issued then TokenInvalid
    else if ExpiredAt(cfg, token, now) then TokenExpired
    else if !token.refresh then TokenInvalid
    else Done
  }

  /** `max(int(exp - now), 1)` seconds. */
  function RemainingTtl(cfg: Config, token: Token, now: int): pos {
    Max((token.exp * cfg.resolution - now) / cfg.resolution, 1)
  }

  function BlacklistUntil(cfg: Config, token: Token, now: int): int {
    now + RemainingTtl(cfg, token, now) * cfg.resolution
  }

  function NewAccess(s: State, cfg: Config, sub: string, now: int): Token {
    Token(|s.issued|, sub, false, 0, now / cfg.resolution + cfg.AccessTtl())
  }

  /** Every pair starts a family of its own. */
  function NewRefresh(s: State, cfg: Config, sub: string, now: int): Token {
    Token(|s.issued| + 1, sub, true, |s.issued| + 1, now / cfg.resolution + cfg.RefreshTtl())
  }

  function Issue(s: State, cfg: Config, sub: string, login: nat, now: int): State {
    s.(issued := s.issued + [NewAccess(s, cfg, sub, now), NewRefresh(s, cfg, sub, now)],
       lineage := s.lineage + [login, login])
  }

  function PairOf(s: State, cfg: Config, sub: string, now: int): Result {
    Pair(NewAccess(s, cfg, sub, now), NewRefresh(s, cfg, sub, now))
  }

  predicate FamilyBlocked(s: State, token: Token) {
    (token.sub, token.family) in s.families
  }

  function LoginOf(s: State, token: Token): nat {
    if token.jti < |s.lineage| then s.lineage[token.jti] else 0
  }

  function RotateTokens(s: State, cfg: Config, token: Token, now: int): (State, Result) {
    var decoded := DecodeRefresh(s, cfg, token, now);
    if !decoded.Done? then (s, decoded)
    else if FamilyBlocked(s, token) then (s, TokenRevoked)
    else if Blocked(s.blacklist, token.jti, now) then
      (s.(families := s.families + {(token.sub, token.family)}), TokenRevoked)
    else
      var t := s.(blacklist := s.blacklist[token.jti := BlacklistUntil(cfg, token, now)]);
      (Issue(t, cfg, token.sub, LoginOf(s, token), now), PairOf(t, cfg, token.sub, now))
  }

  function RevokeToken(s: State, cfg: Config, token: Token, now: int): (State, Result) {
    var decoded := DecodeRefresh(s, cfg, token, now);
    if !decoded.Done? then (s, decoded)
    else (s.(blacklist := s.blacklist[token.jti := BlacklistUntil(cfg, token, now)]), Done)
  }

  function Forget(s: State, jti: nat, now: int): State {
    if jti in s.blacklist && now >= s.blacklist[jti] then s.(blacklist := s.blacklist - {jti}) else s
  }

  function Cleaned(s: State, now: int): State {
    s.(blacklist := map jti | jti in s.blacklist && now < s.blacklist[jti] :: s.blacklist[jti])
  }

  function Step(s: State, cfg: Config, e: Event): (State, Result) {
    match e.op
    case Login(sub) =>
      (Issue(s, cfg, sub, s.logins, e.now).(logins := s.logins + 1), PairOf(s, cfg, sub, e.now))
    case Rotate(token) => RotateTokens(s, cfg, token, e.now)
    case Revoke(token) => RevokeToken(s, cfg, token, e.now)
    case IsBlacklisted(jti) => (Forget(s, jti, e.now), Done)
    case Cleanup => (Cleaned(s, e.now), Done)
  }

  // ----- The objects ----------------------------------------------------------------------

  class InMemoryTokenStorage {
    const resolution: pos
    var blacklist: map<nat, int>
    var families: set<(string, nat)>

    constructor (resolution: pos)
      ensures blacklist == map[] && families == {} && this.resolution == resolution
    {
      this.resolution := resolution;
      blacklist, families := map[], {};
    }

    method BlacklistJti(jti: nat, ttlSeconds: pos, now: int)
      modifies this`blacklist
      ensures blacklist == old(blacklist)[jti := now + ttlSeconds * resolution]
    {
      blacklist := blacklist[jti := now + ttlSeconds * resolution];
    }

    method IsBlacklisted(jti: nat, now: int) returns (blocked: bool)
      modifies this`blacklist
      ensures blocked == Blocked(old(blacklist), jti, now)
      ensures blacklist == if jti in old(blacklist) && now >= old(blacklist)[jti]
                           then old(blacklist) - {jti} else old(blacklist)
    {
      if jti !in blacklist {
        return false;
      }
      if now >= blacklist[jti] {
        blacklist := blacklist - {jti};
        return false;
      }
      return true;
    }

    /** Check and set in one step. */
    method TryBlacklistJti(jti: nat, ttlSeconds: pos, now: int) returns (added: bool)
      modifies this`blacklist
      ensures added == !Blocked(old(blacklist), jti, now)
      ensures blacklist == if added then old(blacklist)[jti := now + ttlSeconds * resolution] else old(blacklist)
    {
      if jti in blacklist && now < blacklist[jti] {
        return false;
      }
      blacklist := blacklist[jti := now + ttlSeconds * resolution];
      return true;
    }

    method Cleanup(now: int)
      modifies this`blacklist
      ensures blacklist == map jti | jti in old(blacklist) && now < old(blacklist)[jti] :: old(blacklist)[jti]
    {
      ghost var before := blacklist;
      var expired := set jti | jti in blacklist && now >= blacklist[jti];
      while expired != {}
        invariant expired <= blacklist.Keys <= before.Keys
        invariant forall jti :: jti in before && now < before[jti] ==> jti in blacklist
        invariant forall jti :: jti in blacklist && now >= before[jti] ==> jti in expired
        invariant forall jti :: jti in blacklist ==> blacklist[jti] == before[jti]
        decreases expired
      {
        var jti :| jti in expired;
        blacklist := blacklist - {jti};
        expired := expired - {jti};
      }
    }

    method BlacklistFamily(sub: string, family: nat)
      modifies this`families
      ensures families == old(families) + {(sub, family)}
    {
      families := families + {(sub, family)};
    }

    method IsFamilyBlacklisted(sub: string, family: nat) returns (blocked: bool)
      ensures blocked == ((sub, family) in families)
    {
      blocked := (sub, family) in families;
    }
  }

  class JWTManager {
    const cfg: Config
    const storage: InMemoryTokenStorage
    var issued: seq<Token>
    ghost var lineage: seq<nat>
    ghost var logins: nat

    ghost function S(): State
      reads this, storage
    {
      State(storage.blacklist, storage.families, issued, lineage, logins)
    }

    constructor (cfg: Config, storage: InMemoryTokenStorage)
      requires storage.resolution == cfg.resolution && storage.blacklist == map[] && storage.families == {}
      ensures this.cfg == cfg && this.storage == storage && S() == Start()
    {
      this.cfg, this.storage := cfg, storage;
      issued, lineage, logins := [], [], 0;
    }

    /** Accepted while issued, for rotation, and until the leeway after its expiry is over. */
    method Decode(token: Token, now: int) returns (result: Result)
      ensures result == DecodeRefresh(S(), cfg, token, now)
      ensures result.Done? <==>
                token in issued && token.refresh && now < (token.exp + cfg.leewaySeconds) * cfg.resolution
      ensures result.TokenExpired? <==> token in issued && now >= (token.exp + cfg.leewaySeconds) * cfg.resolution
      ensures result.Done? || result.TokenExpired? || result.TokenInvalid?
    {
      ExpiredMeans(cfg, token, now);
      if token !in issued {
        return TokenInvalid;
      }
      if ExpiredAt(cfg, token, now) {
        return TokenExpired;
      }
      if !token.refresh {
        return TokenInvalid;
      }
      return Done;
    }

    method CreateTokenPair(sub: string, ghost login: nat, now: int) returns (pair: Result)
      modifies this`issued, this`lineage
      ensures S() == Issue(old(S()), cfg, sub, login, now) && pair == PairOf(old(S()), cfg, sub, now)
      ensures pair.Pair? && issued == old(issued) + [pair.access, pair.refresh]
      ensures pair.access.sub == pair.refresh.sub == sub && !pair.access.refresh && pair.refresh.refresh
      ensures pair.access.exp == now / cfg.resolution + 60 * cfg.accessTtlMinutes
      ensures pair.refresh.exp == now / cfg.resolution + 86400 * cfg.refreshTtlDays
    {
      var n := |issued|;
      var access := Token(n, sub, false, 0, now / cfg.resolution + cfg.AccessTtl());
      var refresh := Token(n + 1, sub, true, n + 1, now / cfg.resolution + cfg.RefreshTtl());
      issued := issued + [access, refresh];
      lineage := lineage + [login, login];
      pair := Pair(access, refresh);
    }

    method LogIn(sub: string, now: int) returns (pair: Result)
      modifies this
      ensures (S(), pair) == Step(old(S()), cfg, Event(now, Login(sub)))
    {
      pair := CreateTokenPair(sub, logins, now);
      logins := logins + 1;
    }

    method RotateTokens(token: Token, now: int) returns (result: Result)
      requires storage.resolution == cfg.resolution
      modifies this, storage
      ensures (S(), result) == Step(old(S()), cfg, Event(now, Rotate(token)))
      ensures result.Pair? ==>
                && issued == old(issued) + [result.access, result.refresh]
                && result.access.sub == result.refresh.sub == token.sub
                && !result.access.refresh && result.refresh.refresh
    {
      var decoded := Decode(token, now);
      if !decoded.Done? {
        return decoded;
      }
      var familyBlocked := storage.IsFamilyBlacklisted(token.sub, token.family);
      if familyBlocked {
        return TokenRevoked;
      }
      var remaining := RemainingTtl(cfg, token, now);
      var added := storage.TryBlacklistJti(token.jti, remaining, now);
      if !added {
        storage.BlacklistFamily(token.sub, token.family);
        return TokenRevoked;
      }
      result := CreateTokenPair(token.sub, LoginOf(S(), token), now);
    }

    method RevokeRefreshToken(token: Token, now: int) returns (result: Result)
      requires storage.resolution == cfg.resolution
      modifies this, storage
      ensures (S(), result) == Step(old(S()), cfg, Event(now, Revoke(token)))
    {
      result := Decode(token, now);
      if result.Done? {
        storage.BlacklistJti(token.jti, RemainingTtl(cfg, token, now), now);
      }
    }
  }

  // ----- Runs -----------------------------------------------------------------------------

  function Start(): State {
    State(map[], {}, [], [], 0)
  }

  function After(cfg: Config, run: seq<Event>): State {
    if run == [] then Start() else Step(After(cfg, run[..|run| - 1]), cfg, run[|run| - 1]).0
  }

  function ResultAt(cfg: Config, run: seq<Event>, i: nat): Result
    requires i < |run|
  {
    Step(After(cfg, run[..i]), cfg, run[i]).1
  }

  ghost predicate Ordered(run: seq<Event>) {
    forall i, j :: 0 <= i < j < |run| ==> run[i].now <= run[j].now
  }

  /** Event `i` used `token` up: it was rotated into a new pair, or revoked. */
  predicate Consumes(cfg: Config, run: seq<Event>, i: nat, token: Token)
    requires i < |run|
  {
    || (run[i].op == Rotate(token) && ResultAt(cfg, run, i).Pair?)
    || (run[i].op == Revoke(token) && ResultAt(cfg, run, i).Done?)
  }

  /** Once consumed, a token is never rotated again, in any run. */
  ghost predicate SingleUse(cfg: Config) {
    forall run: seq<Event>, i, j, token ::
      Ordered(run) && 0 <= i < j < |run| && Consumes(cfg, run, i, token) && run[j].op == Rotate(token) ==>
        !ResultAt(cfg, run, j).Pair?
  }

  // ----- Whole seconds and no leeway ------------------------------------------------------

  predicate Exact(cfg: Config) {
    cfg.resolution == 1 && cfg.leewaySeconds == 0
  }

  /** The token can never be accepted from `now` on: expired, or blocked until it expires. */
  ghost predicate Dead(s: State, token: Token, now: int) {
    token.exp <= now || (token.jti in s.blacklist && s.blacklist[token.jti] >= token.exp)
  }

  /** The token would rotate at `now`. */
  ghost predicate Usable(s: State, cfg: Config, token: Token, now: int) {
    && token in s.issued && token.refresh && !ExpiredAt(cfg, token, now)
    && !Blocked(s.blacklist, token.jti, now) && !FamilyBlocked(s, token)
  }

  ghost predicate Numbered(s: State) {
    && |s.lineage| == |s.issued|
    && (forall i :: 0 <= i < |s.issued| ==> s.issued[i].jti == i && s.lineage[i] < s.logins)
    && (forall i :: 0 <= i < |s.issued| && s.issued[i].refresh ==> s.issued[i].family == i)
    && (forall f :: f in s.families ==> f.1 < |s.issued|)
    && (forall jti :: jti in s.blacklist ==> jti < |s.issued|)
  }

  /** In each lineage, every refresh token but the newest is dead. */
  ghost predicate OlderDead(s: State, now: int)
    requires Numbered(s)
  {
    forall i, j :: 0 <= i < j < |s.issued| && SameLine(s, i, j) ==> Dead(s, s.issued[i], now)
  }

  /** Two refresh tokens of one lineage. */
  ghost predicate SameLine(s: State, i: nat, j: nat)
    requires Numbered(s) && i < |s.issued| && j < |s.issued|
  {
    s.issued[i].refresh && s.issued[j].refresh && s.lineage[i] == s.lineage[j]
  }

  /** A family is revoked only after its one refresh token is dead. */
  ghost predicate RevokedFamiliesDead(s: State, now: int) {
    forall t :: t in s.issued && t.refresh && FamilyBlocked(s, t) ==> Dead(s, t, now)
  }

  /** A blacklist record lasts until its token expires. */
  ghost predicate RecordsLast(s: State) {
    forall t :: t in s.issued && t.jti in s.blacklist ==> s.blacklist[t.jti] >= t.exp
  }

  ghost predicate Invariant(s: State, now: int) {
    Numbered(s) && RecordsLast(s) && OlderDead(s, now) && RevokedFamiliesDead(s, now)
  }

  /** Moving from `s` to `t`, no token of `s` comes back to life. */
  ghost predicate KeepsDead(s: State, now: int, t: State, later: int) {
    forall token :: token in s.issued && Dead(s, token, now) ==> Dead(t, token, later)
  }

  /** A step only touches the blacklist, or reports the reuse of a token that is already blocked. */
  lemma BlacklistStepKeeps(s: State, t: State, now: int, later: int)
    requires Invariant(s, now) && KeepsDead(s, now, t, later)
    requires t.issued == s.issued && t.lineage == s.lineage && t.logins == s.logins && s.families <= t.families
    requires forall f :: f in t.families && f !in s.families ==> f.1 < |s.issued| && Dead(t, s.issued[f.1], later)
    requires RecordsLast(t) && forall jti :: jti in t.blacklist ==> jti < |s.issued|
    ensures Invariant(t, later)
  {
    forall token | token in t.issued && token.refresh && FamilyBlocked(t, token) ensures Dead(t, token, later) {
      if !FamilyBlocked(s, token) {
        assert token == s.issued[token.family];
      }
    }
    forall i, j | 0 <= i < j < |t.issued| && SameLine(t, i, j) ensures Dead(t, t.issued[i], later) {
      assert SameLine(s, i, j);
    }
  }

  /** A pair may be issued for a lineage once all its refresh tokens are dead. */
  lemma IssueKeeps(s: State, cfg: Config, sub: string, login: nat, logins: nat, now: int)
    requires Invariant(s, now) && s.logins <= logins && login < logins
    requires forall i :: 0 <= i < |s.issued| && s.issued[i].refresh && s.lineage[i] == login ==>
               Dead(s, s.issued[i], now)
    ensures Invariant(Issue(s, cfg, sub, login, now).(logins := logins), now)
  {
    var t := Issue(s, cfg, sub, login, now).(logins := logins);
    var n := |s.issued|;
    assert t.issued[n + 1] == NewRefresh(s, cfg, sub, now) && t.issued[n] == NewAccess(s, cfg, sub, now);
    forall token | token in t.issued && token.refresh && FamilyBlocked(t, token) ensures Dead(t, token, now) {
      assert token.family < n;
      assert token in s.issued;
    }
    assert Numbered(t);
    forall i, j | 0 <= i < j < |t.issued| && SameLine(t, i, j) ensures Dead(t, t.issued[i], now) {
      assert i < n && t.issued[i] == s.issued[i] && t.lineage[i] == s.lineage[i];
      if j < n {
        assert SameLine(s, i, j);
      }
    }
  }

  lemma LaterKeeps(s: State, now: int, later: int)
    requires Invariant(s, now) && now <= later
    ensures Invariant(s, later) && KeepsDead(s, now, s, later)
  {
    BlacklistStepKeeps(s, s, now, later);
  }

  /** In whole seconds an accepted token is blocked exactly until it expires. */
  lemma BlockedUntilExpiry(s: State, cfg: Config, token: Token, now: int)
    requires Exact(cfg) && DecodeRefresh(s, cfg, token, now).Done?
    ensures token.exp > now && BlacklistUntil(cfg, token, now) == token.exp
  {}

  lemma BlockingKeeps(s: State, cfg: Config, token: Token, now: int)
    requires Exact(cfg) && Invariant(s, now) && DecodeRefresh(s, cfg, token, now).Done?
    ensures var t := s.(blacklist := s.blacklist[token.jti := BlacklistUntil(cfg, token, now)]);
            Invariant(t, now) && KeepsDead(s, now, t, now) && Dead(t, token, now)
  {
    var t := s.(blacklist := s.blacklist[token.jti := BlacklistUntil(cfg, token, now)]);
    BlockedUntilExpiry(s, cfg, token, now);
    forall u | u in s.issued && Dead(s, u, now) ensures Dead(t, u, now) {
      if u.jti == token.jti {
        assert u == s.issued[u.jti] == token;
      }
    }
    BlacklistStepKeeps(s, t, now, now);
  }

  /** Lazy deletion and cleanup drop only records that have run out, along with their tokens. */
  lemma ForgettingKeeps(s: State, t: State, now: int)
    requires Invariant(s, now) && t.(blacklist := s.blacklist) == s
    requires t.blacklist.Keys <= s.blacklist.Keys
    requires forall jti :: jti in t.blacklist ==> t.blacklist[jti] == s.blacklist[jti]
    requires forall jti :: jti in s.blacklist && now < s.blacklist[jti] ==> jti in t.blacklist
    ensures Invariant(t, now) && KeepsDead(s, now, t, now)
  {
    BlacklistStepKeeps(s, t, now, now);
  }

  lemma RotateKeeps(s: State, cfg: Config, token: Token, now: int)
    requires Exact(cfg) && Invariant(s, now)
    ensures var (t, result) := RotateTokens(s, cfg, token, now);
            && Invariant(t, now) && KeepsDead(s, now, t, now)
            && (result.Pair? ==> !Dead(s, token, now) && Dead(t, token, now))
  {
    if DecodeRefresh(s, cfg, token, now).Done? && !FamilyBlocked(s, token) {
      assert token == s.issued[token.jti];
      if Blocked(s.blacklist, token.jti, now) {
        ReuseKeeps(s, cfg, token, now);
      } else {
        var t := s.(blacklist := s.blacklist[token.jti := BlacklistUntil(cfg, token, now)]);
        BlockingKeeps(s, cfg, token, now);
        BlockedUntilExpiry(s, cfg, token, now);
        var login := LoginOf(s, token);
        forall i | 0 <= i < |s.issued| && s.issued[i].refresh && s.lineage[i] == login
          ensures Dead(t, t.issued[i], now)
        {
          if i > token.jti {
            assert SameLine(s, token.jti, i);
          } else if i < token.jti {
            assert SameLine(s, i, token.jti);
          }
        }
        IssueKeeps(t, cfg, token.sub, login, t.logins, now);
      }
    }
  }

  lemma ReuseKeeps(s: State, cfg: Config, token: Token, now: int)
    requires Exact(cfg) && Invariant(s, now) && DecodeRefresh(s, cfg, token, now).Done?
    requires Blocked(s.blacklist, token.jti, now)
    ensures var t := s.(families := s.families + {(token.sub, token.family)});
            Invariant(t, now) && KeepsDead(s, now, t, now)
  {
    BlacklistStepKeeps(s, s.(families := s.families + {(token.sub, token.family)}), now, now);
  }

  lemma StepKeeps(s: State, cfg: Config, e: Event, now: int)
    requires Exact(cfg) && Invariant(s, now) && now <= e.now
    ensures var t := Step(s, cfg, e).0;
            Invariant(t, e.now) && KeepsDead(s, now, t, e.now) && s.issued <= t.issued
  {
    LaterKeeps(s, now, e.now);
    StepKeepsAt(s, cfg, e);
    StayDead(s, now, s, e.now, Step(s, cfg, e).0, e.now);
  }

  lemma StayDead(s: State, now: int, t: State, later: int, u: State, last: int)
    requires KeepsDead(s, now, t, later) && KeepsDead(t, later, u, last) && s.issued <= t.issued
    ensures KeepsDead(s, now, u, last)
  {
    forall token | token in s.issued && Dead(s, token, now) ensures Dead(u, token, last) {
      assert token in t.issued && Dead(t, token, later);
    }
  }

  lemma StepKeepsAt(s: State, cfg: Config, e: Event)
    requires Exact(cfg) && Invariant(s, e.now)
    ensures var t := Step(s, cfg, e).0;
            Invariant(t, e.now) && KeepsDead(s, e.now, t, e.now) && s.issued <= t.issued
  {
    var t := Step(s, cfg, e).0;
    match e.op
    case Login(sub) => IssueKeeps(s, cfg, sub, s.logins, s.logins + 1, e.now);
    case Rotate(token) => RotateKeeps(s, cfg, token, e.now);
    case Revoke(token) =>
      if DecodeRefresh(s, cfg, token, e.now).Done? {
        BlockingKeeps(s, cfg, token, e.now);
      }
    case IsBlacklisted(_) => ForgettingKeeps(s, t, e.now);
    case Cleanup => ForgettingKeeps(s, t, e.now);
  }

  lemma {:induction false} RunKeeps(cfg: Config, run: seq<Event>, now: int)
    requires Exact(cfg) && Ordered(run) && (run != [] ==> run[|run| - 1].now <= now)
    ensures Invariant(After(cfg, run), now)
  {
    if run != [] {
      var init, last := run[..|run| - 1], run[|run| - 1];
      RunKeeps(cfg, init, last.now);
      StepKeeps(After(cfg, init), cfg, last, last.now);
      LaterKeeps(After(cfg, run), last.now, now);
    }
  }

  lemma AfterNext(cfg: Config, run: seq<Event>, n: nat)
    requires n < |run|
    ensures After(cfg, run[..n + 1]) == Step(After(cfg, run[..n]), cfg, run[n]).0
  {
    assert run[..n + 1][..n] == run[..n];
  }

  lemma ConsumptionKills(s: State, cfg: Config, e: Event, token: Token)
    requires Exact(cfg) && Invariant(s, e.now)
    requires var result := Step(s, cfg, e).1;
             (e.op == Rotate(token) && result.Pair?) || (e.op == Revoke(token) && result.Done?)
    ensures var t := Step(s, cfg, e).0; token in t.issued && Dead(t, token, e.now)
  {
    if e.op.Rotate? {
      RotateKeeps(s, cfg, token, e.now);
    } else {
      BlockingKeeps(s, cfg, token, e.now);
    }
  }

  /** What event `i` consumed is dead at every later point of the run. */
  lemma {:induction false} ConsumedStaysDead(cfg: Config, run: seq<Event>, i: nat, j: nat, token: Token)
    requires Exact(cfg) && Ordered(run) && i < j <= |run| && Consumes(cfg, run, i, token)
    ensures token in After(cfg, run[..j]).issued && Dead(After(cfg, run[..j]), token, run[j - 1].now)
  {
    var k := j - 1;
    var s, e := After(cfg, run[..k]), run[k];
    AfterNext(cfg, run, k);
    if i == k {
      ConsumedAt(cfg, run, i, token);
    } else {
      ConsumedStaysDead(cfg, run, i, k, token);
      RunKeeps(cfg, run[..k], run[k - 1].now);
      StillDead(s, cfg, e, run[k - 1].now, token);
    }
  }

  lemma ConsumedAt(cfg: Config, run: seq<Event>, i: nat, token: Token)
    requires Exact(cfg) && Ordered(run) && i < |run| && Consumes(cfg, run, i, token)
    ensures var t := Step(After(cfg, run[..i]), cfg, run[i]).0; token in t.issued && Dead(t, token, run[i].now)
  {
    RunKeeps(cfg, run[..i], run[i].now);
    ConsumptionKills(After(cfg, run[..i]), cfg, run[i], token);
  }

  lemma StillDead(s: State, cfg: Config, e: Event, now: int, token: Token)
    requires Exact(cfg) && Invariant(s, now) && now <= e.now && token in s.issued && Dead(s, token, now)
    ensures var t := Step(s, cfg, e).0; token in t.issued && Dead(t, token, e.now)
  {
    StepKeeps(s, cfg, e, now);
  }

  lemma ExactIsSingleUse(cfg: Config)
    requires Exact(cfg)
    ensures SingleUse(cfg)
  {
    forall run: seq<Event>, i, j, token |
      Ordered(run) && 0 <= i < j < |run| && Consumes(cfg, run, i, token) && run[j].op == Rotate(token)
      ensures !ResultAt(cfg, run, j).Pair?
    {
      ConsumedStaysDead(cfg, run, i, j, token);
      RunKeeps(cfg, run[..j], run[j].now);
      RotateKeeps(After(cfg, run[..j]), cfg, token, run[j].now);
    }
  }

  // ----- Otherwise a consumed token comes back --------------------------------------------

  /** The refresh token of a login at tick 0. */
  function FirstToken(cfg: Config, sub: string): Token {
    Token(1, sub, true, 1, cfg.RefreshTtl())
  }

  /** Log in, rotate at tick `first`, and rotate the same token again when its blacklist record has run out. */
  function ReplayRun(cfg: Config, sub: string, first: nat): seq<Event> {
    var token := FirstToken(cfg, sub);
    [Event(0, Login(sub)), Event(first, Rotate(token)), Event(BlacklistUntil(cfg, token, first), Rotate(token))]
  }

  lemma ReplaySucceeds(cfg: Config, sub: string, first: nat)
    requires var token := FirstToken(cfg, sub);
             && !ExpiredAt(cfg, token, first)
             && !ExpiredAt(cfg, token, BlacklistUntil(cfg, token, first))
    ensures var run := ReplayRun(cfg, sub, first);
            && Ordered(run) && Consumes(cfg, run, 1, FirstToken(cfg, sub)) && ResultAt(cfg, run, 2).Pair?
  {
    var run, token := ReplayRun(cfg, sub, first), FirstToken(cfg, sub);
    AfterNext(cfg, run, 0);
    AfterNext(cfg, run, 1);
    assert run[..0] == [];
    var s1 := After(cfg, run[..1]);
    assert s1 == Issue(Start(), cfg, sub, 0, 0).(logins := 1);
    assert s1.issued[1] == token;
    assert ResultAt(cfg, run, 1).Pair?;
    var s2 := After(cfg, run[..2]);
    assert s2 == RotateTokens(s1, cfg, token, first).0;
    assert s2.issued[1] == token;
    assert !Blocked(s2.blacklist, token.jti, run[2].now);
  }

  lemma InexactReplays(cfg: Config, sub: string) returns (first: nat)
    requires !Exact(cfg)
    ensures var token := FirstToken(cfg, sub);
            && !ExpiredAt(cfg, token, first)
            && !ExpiredAt(cfg, token, BlacklistUntil(cfg, token, first))
  {
    var token, r, ttl := FirstToken(cfg, sub), cfg.resolution, cfg.RefreshTtl();
    NonNegativeProduct(cfg.leewaySeconds, r);
    if cfg.leewaySeconds > 0 {
      first := 0;
      MultipleOf(ttl, r);
      PositiveProduct(cfg.leewaySeconds, r);
      PositiveProduct(ttl, r);
    } else {
      first := 1;
      OneTickLess(ttl, r);
    }
  }

  lemma NonNegativeProduct(a: nat, b: pos)
    ensures a * b >= 0
  {}

  lemma PositiveProduct(a: pos, b: pos)
    ensures a * b >= 1
  {}

  lemma QuotientIs(x: int, q: int, r: int, b: pos)
    requires x == q * b + r && 0 <= r < b
    ensures x / b == q
  {
    var d := x / b - q;
    assert d * b == r - x % b by {
      assert (x / b) * b == x - x % b;
      assert d * b == (x / b) * b - q * b;
    }
    MultipleSize(d, b);
  }

  lemma MultipleSize(d: int, b: pos)
    ensures d >= 1 ==> d * b >= b
    ensures d <= -1 ==> d * b + b <= 0
  {
    if d >= 1 {
      assert (d - 1) * b >= 0;
    } else if d <= -1 {
      assert (-1 - d) * b >= 0;
    }
  }

  lemma MultipleOf(a: nat, b: pos)
    ensures (a * b - 0) / b == a
  {
    QuotientIs(a * b - 0, a, 0, b);
  }

  /** One tick into a lifetime of `ttl` seconds, the whole seconds left are `ttl - 1`. */
  lemma OneTickLess(ttl: int, r: pos)
    requires ttl >= 2 && r >= 2
    ensures (ttl * r - 1) / r == ttl - 1
    ensures 1 + (ttl - 1) * r < ttl * r && 1 < ttl * r
  {
    assert (ttl - 1) * r == ttl * r - r;
    assert (ttl - 2) * r >= 0 && (ttl - 2) * r == ttl * r - 2 * r;
    QuotientIs(ttl * r - 1, ttl - 1, r - 1, r);
  }

  /** Refresh tokens are single-use in every run exactly when time is in whole seconds and the leeway is zero. */
  lemma SingleUseIffExact(cfg: Config)
    ensures SingleUse(cfg) <==> Exact(cfg)
  {
    if Exact(cfg) {
      ExactIsSingleUse(cfg);
    } else {
      var first := InexactReplays(cfg, "user");
      ReplaySucceeds(cfg, "user", first);
      assert ReplayRun(cfg, "user", first)[2].op == Rotate(FirstToken(cfg, "user"));
    }
  }

  // ----- One usable token per login -------------------------------------------------------

  ghost function UsableIds(s: State, cfg: Config, now: int): set<nat> {
    set t | t in s.issued && Usable(s, cfg, t, now) :: t.jti
  }

  lemma UsableRotates(s: State, cfg: Config, token: Token, now: int)
    ensures RotateTokens(s, cfg, token, now).1.Pair? <==> Usable(s, cfg, token, now)
  {}

  /** At any time, the usable refresh tokens never outnumber the logins: at most one per lineage. */
  lemma UsableWithinLogins(cfg: Config, run: seq<Event>, now: int)
    requires Exact(cfg) && Ordered(run) && (run != [] ==> run[|run| - 1].now <= now)
    ensures var s := After(cfg, run);
            && |UsableIds(s, cfg, now)| <= s.logins
            && forall i, j :: i in UsableIds(s, cfg, now) && j in UsableIds(s, cfg, now) && i != j ==>
                 i < |s.lineage| && j < |s.lineage| && s.lineage[i] != s.lineage[j]
  {
    var s := After(cfg, run);
    RunKeeps(cfg, run, now);
    forall i, j | i in UsableIds(s, cfg, now) && j in UsableIds(s, cfg, now) && i < j
      ensures s.lineage[i] != s.lineage[j]
    {
      if s.lineage[i] == s.lineage[j] {
        assert SameLine(s, i, j);
      }
    }
    InjectiveBound(UsableIds(s, cfg, now), s.lineage, s.logins);
  }

  /** A set of indices on which `f` is injective into 0..n has at most n elements. */
  lemma {:induction false} InjectiveBound(ids: set<nat>, f: seq<nat>, n: nat)
    requires forall i :: i in ids ==> i < |f| && f[i] < n
    requires forall i, j :: i in ids && j in ids && i != j ==> f[i] != f[j]
    ensures |ids| <= n
    decreases n
  {
    if n > 0 {
      var rest := set i | i in ids && f[i] != n - 1;
      InjectiveBound(rest, f, n - 1);
      if rest != ids {
        var top :| top in ids && f[top] == n - 1;
        assert ids == rest + {top};
      }
    } else {
      assert ids == {};
    }
  }
}
