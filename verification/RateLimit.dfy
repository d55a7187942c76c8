/**
 The rate limiter: per-key window counters, and escalating capped bans on violations.

 Times are clock readings in seconds; each `check` uses one reading.  Windows of one key start at
 the request that opens them and never overlap.
 */
module RateLimit {
  import opened Prelude

  datatype Key =
    | IpKey(ip: string, endpoint: string)
    | UserKey(user: string, endpoint: string)
    | ApiKey(apiKey: string, endpoint: string)

  type factor = x: real | x >= 1.0 witness 1.0

  datatype Config = Config(
    sliding: bool, windowSeconds: pos, maxRequests: pos,
    banThreshold: pos, banDuration: pos, multiplier: factor, maxBanDuration: pos,
    perUser: bool, perApiKey: bool)
  {
    /** Age at which a violation record is swept. */
    function ViolationTtl(): pos {
      Max(banDuration, maxBanDuration)
    }
  }

  datatype Counter = Counter(count: nat, start: real)
  datatype Violation = Violation(count: nat, at: real)

  datatype State = State(
    counters: map<Key, Counter>,
    prevCounts: map<Key, nat>,
    windowSizes: map<Key, pos>,
    bans: map<string, real>,
    violations: map<string, Violation>)

  /** `userId` and `apiKey` are empty when absent. */
  datatype Request = Request(now: real, ip: string, endpoint: string, userId: string, apiKey: string)

  datatype Outcome =
    | Banned(retryAfter: int)
    | Exceeded(retryAfter: int)
    | Admitted(remaining: nat)

  // ----- Backend operations on values -----------------------------------------------------

  function Increment(s: State, key: Key, window: pos, now: real): State {
    var sized := s.(windowSizes := s.windowSizes[key := window]);
    if key in s.counters then
      var c := s.counters[key];
      if now - c.start >= window as real then
        sized.(prevCounts := s.prevCounts[key := c.count], counters := s.counters[key := Counter(1, now)])
      else
        sized.(counters := s.counters[key := Counter(c.count + 1, c.start)])
    else
      sized.(counters := s.counters[key := Counter(1, now)])
  }

  function WindowOf(s: State, key: Key): pos {
    if key in s.windowSizes then s.windowSizes[key] else 60
  }

  predicate Expired(s: State, key: Key, now: real)
    requires key in s.counters
  {
    now - s.counters[key].start >= WindowOf(s, key) as real
  }

  /** Readers drop a counter whose window is over, remembering its count. */
  function DropExpired(s: State, key: Key, now: real): State {
    if key in s.counters && Expired(s, key, now) then
      s.(prevCounts := s.prevCounts[key := s.counters[key].count], counters := s.counters - {key})
    else s
  }

  function PrevOf(s: State, key: Key): nat {
    if key in s.prevCounts then s.prevCounts[key] else 0
  }

  /** Current count plus the previous one, weighted by how much of its window still overlaps. */
  function Weighted(count: nat, prev: nat, elapsed: real, window: pos): real
  {
    count as real + prev as real * (1.0 - elapsed / window as real)
  }

  /** What `n` requests and `p` in the window before use up `e` seconds into a window of `w` seconds. */
  function SlidingUse(n: nat, p: nat, e: real, w: pos): real {
    n as real * w as real + p as real * (w as real - e)
  }

  lemma WeightedUse(n: nat, p: nat, e: real, w: pos)
    ensures Weighted(n, p, e, w) * w as real == SlidingUse(n, p, e, w)
  {
    var q := e / w as real;
    assert q * w as real == e;
    assert (n as real + p as real * (1.0 - q)) * w as real
        == n as real * w as real + p as real * (w as real - q * w as real);
  }

  function SlidingCount(s: State, key: Key, now: real): real
  {
    if key !in s.counters || Expired(s, key, now) then 0.0
    else Weighted(s.counters[key].count, PrevOf(s, key), now - s.counters[key].start, WindowOf(s, key))
  }

  function FixedCount(s: State, key: Key): nat {
    if key in s.counters then s.counters[key].count else 0
  }

  predicate IsBanned(s: State, ip: string, now: real) {
    ip in s.bans && now < s.bans[ip]
  }

  function ForgetExpiredBan(s: State, ip: string, now: real): State {
    if ip in s.bans && now >= s.bans[ip] then s.(bans := s.bans - {ip}) else s
  }

  function ViolationCount(s: State, ip: string): nat {
    if ip in s.violations then s.violations[ip].count else 0
  }

  function SweepViolations(s: State, ttl: nat, now: real): State {
    s.(violations := map ip | ip in s.violations && !(now - s.violations[ip].at >= ttl as real) :: s.violations[ip])
  }

  function Pow(b: real, n: nat): real {
    if n == 0 then 1.0 else b * Pow(b, n - 1)
  }

  /** Ban length for the given (positive) violation count. */
  function BanDuration(cfg: Config, violations: pos): int {
    Min((cfg.banDuration as real * Pow(cfg.multiplier, violations - 1)).Floor, cfg.maxBanDuration)
  }

  // ----- One check ------------------------------------------------------------------------

  predicate UsesUser(cfg: Config, req: Request) {
    cfg.perUser && req.userId != ""
  }

  predicate UsesApiKey(cfg: Config, req: Request) {
    cfg.perApiKey && req.apiKey != ""
  }

  function IpKeyOf(req: Request): Key { IpKey(req.ip, req.endpoint) }
  function UserKeyOf(req: Request): Key { UserKey(req.userId, req.endpoint) }
  function ApiKeyOf(req: Request): Key { ApiKey(req.apiKey, req.endpoint) }

  /** The backend after all counters of the request are incremented. */
  function Counted(s: State, cfg: Config, req: Request): State {
    var s1 := Increment(s, IpKeyOf(req), cfg.windowSeconds, req.now);
    var s2 := if UsesUser(cfg, req) then Increment(s1, UserKeyOf(req), cfg.windowSeconds, req.now) else s1;
    if UsesApiKey(cfg, req) then Increment(s2, ApiKeyOf(req), cfg.windowSeconds, req.now) else s2
  }

  /** The count a limit is compared with. */
  function Effective(s: State, cfg: Config, key: Key, now: real): real {
    if cfg.sliding then SlidingCount(s, key, now) else FixedCount(s, key) as real
  }

  /** The limit holds on every dimension in use, in the counted state `s`. */
  predicate WithinLimits(s: State, cfg: Config, req: Request) {
    var limit := cfg.maxRequests as real;
    && Effective(s, cfg, IpKeyOf(req), req.now) <= limit
    && (UsesUser(cfg, req) ==> Effective(s, cfg, UserKeyOf(req), req.now) <= limit)
    && (UsesApiKey(cfg, req) ==> Effective(s, cfg, ApiKeyOf(req), req.now) <= limit)
  }

  function Left(limit: nat, effective: real): nat {
    Max(0, limit - effective.Floor)
  }

  /** The lowest remaining allowance over the dimensions in use. */
  function Remaining(s: State, cfg: Config, req: Request): nat {
    var limit := cfg.maxRequests;
    var ip := Left(limit, Effective(s, cfg, IpKeyOf(req), req.now));
    var user := if UsesUser(cfg, req) then Left(limit, Effective(s, cfg, UserKeyOf(req), req.now)) else limit;
    var apiKey := if UsesApiKey(cfg, req) then Left(limit, Effective(s, cfg, ApiKeyOf(req), req.now)) else limit;
    Min(ip, Min(user, apiKey))
  }

  function RecordViolation(s: State, ip: string, now: real): State {
    s.(violations := s.violations[ip := Violation(ViolationCount(s, ip) + 1, now)])
  }

  /** One more violation, and the records that are old by this configuration gone. */
  function Swept(s: State, cfg: Config, ip: string, now: real): State {
    SweepViolations(RecordViolation(s, ip, now), cfg.ViolationTtl(), now)
  }

  function Punish(s: State, cfg: Config, ip: string, now: real): (State, Outcome) {
    var violations := ViolationCount(s, ip) + 1;
    var swept := Swept(s, cfg, ip, now);
    var duration := BanDuration(cfg, violations);
    var banned := swept.(bans := swept.bans[ip := now + duration as real]);
    var after := if violations >= cfg.banThreshold then banned else swept;
    (after, Exceeded(duration))
  }

  function CheckResult(s: State, resolve: string -> Config, req: Request): (State, Outcome) {
    var cfg := resolve(req.endpoint);
    if IsBanned(s, req.ip, req.now) then (s, Banned((s.bans[req.ip] - req.now).Floor))
    else
      var counted := Counted(ForgetExpiredBan(s, req.ip, req.now), cfg, req);
      if WithinLimits(counted, cfg, req) then (counted, Admitted(Remaining(counted, cfg, req)))
      else Punish(counted, cfg, req.ip, req.now)
  }

  /** Every counter of the request exists and its window is open. */
  predicate CountsFresh(s: State, cfg: Config, req: Request) {
    && (IpKeyOf(req) in s.counters && !Expired(s, IpKeyOf(req), req.now))
    && (UsesUser(cfg, req) ==> UserKeyOf(req) in s.counters && !Expired(s, UserKeyOf(req), req.now))
    && (UsesApiKey(cfg, req) ==> ApiKeyOf(req) in s.counters && !Expired(s, ApiKeyOf(req), req.now))
  }

  lemma CountedIsFresh(s: State, cfg: Config, req: Request)
    ensures CountsFresh(Counted(s, cfg, req), cfg, req)
  {
    var w, now := cfg.windowSeconds, req.now;
    var ip, user, apiKey := IpKeyOf(req), UserKeyOf(req), ApiKeyOf(req);
    var s1 := Increment(s, ip, w, now);
    var s2 := if UsesUser(cfg, req) then Increment(s1, user, w, now) else s1;
    IncrementOpens(s, ip, w, now);
    IncrementOpens(s1, user, w, now);
    IncrementOpens(s2, apiKey, w, now);
    IncrementElsewhere(s1, user, w, now, ip);
    IncrementElsewhere(s2, apiKey, w, now, ip);
    IncrementElsewhere(s2, apiKey, w, now, user);
  }

  lemma IncrementOpens(s: State, key: Key, window: pos, now: real)
    ensures var t := Increment(s, key, window, now); key in t.counters && !Expired(t, key, now)
  {}

  predicate SameKey(s: State, t: State, key: Key) {
    && (key in s.counters <==> key in t.counters) && (key in s.counters ==> t.counters[key] == s.counters[key])
    && PrevOf(s, key) == PrevOf(t, key) && WindowOf(s, key) == WindowOf(t, key)
  }

  lemma IncrementElsewhere(s: State, key: Key, window: pos, now: real, other: Key)
    requires other != key
    ensures SameKey(s, Increment(s, key, window, now), other)
  {}

  /** Counting one dimension leaves the counts of the others as they are. */
  lemma CountedSeparately(s: State, cfg: Config, req: Request)
    ensures var w, now, t := cfg.windowSeconds, req.now, Counted(s, cfg, req);
            var s1 := Increment(s, IpKeyOf(req), w, now);
            && FixedCount(t, IpKeyOf(req)) == FixedCount(s1, IpKeyOf(req))
            && (UsesUser(cfg, req) ==>
                  FixedCount(t, UserKeyOf(req)) == FixedCount(Increment(s1, UserKeyOf(req), w, now), UserKeyOf(req)))
  {
    var w, now, ip, user := cfg.windowSeconds, req.now, IpKeyOf(req), UserKeyOf(req);
    var s1 := Increment(s, ip, w, now);
    var s2 := if UsesUser(cfg, req) then Increment(s1, user, w, now) else s1;
    IncrementElsewhere(s1, user, w, now, ip);
    IncrementElsewhere(s2, ApiKeyOf(req), w, now, ip);
    IncrementElsewhere(s2, ApiKeyOf(req), w, now, user);
  }

  // ----- The backend and the limiter as objects -------------------------------------------

  class InMemoryBackend {
    var counters: map<Key, Counter>
    var prevCounts: map<Key, nat>
    var windowSizes: map<Key, pos>
    var bans: map<string, real>
    var violations: map<string, Violation>

    ghost function S(): State
      reads this
    {
      State(counters, prevCounts, windowSizes, bans, violations)
    }

    constructor ()
      ensures S() == State(map[], map[], map[], map[], map[])
    {
      counters, prevCounts, windowSizes, bans, violations := map[], map[], map[], map[], map[];
    }

    method IncrementKey(key: Key, window: pos, now: real) returns (count: nat)
      modifies this
      ensures S() == Increment(old(S()), key, window, now) && count == FixedCount(S(), key)
    {
      windowSizes := windowSizes[key := window];
      if key in counters {
        var c := counters[key];
        if now - c.start >= window as real {
          prevCounts := prevCounts[key := c.count];
          counters := counters[key := Counter(1, now)];
          return 1;
        }
        counters := counters[key := Counter(c.count + 1, c.start)];
        return c.count + 1;
      } else {
        counters := counters[key := Counter(1, now)];
        return 1;
      }
    }

    method GetCount(key: Key, now: real) returns (count: nat)
      modifies this
      ensures S() == DropExpired(old(S()), key, now) && count == FixedCount(S(), key)
    {
      if key !in counters {
        return 0;
      }
      var c := counters[key];
      var window := if key in windowSizes then windowSizes[key] else 60;
      if now - c.start >= window as real {
        prevCounts := prevCounts[key := c.count];
        counters := counters - {key};
        return 0;
      }
      return c.count;
    }

    method GetSlidingCount(key: Key, now: real) returns (count: real)
      modifies this
      ensures S() == DropExpired(old(S()), key, now) && count == SlidingCount(old(S()), key, now)
      ensures key !in counters ==> count == 0.0
      ensures key in counters ==>
                count * WindowOf(S(), key) as real ==
                SlidingUse(counters[key].count, PrevOf(S(), key), now - counters[key].start, WindowOf(S(), key))
    {
      if key in counters {
        WeightedUse(counters[key].count, PrevOf(S(), key), now - counters[key].start, WindowOf(S(), key));
      }
      if key !in counters {
        return 0.0;
      }
      var c := counters[key];
      var window: pos := if key in windowSizes then windowSizes[key] else 60;
      var elapsed := now - c.start;
      if elapsed >= window as real {
        prevCounts := prevCounts[key := c.count];
        counters := counters - {key};
        return 0.0;
      }
      var prev := if key in prevCounts then prevCounts[key] else 0;
      var weight := 1.0 - elapsed / window as real;
      return c.count as real + prev as real * weight;
    }

    method Ban(ip: string, duration: int, now: real)
      modifies this
      ensures S() == old(S()).(bans := old(bans)[ip := now + duration as real])
    {
      bans := bans[ip := now + duration as real];
    }

    method CheckBanned(ip: string, now: real) returns (banned: bool)
      modifies this
      ensures S() == ForgetExpiredBan(old(S()), ip, now) && banned == IsBanned(old(S()), ip, now)
    {
      if ip !in bans {
        return false;
      }
      if now >= bans[ip] {
        bans := bans - {ip};
        return false;
      }
      return true;
    }

    method GetBanExpiry(ip: string, now: real) returns (seconds: int)
      modifies this
      ensures S() == ForgetExpiredBan(old(S()), ip, now)
      ensures seconds == if IsBanned(old(S()), ip, now) then (old(bans)[ip] - now).Floor else 0
    {
      if ip !in bans {
        return 0;
      }
      var remaining := bans[ip] - now;
      if remaining <= 0.0 {
        bans := bans - {ip};
        return 0;
      }
      return remaining.Floor;
    }

    method IncrementViolations(ip: string, now: real) returns (count: nat)
      modifies this
      ensures S() == RecordViolation(old(S()), ip, now) && count == ViolationCount(old(S()), ip) + 1
    {
      count := if ip in violations then violations[ip].count else 0;
      violations := violations[ip := Violation(count + 1, now)];
      count := count + 1;
    }

    method CleanupViolations(ttl: nat, now: real)
      modifies this
      ensures S() == SweepViolations(old(S()), ttl, now)
    {
      ghost var before := violations;
      var expired := set ip | ip in violations && now - violations[ip].at >= ttl as real;
      while expired != {}
        invariant S() == old(S()).(violations := violations)
        invariant expired <= violations.Keys <= before.Keys
        invariant forall ip :: ip in before && !(now - before[ip].at >= ttl as real) ==> ip in violations
        invariant forall ip :: ip in violations && now - before[ip].at >= ttl as real ==> ip in expired
        invariant forall ip :: ip in violations ==> violations[ip] == before[ip]
        decreases expired
      {
        var ip :| ip in expired;
        violations := violations - {ip};
        expired := expired - {ip};
      }
    }
  }

  class RateLimiter {
    const backend: InMemoryBackend
    const resolve: string -> Config

    constructor (backend: InMemoryBackend, resolve: string -> Config)
      ensures this.backend == backend && this.resolve == resolve
    {
      this.backend, this.resolve := backend, resolve;
    }

    /** `key`'s effective count; asking for it right after counting changes nothing. */
    method EffectiveCount(cfg: Config, key: Key, count: nat, now: real) returns (effective: real)
      requires key in backend.counters && !Expired(backend.S(), key, now)
      requires count == FixedCount(backend.S(), key)
      modifies backend
      ensures backend.S() == old(backend.S()) && effective == Effective(backend.S(), cfg, key, now)
    {
      if cfg.sliding {
        effective := backend.GetSlidingCount(key, now);
      } else {
        effective := count as real;
      }
    }

    /** Counts the request on every dimension in use; unused dimensions give 0. */
    method CountRequest(cfg: Config, req: Request) returns (ipCount: nat, userCount: nat, keyCount: nat)
      modifies backend
      ensures backend.S() == Counted(old(backend.S()), cfg, req)
      ensures ipCount == FixedCount(backend.S(), IpKeyOf(req))
      ensures UsesUser(cfg, req) ==> userCount == FixedCount(backend.S(), UserKeyOf(req))
      ensures UsesApiKey(cfg, req) ==> keyCount == FixedCount(backend.S(), ApiKeyOf(req))
    {
      CountedSeparately(backend.S(), cfg, req);
      ipCount := backend.IncrementKey(IpKeyOf(req), cfg.windowSeconds, req.now);
      userCount, keyCount := 0, 0;
      if UsesUser(cfg, req) {
        userCount := backend.IncrementKey(UserKeyOf(req), cfg.windowSeconds, req.now);
      }
      if UsesApiKey(cfg, req) {
        keyCount := backend.IncrementKey(ApiKeyOf(req), cfg.windowSeconds, req.now);
      }
    }

    /** Compares the counts with the limit; leaves the backend as it is. */
    method Judge(cfg: Config, req: Request, ipCount: nat, userCount: nat, keyCount: nat)
      returns (ok: bool, remaining: nat)
      requires CountsFresh(backend.S(), cfg, req)
      requires ipCount == FixedCount(backend.S(), IpKeyOf(req))
      requires UsesUser(cfg, req) ==> userCount == FixedCount(backend.S(), UserKeyOf(req))
      requires UsesApiKey(cfg, req) ==> keyCount == FixedCount(backend.S(), ApiKeyOf(req))
      modifies backend
      ensures backend.S() == old(backend.S())
      ensures ok == WithinLimits(backend.S(), cfg, req) && remaining == Remaining(backend.S(), cfg, req)
    {
      var limit := cfg.maxRequests;
      var ipEff := EffectiveCount(cfg, IpKeyOf(req), ipCount, req.now);
      var userEff, keyEff := 0.0, 0.0;
      if UsesUser(cfg, req) {
        userEff := EffectiveCount(cfg, UserKeyOf(req), userCount, req.now);
      }
      if UsesApiKey(cfg, req) {
        keyEff := EffectiveCount(cfg, ApiKeyOf(req), keyCount, req.now);
      }
      var userRemaining := if UsesUser(cfg, req) then Left(limit, userEff) else limit;
      var keyRemaining := if UsesApiKey(cfg, req) then Left(limit, keyEff) else limit;
      remaining := Min(Left(limit, ipEff), Min(userRemaining, keyRemaining));
      var userOk := !UsesUser(cfg, req) || userEff <= limit as real;
      var keyOk := !UsesApiKey(cfg, req) || keyEff <= limit as real;
      ok := ipEff <= limit as real && userOk && keyOk;
    }

    method Check(req: Request) returns (outcome: Outcome)
      modifies backend
      ensures (backend.S(), outcome) == CheckResult(old(backend.S()), resolve, req)
    {
      var cfg := resolve(req.endpoint);
      var banned := backend.CheckBanned(req.ip, req.now);
      if banned {
        var retryAfter := backend.GetBanExpiry(req.ip, req.now);
        return Banned(retryAfter);
      }
      CountedIsFresh(backend.S(), cfg, req);
      var ipCount, userCount, keyCount := CountRequest(cfg, req);
      var ok, remaining := Judge(cfg, req, ipCount, userCount, keyCount);
      if !ok {
        var duration := Escalate(cfg, req.ip, req.now);
        return Exceeded(duration);
      }
      return Admitted(remaining);
    }

    method BanSeconds(cfg: Config, violations: pos) returns (duration: int)
      ensures duration == BanDuration(cfg, violations)
    {
      duration := (cfg.banDuration as real * Pow(cfg.multiplier, violations - 1)).Floor;
      duration := Min(duration, cfg.maxBanDuration);
    }

    method Escalate(cfg: Config, ip: string, now: real) returns (duration: int)
      modifies backend
      ensures backend.S() == Punish(old(backend.S()), cfg, ip, now).0
      ensures Exceeded(duration) == Punish(old(backend.S()), cfg, ip, now).1
    {
      var violations := backend.IncrementViolations(ip, now);
      backend.CleanupViolations(cfg.ViolationTtl(), now);
      assert backend.S() == Swept(old(backend.S()), cfg, ip, now);
      duration := BanSeconds(cfg, violations);
      if violations >= cfg.banThreshold {
        backend.Ban(ip, duration, now);
      }
    }
  }
}
