/**
 Escalating bans over arbitrary request traces: a running ban is neither moved nor cut short, and
 the violation record it came from survives exactly when no path is swept sooner than the longest
 ban any path can impose.
 */
module RateLimitBans {
  import opened Prelude
  import opened RateLimit
  import opened RateLimitBounds

  // ----- How long bans get ------------------------------------------------------------------

  lemma {:induction false} PowMonotone(b: factor, m: nat, n: nat)
    requires m <= n
    ensures 1.0 <= Pow(b, m) <= Pow(b, n)
  {
    if n > 0 {
      var p := if m < n then m else m - 1;
      PowMonotone(b, p, n - 1);
      Scale(1.0, b, Pow(b, n - 1));
      if m == n {
        assert Pow(b, m) == Pow(b, n);
      }
    }
  }

  /** Bernoulli's inequality. */
  lemma {:induction false} PowGrows(b: factor, n: nat)
    ensures Pow(b, n) >= 1.0 + n as real * (b - 1.0)
  {
    if n > 0 {
      PowGrows(b, n - 1);
      PowMonotone(b, 0, n - 1);
      var p, d := Pow(b, n - 1), b - 1.0;
      assert Pow(b, n) == p + d * p;
      NotSmaller(d, p);
      assert n as real * d == (n - 1) as real * d + d;
    }
  }

  lemma NotSmaller(d: real, p: real)
    requires d >= 0.0 && p >= 1.0
    ensures d * p >= d
  {
    assert d * (p - 1.0) >= 0.0;
  }

  lemma FloorMonotone(x: real, y: real)
    requires 1.0 <= x <= y
    ensures 1 <= x.Floor <= y.Floor
  {}

  /** Bans grow with the violation count, are capped, and never shorter than a second. */
  lemma BanDurationMonotone(cfg: Config, m: pos, n: pos)
    requires m <= n
    ensures 1 <= BanDuration(cfg, m) <= BanDuration(cfg, n) <= cfg.maxBanDuration
  {
    PowMonotone(cfg.multiplier, m - 1, n - 1);
    ScaledFloor(cfg.banDuration, Pow(cfg.multiplier, m - 1), Pow(cfg.multiplier, n - 1));
  }

  lemma ScaledFloor(d: pos, p: real, q: real)
    requires 1.0 <= p <= q
    ensures 1 <= (d as real * p).Floor <= (d as real * q).Floor
  {
    Scale(p, q, d as real);
    Scale(1.0, p, d as real);
    FloorMonotone(d as real * p, d as real * q);
  }

  /** The first ban has the configured length, cap permitting. */
  lemma FirstBanDuration(cfg: Config)
    ensures BanDuration(cfg, 1) == Min(cfg.banDuration, cfg.maxBanDuration)
  {
    assert Pow(cfg.multiplier, 0) == 1.0;
    assert cfg.banDuration as real * 1.0 == cfg.banDuration as real;
  }

  /** The longest ban this configuration can impose: bans that escalate reach the cap. */
  function Longest(cfg: Config): pos {
    if cfg.multiplier > 1.0 then cfg.maxBanDuration else Min(cfg.banDuration, cfg.maxBanDuration)
  }

  lemma {:induction false} PowOne(n: nat)
    ensures Pow(1.0, n) == 1.0
  {
    if n > 0 {
      PowOne(n - 1);
    }
  }

  lemma WithinLongest(cfg: Config, violations: pos)
    ensures BanDuration(cfg, violations) <= Longest(cfg)
  {
    BanDurationMonotone(cfg, violations, violations);
    if cfg.multiplier <= 1.0 {
      PowOne(violations - 1);
      FirstBanDuration(cfg);
    }
  }

  /** From some violation count on, every ban is the longest. */
  lemma LongestReached(cfg: Config) returns (from: pos)
    ensures forall n: pos :: n >= from ==> BanDuration(cfg, n) == Longest(cfg)
  {
    if cfg.multiplier > 1.0 {
      from := EnoughViolations(cfg.multiplier, cfg.maxBanDuration);
      forall n: pos | n >= from ensures BanDuration(cfg, n) == Longest(cfg) {
        PowMonotone(cfg.multiplier, from - 1, n - 1);
        ReachesCap(cfg.banDuration, Pow(cfg.multiplier, n - 1), cfg.maxBanDuration);
      }
    } else {
      from := 1;
      forall n: pos | n >= from ensures BanDuration(cfg, n) == Longest(cfg) {
        PowOne(n - 1);
        FirstBanDuration(cfg);
      }
    }
  }

  lemma EnoughViolations(b: factor, cap: pos) returns (n: pos)
    requires b > 1.0
    ensures Pow(b, n - 1) >= cap as real
  {
    var d := b - 1.0;
    var q := cap as real / d;
    var k: nat := q.Floor + 1;
    Scale(q, k as real, d);
    assert q * d == cap as real;
    PowGrows(b, k);
    n := k + 1;
  }

  lemma ReachesCap(d: pos, p: real, cap: pos)
    requires p >= cap as real
    ensures (d as real * p).Floor >= cap
  {
    Scale(cap as real, p, d as real);
    Scale(1.0, d as real, cap as real);
    FloorMonotone(cap as real, d as real * p);
  }

  // ----- A running ban is not moved -----------------------------------------------------------

  lemma AfterLast(s: State, resolve: Resolver, reqs: seq<Request>)
    requires reqs != []
    ensures After(s, resolve, reqs) == CheckResult(After(s, resolve, reqs[..|reqs| - 1]), resolve, reqs[|reqs| - 1]).0
  {}

  function LastOutcome(s: State, resolve: Resolver, reqs: seq<Request>): Outcome
    requires reqs != []
  {
    CheckResult(After(s, resolve, reqs[..|reqs| - 1]), resolve, reqs[|reqs| - 1]).1
  }

  /** `ip` keeps its ban, or its having none. */
  predicate SameBan(s: State, t: State, ip: string) {
    (ip in s.bans <==> ip in t.bans) && (ip in s.bans ==> t.bans[ip] == s.bans[ip])
  }

  predicate SameRecord(s: State, t: State, ip: string) {
    (ip in s.violations <==> ip in t.violations) && (ip in s.violations ==> t.violations[ip] == s.violations[ip])
  }

  lemma CountedOnlyCounts(s: State, cfg: Config, req: Request)
    ensures var t := Counted(s, cfg, req); t.bans == s.bans && t.violations == s.violations
  {
    var w, now := cfg.windowSeconds, req.now;
    var s1 := Increment(s, IpKeyOf(req), w, now);
    var s2 := if UsesUser(cfg, req) then Increment(s1, UserKeyOf(req), w, now) else s1;
    IncrementOnlyCounts(s, IpKeyOf(req), w, now);
    IncrementOnlyCounts(s1, UserKeyOf(req), w, now);
    IncrementOnlyCounts(s2, ApiKeyOf(req), w, now);
  }

  lemma IncrementOnlyCounts(s: State, key: Key, window: pos, now: real)
    ensures var t := Increment(s, key, window, now); t.bans == s.bans && t.violations == s.violations
  {}

  /** A check only touches the ban of its own client, and not while that ban runs. */
  lemma BanStep(s: State, resolve: Resolver, req: Request, ip: string)
    requires req.ip != ip || IsBanned(s, ip, req.now)
    ensures var (t, outcome) := CheckResult(s, resolve, req);
            SameBan(s, t, ip) && (req.ip == ip ==> outcome.Banned? && t == s)
  {
    if req.ip != ip && !IsBanned(s, req.ip, req.now) {
      CheckIsJudged(s, resolve, req);
      JudgedBans(ForgetExpiredBan(s, req.ip, req.now), resolve(req.endpoint), req, ip);
    }
  }

  lemma JudgedBans(s: State, cfg: Config, req: Request, ip: string)
    requires req.ip != ip
    ensures SameBan(s, Judged(s, cfg, req), ip)
  {
    CountedOnlyCounts(s, cfg, req);
  }

  /** While a ban runs no trace moves it, and every check of that client is rejected and changes nothing. */
  lemma {:induction false} BanHonoured(s: State, resolve: Resolver, reqs: seq<Request>, ip: string)
    requires ip in s.bans && forall r :: r in reqs ==> r.now < s.bans[ip]
    ensures SameBan(s, After(s, resolve, reqs), ip)
    ensures reqs != [] && reqs[|reqs| - 1].ip == ip ==>
              LastOutcome(s, resolve, reqs).Banned? && After(s, resolve, reqs) == After(s, resolve, reqs[..|reqs| - 1])
  {
    if reqs != [] {
      var init, last := reqs[..|reqs| - 1], reqs[|reqs| - 1];
      assert last in reqs && forall r :: r in init ==> r in reqs;
      BanHonoured(s, resolve, init, ip);
      AfterLast(s, resolve, reqs);
      BanStep(After(s, resolve, init), resolve, last, ip);
    }
  }

  // ----- The record behind a running ban ------------------------------------------------------

  /** No path's configuration sweeps a violation record before the ban behind it is over. */
  ghost predicate Backed(s: State, resolve: Resolver, ip: string) {
    && ip in s.violations && ip in s.bans
    && forall e :: s.bans[ip] <= s.violations[ip].at + resolve(e).ViolationTtl() as real
  }

  ghost predicate BansBacked(s: State, resolve: Resolver, now: real) {
    forall ip :: IsBanned(s, ip, now) ==> Backed(s, resolve, ip)
  }

  /** Every running ban still has the violation record it came from. */
  ghost predicate BansRecorded(s: State, now: real) {
    forall ip :: IsBanned(s, ip, now) ==> ip in s.violations
  }

  /** The longest ban of any path is over before any path sweeps: a condition on the configuration alone. */
  ghost predicate NoSweepTooSoon(resolve: Resolver) {
    forall e1, e2 :: Longest(resolve(e1)) <= resolve(e2).ViolationTtl()
  }

  lemma OneConfigSweepsInTime(resolve: Resolver, cfg: Config)
    requires forall e :: resolve(e) == cfg
    ensures NoSweepTooSoon(resolve)
  {}

  /** Punishing one client keeps another's violation record while that is young enough. */
  lemma PunishSpares(s: State, cfg: Config, ip: string, now: real, other: string)
    requires other != ip && other in s.violations && now - s.violations[other].at < cfg.ViolationTtl() as real
    ensures SameRecord(s, Punish(s, cfg, ip, now).0, other)
  {}

  lemma RecordStep(s: State, resolve: Resolver, req: Request, ip: string)
    requires Backed(s, resolve, ip) && IsBanned(s, ip, req.now)
    ensures SameRecord(s, CheckResult(s, resolve, req).0, ip)
  {
    if req.ip != ip && !IsBanned(s, req.ip, req.now) {
      var cfg := resolve(req.endpoint);
      var f := ForgetExpiredBan(s, req.ip, req.now);
      CountedOnlyCounts(f, cfg, req);
      PunishSpares(Counted(f, cfg, req), cfg, req.ip, req.now, ip);
    }
  }

  /** So escalation continues where it was: a backed record survives every sweep while its ban runs. */
  lemma {:induction false} RecordSurvives(s: State, resolve: Resolver, reqs: seq<Request>, ip: string)
    requires Backed(s, resolve, ip) && forall r :: r in reqs ==> r.now < s.bans[ip]
    ensures var t := After(s, resolve, reqs); SameBan(s, t, ip) && SameRecord(s, t, ip)
  {
    if reqs != [] {
      var init, last := reqs[..|reqs| - 1], reqs[|reqs| - 1];
      assert last in reqs && forall r :: r in init ==> r in reqs;
      RecordSurvives(s, resolve, init, ip);
      AfterLast(s, resolve, reqs);
      BanStep(After(s, resolve, init), resolve, last, ip);
      RecordStep(After(s, resolve, init), resolve, last, ip);
    }
  }

  /** A new ban is backed by the record of the violation that caused it. */
  lemma NewBanBacked(s: State, resolve: Resolver, req: Request)
    requires NoSweepTooSoon(resolve) && !IsBanned(s, req.ip, req.now)
    ensures var t := CheckResult(s, resolve, req).0; IsBanned(t, req.ip, req.now) ==> Backed(t, resolve, req.ip)
  {
    var cfg, f := resolve(req.endpoint), ForgetExpiredBan(s, req.ip, req.now);
    CountedOnlyCounts(f, cfg, req);
    PunishRecords(Counted(f, cfg, req), cfg, req.ip, req.now);
  }

  lemma PunishRecords(s: State, cfg: Config, ip: string, now: real)
    requires ip !in s.bans
    ensures var t := Punish(s, cfg, ip, now).0;
            && ip in t.violations && t.violations[ip] == Violation(ViolationCount(s, ip) + 1, now)
            && (ip in t.bans ==> t.bans[ip] <= now + Longest(cfg) as real)
  {
    WithinLongest(cfg, ViolationCount(s, ip) + 1);
  }

  lemma BansStayBacked(s: State, resolve: Resolver, req: Request)
    requires NoSweepTooSoon(resolve) && BansBacked(s, resolve, req.now)
    ensures BansBacked(CheckResult(s, resolve, req).0, resolve, req.now)
  {
    var t := CheckResult(s, resolve, req).0;
    forall ip | IsBanned(t, ip, req.now) ensures Backed(t, resolve, ip) {
      if ip == req.ip && !IsBanned(s, ip, req.now) {
        NewBanBacked(s, resolve, req);
      } else {
        BanStep(s, resolve, req, ip);
        RecordStep(s, resolve, req, ip);
      }
    }
  }

  lemma {:induction false} RunKeepsBansBacked(resolve: Resolver, reqs: seq<Request>)
    requires NoSweepTooSoon(resolve) && Ordered(reqs) && reqs != []
    ensures BansBacked(After(Empty(), resolve, reqs), resolve, reqs[|reqs| - 1].now)
  {
    var init, last := reqs[..|reqs| - 1], reqs[|reqs| - 1];
    if init != [] {
      RunKeepsBansBacked(resolve, init);
      assert init[|init| - 1].now <= last.now;
    }
    AfterLast(Empty(), resolve, reqs);
    BansStayBacked(After(Empty(), resolve, init), resolve, last);
  }

  // ----- Provoking a ban ----------------------------------------------------------------------

  /** Every counter was opened by `now`. */
  ghost predicate OpenedBy(s: State, now: real) {
    forall key :: key in s.counters ==> s.counters[key].start <= now
  }

  lemma StaysOpened(s: State, resolve: Resolver, req: Request)
    requires OpenedBy(s, req.now)
    ensures OpenedBy(CheckResult(s, resolve, req).0, req.now)
  {
    var t := CheckResult(s, resolve, req).0;
    forall key | key in t.counters ensures t.counters[key].start <= req.now {
      KeyStep(s, resolve, req, key);
    }
  }

  function LiveCount(s: State, cfg: Config, key: Key, now: real): nat {
    if key in s.counters && now - s.counters[key].start < cfg.windowSeconds as real then s.counters[key].count else 0
  }

  /** The record of another client survives the sweep if and only if it is young enough. */
  ghost predicate SweptOther(s: State, t: State, cfg: Config, now: real, other: string) {
    && (other in t.violations <==> other in s.violations && now - s.violations[other].at < cfg.ViolationTtl() as real)
    && (other in t.violations ==> t.violations[other] == s.violations[other])
  }

  ghost predicate BannedFrom(t: State, cfg: Config, ip: string, violations: pos, now: real) {
    if violations >= cfg.banThreshold
    then ip in t.bans && t.bans[ip] == now + BanDuration(cfg, violations) as real
    else ip !in t.bans
  }

  /** `t` is `s` after one violation of `ip`, punished under `cfg`. */
  ghost predicate PunishedOnce(s: State, t: State, cfg: Config, ip: string, now: real) {
    && ip in t.violations && t.violations[ip] == Violation(ViolationCount(s, ip) + 1, now)
    && BannedFrom(t, cfg, ip, ViolationCount(s, ip) + 1, now)
    && (forall q :: q != ip ==> SameBan(s, t, q) && SweptOther(s, t, cfg, now, q))
  }

  /** Only an admission separates `s` and `t`. */
  ghost predicate AdmittedOnce(s: State, t: State, ip: string) {
    t.violations == s.violations && ip !in t.bans && forall q :: q != ip ==> SameBan(s, t, q)
  }

  lemma OnlyCounted(s: State, cfg: Config, req: Request)
    requires !IsBanned(s, req.ip, req.now)
    ensures AdmittedOnce(s, Counted(ForgetExpiredBan(s, req.ip, req.now), cfg, req), req.ip)
  {
    CountedOnlyCounts(ForgetExpiredBan(s, req.ip, req.now), cfg, req);
  }

  lemma EitherAdmits(s: State, resolve: Resolver, req: Request)
    requires !IsBanned(s, req.ip, req.now) && CheckResult(s, resolve, req).1.Admitted?
    ensures AdmittedOnce(s, CheckResult(s, resolve, req).0, req.ip)
  {
    CheckIsJudged(s, resolve, req);
    OnlyCounted(s, resolve(req.endpoint), req);
  }

  lemma OrPunishes(s: State, resolve: Resolver, req: Request)
    requires !IsBanned(s, req.ip, req.now) && !CheckResult(s, resolve, req).1.Admitted?
    ensures PunishedOnce(s, CheckResult(s, resolve, req).0, resolve(req.endpoint), req.ip, req.now)
  {
    var cfg, u := resolve(req.endpoint), Counted(ForgetExpiredBan(s, req.ip, req.now), resolve(req.endpoint), req);
    CheckIsJudged(s, resolve, req);
    OnlyCounted(s, cfg, req);
    PunishedIs(s, u, cfg, req.ip, req.now);
  }

  lemma AdmittedCounts(s: State, resolve: Resolver, req: Request)
    requires OpenedBy(s, req.now) && CheckResult(s, resolve, req).1.Admitted?
    ensures var t, cfg, key := CheckResult(s, resolve, req).0, resolve(req.endpoint), IpKeyOf(req);
            LiveCount(t, cfg, key, req.now) == LiveCount(s, cfg, key, req.now) + 1 <= cfg.maxRequests
  {
    KeyStep(s, resolve, req, IpKeyOf(req));
    AdmittedLive(s, CheckResult(s, resolve, req).0, resolve(req.endpoint), IpKeyOf(req), req.now);
  }

  lemma AdmittedLive(s: State, t: State, cfg: Config, key: Key, now: real)
    requires Hits(s, t, cfg, key, now, true) && (key in s.counters ==> s.counters[key].start <= now)
    ensures LiveCount(t, cfg, key, now) == LiveCount(s, cfg, key, now) + 1 <= cfg.maxRequests
  {
    HitCounts(s, t, cfg, key, now, true);
  }

  lemma PunishedIs(s: State, u: State, cfg: Config, ip: string, now: real)
    requires AdmittedOnce(s, u, ip)
    ensures PunishedOnce(s, Punish(u, cfg, ip, now).0, cfg, ip, now)
  {
    var t := Punish(u, cfg, ip, now).0;
    forall q | q != ip ensures SameBan(s, t, q) && SweptOther(s, t, cfg, now, q) {
      assert SameBan(s, u, q);
    }
  }

  lemma {:induction false} AfterAppend(s: State, resolve: Resolver, a: seq<Request>, b: seq<Request>)
    ensures After(s, resolve, a + b) == After(After(s, resolve, a), resolve, b)
  {
    if b == [] {
      assert a + b == a;
    } else {
      var init, last := b[..|b| - 1], b[|b| - 1];
      assert (a + b)[..|a + b| - 1] == a + init && (a + b)[|a + b| - 1] == last;
      AfterAppend(s, resolve, a, init);
      AfterLast(s, resolve, a + b);
      AfterLast(After(s, resolve, a), resolve, b);
    }
  }

  lemma AfterOne(s: State, resolve: Resolver, req: Request)
    ensures After(s, resolve, [req]) == CheckResult(s, resolve, req).0
  {
    AfterLast(s, resolve, [req]);
    assert [req][..0] == [];
  }

  function Anonymous(now: real, ip: string, e: string): Request {
    Request(now, ip, e, "", "")
  }

  /** Enough requests at one moment, and the client is punished. */
  lemma {:induction false} Provoked(s: State, resolve: Resolver, ip: string, e: string, now: real)
    returns (reqs: seq<Request>)
    requires !IsBanned(s, ip, now) && OpenedBy(s, now)
    ensures reqs != [] && forall r :: r in reqs ==> r == Anonymous(now, ip, e)
    ensures var t := After(s, resolve, reqs); PunishedOnce(s, t, resolve(e), ip, now) && OpenedBy(t, now)
    decreases Max(0, resolve(e).maxRequests - LiveCount(s, resolve(e), IpKey(ip, e), now))
  {
    var req := Anonymous(now, ip, e);
    var (t, outcome) := CheckResult(s, resolve, req);
    StaysOpened(s, resolve, req);
    AfterOne(s, resolve, req);
    if outcome.Admitted? {
      EitherAdmits(s, resolve, req);
      AdmittedCounts(s, resolve, req);
      var rest := Provoked(t, resolve, ip, e, now);
      reqs := [req] + rest;
      AfterAppend(s, resolve, [req], rest);
      PunishedLater(s, t, After(t, resolve, rest), resolve(e), ip, now);
    } else {
      OrPunishes(s, resolve, req);
      reqs := [req];
    }
  }

  lemma PunishedLater(s: State, t: State, u: State, cfg: Config, ip: string, now: real)
    requires AdmittedOnce(s, t, ip) && PunishedOnce(t, u, cfg, ip, now)
    ensures PunishedOnce(s, u, cfg, ip, now)
  {
    forall q | q != ip ensures SameBan(s, u, q) && SweptOther(s, u, cfg, now, q) {
      assert SameBan(s, t, q) && SameBan(t, u, q) && SweptOther(t, u, cfg, now, q);
    }
  }

  lemma OrderedAppend(a: seq<Request>, b: seq<Request>, now: real)
    requires Ordered(a) && (forall r :: r in a ==> r.now <= now) && (forall r :: r in b ==> r.now == now)
    ensures Ordered(a + b) && forall r :: r in a + b ==> r.now <= now
  {
    forall i, j | 0 <= i < j < |a + b| ensures (a + b)[i].now <= (a + b)[j].now {
      if i < |a| {
        assert a[i] in a;
      }
      if j >= |a| {
        assert b[j - |a|] in b;
      }
    }
  }

  /** Only `ip` was ever punished, `violations` times, the last time at `now`. */
  ghost predicate EscalatedTo(s: State, cfg: Config, ip: string, violations: pos, now: real) {
    && ip in s.violations && s.violations[ip] == Violation(violations, now)
    && s.bans.Keys <= {ip} && OpenedBy(s, now) && BannedFrom(s, cfg, ip, violations, now)
  }

  lemma PunishedEscalates(s: State, t: State, cfg: Config, ip: string, violations: pos, now: real)
    requires violations == ViolationCount(s, ip) + 1
    requires PunishedOnce(s, t, cfg, ip, now) && s.bans.Keys <= {ip} && OpenedBy(t, now)
    ensures EscalatedTo(t, cfg, ip, violations, now)
  {
    forall q | q in t.bans ensures q == ip {
      assert q != ip ==> SameBan(s, t, q);
    }
  }

  lemma BanIsOver(s: State, cfg: Config, ip: string, violations: pos, last: real) returns (now: real)
    requires EscalatedTo(s, cfg, ip, violations, last)
    ensures now >= last && !IsBanned(s, ip, now) && OpenedBy(s, now)
    ensures ViolationCount(s, ip) == violations && s.bans.Keys <= {ip}
  {
    now := last + cfg.maxBanDuration as real;
    BanDurationMonotone(cfg, violations, violations);
  }

  /** A client that comes back each time its ban is over gets as many violations as it likes. */
  lemma {:induction false} Escalated(resolve: Resolver, ip: string, e: string, violations: pos)
    returns (reqs: seq<Request>, now: real)
    ensures Ordered(reqs) && forall r :: r in reqs ==> r.now <= now
    ensures EscalatedTo(After(Empty(), resolve, reqs), resolve(e), ip, violations, now)
    decreases violations
  {
    if violations == 1 {
      now := 0.0;
      reqs := Provoked(Empty(), resolve, ip, e, now);
      OrderedAppend([], reqs, now);
      assert [] + reqs == reqs;
      PunishedEscalates(Empty(), After(Empty(), resolve, reqs), resolve(e), ip, 1, now);
    } else {
      var before, last := Escalated(resolve, ip, e, violations - 1);
      var more;
      more, now := EscalatedOnce(After(Empty(), resolve, before), resolve, ip, e, violations, last);
      reqs := before + more;
      OrderedAppend(before, more, now);
      AfterAppend(Empty(), resolve, before, more);
    }
  }

  lemma EscalatedOnce(s: State, resolve: Resolver, ip: string, e: string, violations: pos, last: real)
    returns (more: seq<Request>, now: real)
    requires violations > 1 && EscalatedTo(s, resolve(e), ip, violations - 1, last)
    ensures now >= last && forall r :: r in more ==> r.now == now
    ensures EscalatedTo(After(s, resolve, more), resolve(e), ip, violations, now)
  {
    now := BanIsOver(s, resolve(e), ip, violations - 1, last);
    more := Provoked(s, resolve, ip, e, now);
    PunishedEscalates(s, After(s, resolve, more), resolve(e), ip, violations, now);
  }

  /** If some ban outlasts some sweep, a second client's violation sweeps the record behind a running ban. */
  lemma SweptTooSoon(resolve: Resolver, e1: string, e2: string) returns (reqs: seq<Request>)
    requires Longest(resolve(e1)) > resolve(e2).ViolationTtl()
    ensures Ordered(reqs) && reqs != []
    ensures !BansRecorded(After(Empty(), resolve, reqs), reqs[|reqs| - 1].now)
  {
    var cfg, ttl := resolve(e1), resolve(e2).ViolationTtl();
    var from := LongestReached(cfg);
    var violations: pos := Max(from, cfg.banThreshold);
    var before, last := Escalated(resolve, "a", e1, violations);
    var s, now := After(Empty(), resolve, before), last + ttl as real;
    assert "b" !in s.bans;
    var more := Provoked(s, resolve, "b", e2, now);
    reqs := before + more;
    OrderedAppend(before, more, now);
    AfterAppend(Empty(), resolve, before, more);
    var t := After(s, resolve, more);
    assert SameBan(s, t, "a") && SweptOther(s, t, resolve(e2), now, "a");
    assert IsBanned(t, "a", now) && "a" !in t.violations;
    assert reqs[|reqs| - 1] == more[|more| - 1] && more[|more| - 1] in more;
  }

  /**
   In every run from an empty backend each running ban keeps its violation record, if and only if
   the longest ban of every path is over before any path sweeps.
   */
  lemma RecordsKeptIff(resolve: Resolver)
    ensures (forall reqs: seq<Request> :: Ordered(reqs) && reqs != [] ==>
               BansRecorded(After(Empty(), resolve, reqs), reqs[|reqs| - 1].now))
            <==> NoSweepTooSoon(resolve)
  {
    if NoSweepTooSoon(resolve) {
      forall reqs: seq<Request> | Ordered(reqs) && reqs != []
        ensures BansRecorded(After(Empty(), resolve, reqs), reqs[|reqs| - 1].now)
      {
        RunKeepsBansBacked(resolve, reqs);
      }
    } else {
      var e1, e2 :| Longest(resolve(e1)) > resolve(e2).ViolationTtl();
      var reqs := SweptTooSoon(resolve, e1, e2);
    }
  }

  // ----- A concrete failure ---------------------------------------------------------------------

  function OneShot(seconds: pos): Config {
    Config(false, 60, 1, 1, seconds, 1.0, seconds, false, false)
  }

  lemma FirstRequestAdmitted(s: State, resolve: Resolver, seconds: pos, req: Request)
    requires resolve(req.endpoint) == OneShot(seconds)
    requires IpKeyOf(req) !in s.counters && req.ip !in s.bans
    ensures CheckResult(s, resolve, req).0 == Increment(s, IpKeyOf(req), 60, req.now)
  {}

  lemma SecondRequestPunished(s: State, resolve: Resolver, seconds: pos, req: Request)
    requires resolve(req.endpoint) == OneShot(seconds)
    requires IpKeyOf(req) in s.counters && s.counters[IpKeyOf(req)] == Counter(1, req.now) && req.ip !in s.bans
    ensures CheckResult(s, resolve, req).0 ==
            Punish(Increment(s, IpKeyOf(req), 60, req.now), OneShot(seconds), req.ip, req.now).0
  {}

  lemma FirstPunishment(s: State, seconds: pos, ip: string, now: real)
    requires ip !in s.violations
    ensures var t := Punish(s, OneShot(seconds), ip, now).0;
            && t.bans == s.bans[ip := now + seconds as real]
            && t.violations == SweepViolations(RecordViolation(s, ip, now), seconds, now).violations
            && t.counters == s.counters
  {
    FirstBanDuration(OneShot(seconds));
  }

  /** Two requests at once against a one-request limit: the client is banned. */
  lemma PairBans(s: State, resolve: Resolver, seconds: pos, req: Request)
    requires resolve(req.endpoint) == OneShot(seconds)
    requires IpKeyOf(req) !in s.counters && req.ip !in s.bans && req.ip !in s.violations
    ensures var t := CheckResult(CheckResult(s, resolve, req).0, resolve, req).0;
            && t.bans == s.bans[req.ip := req.now + seconds as real]
            && t.violations == SweepViolations(RecordViolation(s, req.ip, req.now), seconds, req.now).violations
            && t.counters.Keys == s.counters.Keys + {IpKeyOf(req)}
  {
    var a := Increment(s, IpKeyOf(req), 60, req.now);
    FirstRequestAdmitted(s, resolve, seconds, req);
    SecondRequestPunished(a, resolve, seconds, req);
    FirstPunishment(Increment(a, IpKeyOf(req), 60, req.now), seconds, req.ip, req.now);
  }

  lemma AfterPair(s: State, resolve: Resolver, reqs: seq<Request>, req: Request)
    ensures After(s, resolve, reqs + [req, req]) ==
            CheckResult(CheckResult(After(s, resolve, reqs), resolve, req).0, resolve, req).0
  {
    assert reqs + [req, req] == (reqs + [req]) + [req];
    AfterOneMore(s, resolve, reqs, req);
    AfterOneMore(s, resolve, reqs + [req], req);
  }

  lemma AfterOneMore(s: State, resolve: Resolver, reqs: seq<Request>, req: Request)
    ensures After(s, resolve, reqs + [req]) == CheckResult(After(s, resolve, reqs), resolve, req).0
  {
    assert (reqs + [req])[..|reqs|] == reqs;
  }

  /**
   With a path override whose bans are short, a violation there sweeps the record behind another
   client's long ban while that ban still runs.
   */
  lemma OverrideSweepsActiveRecord(resolve: Resolver)
    requires resolve("/slow") == OneShot(3600) && resolve("/quick") == OneShot(60)
    ensures var slow, quick := Request(0.0, "a", "/slow", "", ""), Request(100.0, "b", "/quick", "", "");
            var t := After(Empty(), resolve, [slow, slow, quick, quick]);
            IsBanned(t, "a", 100.0) && "a" !in t.violations
  {
    var slow, quick := Request(0.0, "a", "/slow", "", ""), Request(100.0, "b", "/quick", "", "");
    AfterPair(Empty(), resolve, [], slow);
    AfterPair(Empty(), resolve, [slow, slow], quick);
    assert [] + [slow, slow] == [slow, slow] && [slow, slow] + [quick, quick] == [slow, slow, quick, quick];
    var s2 := After(Empty(), resolve, [slow, slow]);
    PairBans(Empty(), resolve, 3600, slow);
    PairBans(s2, resolve, 60, quick);
  }
}
