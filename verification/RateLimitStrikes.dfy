/**
 Who is banned, and for how long: read off the checks that were rejected, without the tables of
 violations and bans.
 */
module RateLimitStrikes {
  import opened Prelude
  import opened RateLimit
  import opened RateLimitBounds
  import opened RateLimitBans

  // ----- Strikes ----------------------------------------------------------------------------

  /** Age at which a rejected check makes the limiter forget the strikes of others. */
  function ForgottenAge(cfg: Config): pos {
    Max(cfg.banDuration, cfg.maxBanDuration)
  }

  /** Strikes against a client, when it got the last one, and when the ban that one imposed ends, if it did. */
  datatype Record = Record(strikes: nat, at: real, until: Option<real>)

  const CLEAN := Record(0, 0.0, None)

  /** The uncapped ban for a number of strikes: each multiplies the one before. */
  function RawDuration(cfg: Config, strikes: pos): real {
    if strikes == 1 then cfg.banDuration as real else RawDuration(cfg, strikes - 1) * cfg.multiplier
  }

  function Duration(cfg: Config, strikes: pos): int {
    var seconds := RawDuration(cfg, strikes).Floor;
    if seconds <= cfg.maxBanDuration then seconds else cfg.maxBanDuration
  }

  /** A strike of its own, from the threshold on with a ban. */
  function Struck(cfg: Config, record: Record, now: real): Record {
    var strikes := record.strikes + 1;
    Record(strikes, now, if cfg.banThreshold <= strikes then Some(now + Duration(cfg, strikes) as real) else None)
  }

  /** A strike of another client makes the limiter forget strikes that have reached its age limit, but no ban. */
  function Aged(cfg: Config, record: Record, now: real): Record {
    if now - record.at >= ForgottenAge(cfg) as real then Record(0, 0.0, record.until) else record
  }

  function Next(cfg: Config, record: Record, req: Request, rejected: bool, ip: string): Record {
    if !rejected then record
    else if req.ip == ip then Struck(cfg, record, req.now)
    else Aged(cfg, record, req.now)
  }

  /** What a client has on record after the trace; the rejected checks alone count. */
  function RecordOf(resolve: Resolver, reqs: seq<Request>, ip: string): Record {
    if reqs == [] then CLEAN
    else
      var last := reqs[|reqs| - 1];
      Next(resolve(last.endpoint), RecordOf(resolve, reqs[..|reqs| - 1], ip), last,
           LastOutcome(Empty(), resolve, reqs).Exceeded?, ip)
  }

  // ----- The tables show them ---------------------------------------------------------------

  ghost predicate Shows(s: State, ip: string, record: Record, now: real) {
    && (if ip in s.violations then s.violations[ip] == Violation(record.strikes, record.at) && record.strikes > 0
        else record.strikes == 0)
    && (if ip in s.bans then record.until == Some(s.bans[ip]) else record.until.None? || now >= record.until.value)
  }

  lemma {:induction false} RawIsPower(d: real, m: factor, cfg: Config, strikes: pos)
    requires d == cfg.banDuration as real && m == cfg.multiplier
    ensures RawDuration(cfg, strikes) == d * Pow(m, strikes - 1)
  {
    if strikes > 1 {
      RawIsPower(d, m, cfg, strikes - 1);
      Reorder(d, Pow(m, strikes - 2), m);
    } else {
      assert Pow(m, 0) == 1.0;
    }
  }

  lemma Reorder(a: real, b: real, c: real)
    ensures (a * b) * c == a * (c * b)
  {}

  lemma DurationIsRaw(cfg: Config, strikes: pos)
    ensures Duration(cfg, strikes) == BanDuration(cfg, strikes)
  {
    RawIsPower(cfg.banDuration as real, cfg.multiplier, cfg, strikes);
  }

  lemma ShowsLater(s: State, ip: string, record: Record, now: real, later: real)
    requires Shows(s, ip, record, now) && now <= later
    ensures Shows(s, ip, record, later)
  {}

  lemma OwnStrike(s: State, t: State, cfg: Config, ip: string, record: Record, now: real)
    requires Shows(s, ip, record, now) && PunishedOnce(s, t, cfg, ip, now)
    ensures Shows(t, ip, Struck(cfg, record, now), now)
  {
    DurationIsRaw(cfg, record.strikes + 1);
  }

  lemma OthersStrike(s: State, t: State, cfg: Config, other: string, ip: string, record: Record, now: real)
    requires Shows(s, ip, record, now) && PunishedOnce(s, t, cfg, other, now) && other != ip
    ensures Shows(t, ip, Aged(cfg, record, now), now)
  {
    assert SameBan(s, t, ip) && SweptOther(s, t, cfg, now, ip);
  }

  lemma NoStrike(s: State, resolve: Resolver, req: Request, ip: string, record: Record)
    requires Shows(s, ip, record, req.now) && !CheckResult(s, resolve, req).1.Exceeded?
    ensures Shows(CheckResult(s, resolve, req).0, ip, record, req.now)
  {
    if !IsBanned(s, req.ip, req.now) {
      EitherAdmits(s, resolve, req);
      assert req.ip != ip ==> SameBan(s, CheckResult(s, resolve, req).0, ip);
    }
  }

  lemma StepShows(s: State, resolve: Resolver, req: Request, ip: string, record: Record)
    requires Shows(s, ip, record, req.now)
    ensures var (t, outcome) := CheckResult(s, resolve, req);
            Shows(t, ip, Next(resolve(req.endpoint), record, req, outcome.Exceeded?, ip), req.now)
  {
    var (t, outcome) := CheckResult(s, resolve, req);
    if outcome.Exceeded? {
      OrPunishes(s, resolve, req);
      if req.ip == ip {
        OwnStrike(s, t, resolve(req.endpoint), ip, record, req.now);
      } else {
        OthersStrike(s, t, resolve(req.endpoint), req.ip, ip, record, req.now);
      }
    } else {
      NoStrike(s, resolve, req, ip, record);
    }
  }

  lemma {:induction false} RunShows(resolve: Resolver, reqs: seq<Request>, ip: string, now: real)
    requires Ordered(reqs) && (reqs != [] ==> reqs[|reqs| - 1].now <= now)
    ensures Shows(After(Empty(), resolve, reqs), ip, RecordOf(resolve, reqs, ip), now)
  {
    if reqs != [] {
      var init, last := reqs[..|reqs| - 1], reqs[|reqs| - 1];
      RunShows(resolve, init, ip, last.now);
      AfterLast(Empty(), resolve, reqs);
      StepShows(After(Empty(), resolve, init), resolve, last, ip, RecordOf(resolve, init, ip));
      ShowsLater(After(Empty(), resolve, reqs), ip, RecordOf(resolve, reqs, ip), last.now, now);
    }
  }

  lemma BanShown(s: State, resolve: Resolver, req: Request, record: Record)
    requires Shows(s, req.ip, record, req.now)
    ensures var outcome := CheckResult(s, resolve, req).1;
            if record.until.Some? && req.now < record.until.value
            then outcome == Banned((record.until.value - req.now).Floor)
            else !outcome.Banned?
  {
    if !IsBanned(s, req.ip, req.now) {
      CheckIsJudged(s, resolve, req);
    }
  }

  /**
   After every trace a check is stopped by a ban if and only if the last rejection of its address was
   at least the threshold-th strike and the ban it imposed, the configured length multiplied once for
   each strike before and capped, is not over; it is told the whole seconds left.
   */
  lemma BannedIff(resolve: Resolver, reqs: seq<Request>, req: Request)
    requires Ordered(reqs) && (reqs != [] ==> reqs[|reqs| - 1].now <= req.now)
    ensures var outcome, until := CheckResult(After(Empty(), resolve, reqs), resolve, req).1,
                                  RecordOf(resolve, reqs, req.ip).until;
            if until.Some? && req.now < until.value then outcome == Banned((until.value - req.now).Floor)
            else !outcome.Banned?
  {
    RunShows(resolve, reqs, req.ip, req.now);
    BanShown(After(Empty(), resolve, reqs), resolve, req, RecordOf(resolve, reqs, req.ip));
  }

  lemma PunishTells(s: State, cfg: Config, ip: string, now: real)
    ensures Punish(s, cfg, ip, now).1 == Exceeded(BanDuration(cfg, ViolationCount(s, ip) + 1))
  {}

  function Answer(s: State, resolve: Resolver, req: Request): Outcome {
    CheckResult(s, resolve, req).1
  }

  /** The answer to a check that is one more strike. */
  function StrikeAnswer(cfg: Config, record: Record): Outcome {
    Exceeded(Duration(cfg, record.strikes + 1))
  }

  lemma StrikeTold(s: State, resolve: Resolver, req: Request, record: Record)
    requires Shows(s, req.ip, record, req.now) && Answer(s, resolve, req).Exceeded?
    ensures Answer(s, resolve, req) == StrikeAnswer(resolve(req.endpoint), record)
  {
    var cfg, f := resolve(req.endpoint), ForgetExpiredBan(s, req.ip, req.now);
    OnlyCounted(s, cfg, req);
    PunishTells(Counted(f, cfg, req), cfg, req.ip, req.now);
    DurationIsRaw(cfg, record.strikes + 1);
  }

  /** A rejected check is told how long a ban its strike would impose. */
  lemma RejectedIsTold(resolve: Resolver, reqs: seq<Request>, req: Request)
    requires Ordered(reqs) && (reqs != [] ==> reqs[|reqs| - 1].now <= req.now)
    requires Answer(After(Empty(), resolve, reqs), resolve, req).Exceeded?
    ensures Answer(After(Empty(), resolve, reqs), resolve, req) ==
            StrikeAnswer(resolve(req.endpoint), RecordOf(resolve, reqs, req.ip))
  {
    RunShows(resolve, reqs, req.ip, req.now);
    StrikeTold(After(Empty(), resolve, reqs), resolve, req, RecordOf(resolve, reqs, req.ip));
  }
}
