/**
 What the rate limiter guarantees over arbitrary request traces: how many checks one client gets
 through in any window-length interval.
 */
module RateLimitBounds {
  import opened Prelude
  import opened RateLimit

  type Resolver = string -> Config

  /** Clock readings never go back. */
  ghost predicate Ordered(reqs: seq<Request>) {
    forall i, j :: 0 <= i < j < |reqs| ==> reqs[i].now <= reqs[j].now
  }

  function Empty(): State {
    State(map[], map[], map[], map[], map[])
  }

  type Checker = (State, Request) -> (State, Outcome)

  function Checking(resolve: Resolver): Checker {
    (s: State, req: Request) => CheckResult(s, resolve, req)
  }

  function Run(s: State, check: Checker, reqs: seq<Request>): State {
    if reqs == [] then s else check(Run(s, check, reqs[..|reqs| - 1]), reqs[|reqs| - 1]).0
  }

  /** How many requests of the trace are `hit` in the state they meet. */
  function Count(s: State, check: Checker, hit: (State, Request) -> bool, reqs: seq<Request>): nat {
    if reqs == [] then 0
    else
      var init, last := reqs[..|reqs| - 1], reqs[|reqs| - 1];
      var before := Count(s, check, hit, init);
      if hit(Run(s, check, init), last) then before + 1 else before
  }

  function After(s: State, resolve: Resolver, reqs: seq<Request>): State {
    Run(s, Checking(resolve), reqs)
  }

  /** A statement about a state, a count and a time survives this check. */
  ghost predicate Survives(
      check: Checker, hit: (State, Request) -> bool, inv: (State, nat, real) -> bool,
      s: State, n: nat, req: Request, later: real)
  {
    inv(s, n, req.now) && req.now <= later ==> inv(check(s, req).0, if hit(s, req) then n + 1 else n, later)
  }

  ghost predicate Preserved(check: Checker, hit: (State, Request) -> bool, inv: (State, nat, real) -> bool) {
    forall s, n, req, later :: Survives(check, hit, inv, s, n, req, later)
  }

  lemma {:induction false} RunPreserves(
      s: State, check: Checker, hit: (State, Request) -> bool, inv: (State, nat, real) -> bool,
      reqs: seq<Request>, start: real, now: real)
    requires Preserved(check, hit, inv) && (forall t :: t >= start ==> inv(s, 0, t))
    requires Ordered(reqs) && start <= now && forall r :: r in reqs ==> start <= r.now <= now
    ensures inv(Run(s, check, reqs), Count(s, check, hit, reqs), now)
  {
    if reqs != [] {
      var init, last := reqs[..|reqs| - 1], reqs[|reqs| - 1];
      assert last in reqs && forall r :: r in init ==> r in reqs && r.now <= last.now;
      RunPreserves(s, check, hit, inv, init, start, last.now);
      assert Survives(check, hit, inv, Run(s, check, init), Count(s, check, hit, init), last, now);
    }
  }

  /** `key` is one of the keys the request is counted under: its address, and its user or API key if in use. */
  predicate Touches(cfg: Config, req: Request, key: Key) {
    || key == IpKeyOf(req)
    || (UsesUser(cfg, req) && key == UserKeyOf(req))
    || (UsesApiKey(cfg, req) && key == ApiKeyOf(req))
  }

  /** The check is counted under `key` and admitted, at a time in [from, to). */
  predicate AdmitsAt(s: State, resolve: Resolver, req: Request, key: Key, from: real, to: real) {
    Touches(resolve(req.endpoint), req, key) && CheckResult(s, resolve, req).1.Admitted? && from <= req.now < to
  }

  /** The check is counted under `key` and admitted, in the key's window that started at `w`. */
  predicate AdmitsInto(s: State, resolve: Resolver, req: Request, key: Key, w: real) {
    var (t, outcome) := CheckResult(s, resolve, req);
    && Touches(resolve(req.endpoint), req, key) && outcome.Admitted?
    && key in t.counters && t.counters[key].start == w
  }

  function AdmittingAt(resolve: Resolver, key: Key, from: real, to: real): (State, Request) -> bool {
    (s: State, req: Request) => AdmitsAt(s, resolve, req, key, from, to)
  }

  function AdmittingInto(resolve: Resolver, key: Key, w: real): (State, Request) -> bool {
    (s: State, req: Request) => AdmitsInto(s, resolve, req, key, w)
  }

  /** Checks of `key` admitted at times in [from, to). */
  function AdmittedIn(s: State, resolve: Resolver, reqs: seq<Request>, key: Key, from: real, to: real): nat {
    Count(s, Checking(resolve), AdmittingAt(resolve, key, from, to), reqs)
  }

  /** Checks of `key` admitted in its window that started at `w`. */
  function AdmittedInWindow(s: State, resolve: Resolver, reqs: seq<Request>, key: Key, w: real): nat {
    Count(s, Checking(resolve), AdmittingInto(resolve, key, w), reqs)
  }

  /** The counter of `key`, if any, was opened no later than the trace begins. */
  ghost predicate OpenedBefore(s: State, reqs: seq<Request>, key: Key) {
    key in s.counters ==> forall r :: r in reqs ==> s.counters[key].start <= r.now
  }

  /** A time before the trace at which the counter of `key` is already open. */
  function StartOf(s: State, reqs: seq<Request>, key: Key): real
    requires reqs != []
  {
    if key in s.counters then s.counters[key].start else reqs[0].now
  }

  // ----- One step, seen from one key ------------------------------------------------------

  /** The counter continues its window or opens a new one. */
  ghost predicate Continues(s: State, t: State, key: Key, window: pos, now: real) {
    && key in t.counters && WindowOf(t, key) == window
    && if key in s.counters && now - s.counters[key].start < window as real
       then t.counters[key] == Counter(s.counters[key].count + 1, s.counters[key].start) &&
            PrevOf(t, key) == PrevOf(s, key)
       else t.counters[key] == Counter(1, now) &&
            PrevOf(t, key) == if key in s.counters then s.counters[key].count else PrevOf(s, key)
  }

  lemma IncrementContinues(s: State, key: Key, window: pos, now: real)
    ensures Continues(s, Increment(s, key, window, now), key, window, now)
  {}

  /** One counting step, as `key` sees it. */
  ghost predicate CountStep(s: State, t: State, hit: bool, key: Key, window: pos, now: real) {
    if hit then Continues(s, t, key, window, now) else SameKey(s, t, key)
  }

  lemma CountOne(s: State, on: bool, counted: Key, window: pos, now: real, key: Key)
    ensures CountStep(s, if on then Increment(s, counted, window, now) else s, on && counted == key, key, window, now)
  {
    if on && counted == key {
      IncrementContinues(s, key, window, now);
    } else if on {
      IncrementElsewhere(s, counted, window, now, key);
    }
  }

  lemma CountTwice(s: State, t: State, u: State, first: bool, second: bool, key: Key, window: pos, now: real)
    requires CountStep(s, t, first, key, window, now) && CountStep(t, u, second, key, window, now)
    requires !(first && second)
    ensures CountStep(s, u, first || second, key, window, now)
  {}

  /** The keys of one request differ, so each is counted once. */
  lemma CountedKey(s: State, cfg: Config, req: Request, key: Key)
    ensures CountStep(s, Counted(s, cfg, req), Touches(cfg, req, key), key, cfg.windowSeconds, req.now)
  {
    var w, now, t := cfg.windowSeconds, req.now, Counted(s, cfg, req);
    var ip, user, apiKey := IpKeyOf(req) == key, UsesUser(cfg, req) && UserKeyOf(req) == key,
                            UsesApiKey(cfg, req) && ApiKeyOf(req) == key;
    var s1 := Increment(s, IpKeyOf(req), w, now);
    var s2 := if UsesUser(cfg, req) then Increment(s1, UserKeyOf(req), w, now) else s1;
    CountOne(s, true, IpKeyOf(req), w, now, key);
    CountOne(s1, UsesUser(cfg, req), UserKeyOf(req), w, now, key);
    CountOne(s2, UsesApiKey(cfg, req), ApiKeyOf(req), w, now, key);
    CountTwice(s, s1, s2, ip, user, key, w, now);
    CountTwice(s, s2, t, ip || user, apiKey, key, w, now);
  }

  lemma PunishedKey(s: State, cfg: Config, ip: string, now: real, key: Key)
    ensures SameKey(s, Punish(s, cfg, ip, now).0, key)
  {}

  /** The check counted `key` once; if it was admitted, the count is within the limit. */
  ghost predicate Hits(s: State, t: State, cfg: Config, key: Key, now: real, admitted: bool) {
    && Continues(s, t, key, cfg.windowSeconds, now)
    && (admitted ==> Effective(t, cfg, key, now) <= cfg.maxRequests as real)
  }

  /** What becomes of a check that is not stopped by a ban. */
  function Judged(s: State, cfg: Config, req: Request): State {
    var counted := Counted(s, cfg, req);
    if WithinLimits(counted, cfg, req) then counted else Punish(counted, cfg, req.ip, req.now).0
  }

  lemma JudgedKey(s: State, cfg: Config, req: Request, key: Key)
    ensures CountStep(s, Judged(s, cfg, req), Touches(cfg, req, key), key, cfg.windowSeconds, req.now)
  {
    var counted := Counted(s, cfg, req);
    CountedKey(s, cfg, req, key);
    PunishedKey(counted, cfg, req.ip, req.now, key);
    CountTwice(s, counted, Judged(s, cfg, req), Touches(cfg, req, key), false, key, cfg.windowSeconds, req.now);
  }

  lemma CheckIsJudged(s: State, resolve: Resolver, req: Request)
    requires !IsBanned(s, req.ip, req.now)
    ensures var (t, outcome) := CheckResult(s, resolve, req);
            var f, cfg := ForgetExpiredBan(s, req.ip, req.now), resolve(req.endpoint);
            && t == Judged(f, cfg, req) && !outcome.Banned?
            && (outcome.Admitted? <==> WithinLimits(Counted(f, cfg, req), cfg, req))
            && (outcome.Admitted? ==> t == Counted(f, cfg, req))
  {}

  lemma ForgettingSameKey(s: State, ip: string, now: real, key: Key)
    ensures SameKey(s, ForgetExpiredBan(s, ip, now), key)
  {}

  /** A check either leaves the key's counter alone or counts it once, and admits only within the limit. */
  lemma KeyStep(s: State, resolve: Resolver, req: Request, key: Key)
    ensures var (t, outcome) := CheckResult(s, resolve, req);
            if Touches(resolve(req.endpoint), req, key) && !outcome.Banned?
            then Hits(s, t, resolve(key.endpoint), key, req.now, outcome.Admitted?)
            else SameKey(s, t, key)
  {
    if !IsBanned(s, req.ip, req.now) {
      var cfg, f := resolve(req.endpoint), ForgetExpiredBan(s, req.ip, req.now);
      var hit := Touches(cfg, req, key);
      var (t, outcome) := CheckResult(s, resolve, req);
      CheckIsJudged(s, resolve, req);
      ForgettingSameKey(s, req.ip, req.now, key);
      JudgedKey(f, cfg, req, key);
      CountTwice(s, f, t, false, hit, key, cfg.windowSeconds, req.now);
      if hit && outcome.Admitted? {
        TouchedWithin(t, cfg, req, key);
      }
    }
  }

  lemma TouchedWithin(s: State, cfg: Config, req: Request, key: Key)
    requires WithinLimits(s, cfg, req) && Touches(cfg, req, key)
    ensures Effective(s, cfg, key, req.now) <= cfg.maxRequests as real
  {}

  // ----- Arithmetic of the weighted count -------------------------------------------------

  lemma WeightedScaled(count: nat, prev: nat, elapsed: real, window: pos, limit: nat)
    requires Weighted(count, prev, elapsed, window) <= limit as real
    ensures count as real * window as real + prev as real * (window as real - elapsed)
            <= limit as real * window as real
  {
    var w, p := window as real, prev as real;
    var q := elapsed / w;
    assert q * w == elapsed;
    assert (count as real + p * (1.0 - q)) * w == count as real * w + p * (w - q * w);
    assert (count as real + p * (1.0 - q)) * w <= limit as real * w;
  }

  /** Within its window a weighted count under the limit means the count is, strictly if anything went before. */
  lemma WeightedAdmits(count: nat, prev: nat, elapsed: real, window: pos, limit: nat)
    requires 0.0 <= elapsed < window as real
    requires Weighted(count, prev, elapsed, window) <= limit as real
    ensures count <= limit && (prev >= 1 ==> count < limit)
    ensures prev >= limit ==> count as real * window as real <= limit as real * elapsed
  {
    WeightedScaled(count, prev, elapsed, window, limit);
    ScaledAdmits(count as real, prev as real, window as real - elapsed, window as real, limit as real);
    assert limit as real * (window as real - (window as real - elapsed)) == limit as real * elapsed;
  }

  /** The same with the fraction cleared: `rest` of the window `w` still overlaps the previous one. */
  lemma ScaledAdmits(c: real, p: real, rest: real, w: real, limit: real)
    requires 0.0 < rest <= w && p >= 0.0
    requires c * w + p * rest <= limit * w
    ensures c <= limit && (p >= 1.0 ==> c < limit)
    ensures p >= limit ==> c * w <= limit * (w - rest)
  {
    Scale(0.0, p, rest);
    Scale(limit, c, w);
    if p >= 1.0 {
      Scale(1.0, p, rest);
    }
    if p >= limit {
      Scale(limit, p, rest);
      assert limit * (w - rest) == limit * w - limit * rest;
    }
  }

  // ----- Any interval of one window length ------------------------------------------------

  /** What `admitted` checks in [from, from + window) imply about the key's counter. */
  ghost predicate IntervalInvariant(s: State, key: Key, cfg: Config, from: real, admitted: nat) {
    var limit := cfg.maxRequests;
    var to := from + cfg.windowSeconds as real;
    if key !in s.counters then admitted == 0
    else
      var c := s.counters[key];
      if c.start < from then admitted <= Min(c.count, limit)
      else if cfg.sliding then
        && admitted <= 2 * limit - 1
        && (c.start < to ==> admitted <= Min(PrevOf(s, key), limit) + Min(c.count, limit))
      else
        && admitted <= 2 * limit
        && (c.start < to ==> admitted <= limit + Min(c.count, limit))
  }

  lemma IntervalStep(s: State, t: State, key: Key, cfg: Config, from: real, admitted: nat, now: real, ok: bool)
    requires IntervalInvariant(s, key, cfg, from, admitted) && (now < from ==> admitted == 0)
    requires key in s.counters ==> s.counters[key].start <= now
    requires Hits(s, t, cfg, key, now, ok)
    ensures var to := from + cfg.windowSeconds as real;
            IntervalInvariant(t, key, cfg, from, if ok && from <= now < to then admitted + 1 else admitted)
  {
    HitCounts(s, t, cfg, key, now, ok);
    IntervalCounts(s, t, key, cfg, from, admitted, now, ok);
  }

  /** An admitted check leaves the count within the limit, strictly so after a nonempty window in sliding mode. */
  ghost predicate CountAdmits(t: State, key: Key, cfg: Config) {
    && key in t.counters && t.counters[key].count <= cfg.maxRequests
    && (cfg.sliding && PrevOf(t, key) >= 1 ==> t.counters[key].count < cfg.maxRequests)
  }

  lemma HitCounts(s: State, t: State, cfg: Config, key: Key, now: real, ok: bool)
    requires Hits(s, t, cfg, key, now, ok) && (key in s.counters ==> s.counters[key].start <= now)
    ensures Continues(s, t, key, cfg.windowSeconds, now)
    ensures ok ==> CountAdmits(t, key, cfg)
  {
    if ok && cfg.sliding {
      var c := t.counters[key];
      WeightedAdmits(c.count, PrevOf(t, key), now - c.start, cfg.windowSeconds, cfg.maxRequests);
    }
  }

  lemma IntervalCounts(s: State, t: State, key: Key, cfg: Config, from: real, admitted: nat, now: real, ok: bool)
    requires IntervalInvariant(s, key, cfg, from, admitted) && (now < from ==> admitted == 0)
    requires key in s.counters ==> s.counters[key].start <= now
    requires Continues(s, t, key, cfg.windowSeconds, now) && (ok ==> CountAdmits(t, key, cfg))
    ensures var to := from + cfg.windowSeconds as real;
            IntervalInvariant(t, key, cfg, from, if ok && from <= now < to then admitted + 1 else admitted)
  {}

  /** The invariant, with what is known of the clock `now` of the last check. */
  ghost predicate IntervalInvariantAt(s: State, key: Key, cfg: Config, from: real, admitted: nat, now: real) {
    && IntervalInvariant(s, key, cfg, from, admitted)
    && (now < from ==> admitted == 0)
    && (key in s.counters ==> s.counters[key].start <= now)
  }

  lemma IntervalCheck(s: State, resolve: Resolver, req: Request, key: Key, from: real, admitted: nat, later: real)
    requires IntervalInvariantAt(s, key, resolve(key.endpoint), from, admitted, req.now) && req.now <= later
    ensures var to := from + resolve(key.endpoint).windowSeconds as real;
            var more := AdmitsAt(s, resolve, req, key, from, to);
            IntervalInvariantAt(CheckResult(s, resolve, req).0, key, resolve(key.endpoint), from,
                                if more then admitted + 1 else admitted, later)
  {
    KeyStep(s, resolve, req, key);
    var (t, outcome) := CheckResult(s, resolve, req);
    if Touches(resolve(req.endpoint), req, key) && !outcome.Banned? {
      IntervalStep(s, t, key, resolve(key.endpoint), from, admitted, req.now, outcome.Admitted?);
    }
  }

  /**
   For every key in use, address, user or API key: fixed windows admit at most twice the limit in any
   interval of one window length, and sliding ones strictly fewer.
   */
  lemma IntervalBound(s: State, resolve: Resolver, reqs: seq<Request>, key: Key, from: real)
    requires Ordered(reqs) && OpenedBefore(s, reqs, key)
    ensures var cfg := resolve(key.endpoint);
            var admitted := AdmittedIn(s, resolve, reqs, key, from, from + cfg.windowSeconds as real);
            if cfg.sliding then admitted < 2 * cfg.maxRequests else admitted <= 2 * cfg.maxRequests
  {
    if reqs != [] {
      var cfg := resolve(key.endpoint);
      var to := from + cfg.windowSeconds as real;
      IntervalHolds(s, resolve, reqs, key, from, to);
      IntervalMeans(After(s, resolve, reqs), key, cfg, from, AdmittedIn(s, resolve, reqs, key, from, to),
                    reqs[|reqs| - 1].now);
    }
  }

  lemma IntervalHolds(s: State, resolve: Resolver, reqs: seq<Request>, key: Key, from: real, to: real)
    requires to == from + resolve(key.endpoint).windowSeconds as real
    requires Ordered(reqs) && OpenedBefore(s, reqs, key) && reqs != []
    ensures IntervalInvariantAt(After(s, resolve, reqs), key, resolve(key.endpoint), from,
                                AdmittedIn(s, resolve, reqs, key, from, to), reqs[|reqs| - 1].now)
  {
    var cfg, now, start := resolve(key.endpoint), reqs[|reqs| - 1].now, StartOf(s, reqs, key);
    IntervalPreserved(resolve, key, from, to);
    forall t | t >= start ensures IntervalAt(key, cfg, from)(s, 0, t) {
      NoneYet(s, key, cfg, from, t);
    }
    RunPreserves(s, Checking(resolve), AdmittingAt(resolve, key, from, to), IntervalAt(key, cfg, from),
                 reqs, start, now);
  }

  lemma NoneYet(s: State, key: Key, cfg: Config, from: real, now: real)
    requires key in s.counters ==> s.counters[key].start <= now
    ensures IntervalInvariantAt(s, key, cfg, from, 0, now)
  {}

  ghost function IntervalAt(key: Key, cfg: Config, from: real): (State, nat, real) -> bool {
    (s: State, admitted: nat, now: real) => IntervalInvariantAt(s, key, cfg, from, admitted, now)
  }

  lemma IntervalPreserved(resolve: Resolver, key: Key, from: real, to: real)
    requires to == from + resolve(key.endpoint).windowSeconds as real
    ensures Preserved(Checking(resolve), AdmittingAt(resolve, key, from, to),
                      IntervalAt(key, resolve(key.endpoint), from))
  {
    var hit, inv := AdmittingAt(resolve, key, from, to), IntervalAt(key, resolve(key.endpoint), from);
    forall s, n, req, later ensures Survives(Checking(resolve), hit, inv, s, n, req, later) {
      if inv(s, n, req.now) && req.now <= later {
        IntervalCheck(s, resolve, req, key, from, n, later);
      }
    }
  }

  lemma IntervalMeans(s: State, key: Key, cfg: Config, from: real, admitted: nat, now: real)
    requires IntervalInvariantAt(s, key, cfg, from, admitted, now)
    ensures if cfg.sliding then admitted < 2 * cfg.maxRequests else admitted <= 2 * cfg.maxRequests
  {}

  // ----- Each window ----------------------------------------------------------------------

  /** `admitted` checks got through in the window that started at `w`. */
  ghost predicate WindowCounts(s: State, key: Key, cfg: Config, w: real, admitted: nat, now: real) {
    if key !in s.counters then admitted == 0
    else
      var c := s.counters[key];
      && c.start <= now
      && (c.start < w ==> admitted == 0)
      && (c.start > w ==> admitted <= cfg.maxRequests)
      && (c.start == w ==> admitted <= Min(c.count, cfg.maxRequests))
  }

  /** `n` checks in `elapsed` seconds are no more than the limit per window length. */
  predicate Paced(cfg: Config, n: nat, elapsed: real) {
    n as real * cfg.windowSeconds as real <= cfg.maxRequests as real * elapsed
  }

  lemma PacedWeaker(cfg: Config, m: nat, n: nat, elapsed: real, later: real)
    requires m <= n && elapsed <= later && Paced(cfg, n, elapsed)
    ensures Paced(cfg, m, later)
  {
    Scale(m as real, n as real, cfg.windowSeconds as real);
    Scale(elapsed, later, cfg.maxRequests as real);
  }

  lemma PacedNone(cfg: Config, elapsed: real)
    requires elapsed >= 0.0
    ensures Paced(cfg, 0, elapsed)
  {}

  /** The window at `w` is open, in sliding mode, after one that counted at least the limit. */
  predicate AfterFullWindow(s: State, key: Key, cfg: Config, w: real) {
    cfg.sliding && key in s.counters && s.counters[key].start == w && PrevOf(s, key) >= cfg.maxRequests
  }

  ghost predicate WindowPaced(s: State, key: Key, cfg: Config, w: real, admitted: nat, now: real) {
    AfterFullWindow(s, key, cfg, w) ==> Paced(cfg, admitted, now - w)
  }

  ghost predicate WindowInvariant(s: State, key: Key, cfg: Config, w: real, admitted: nat, now: real) {
    WindowCounts(s, key, cfg, w, admitted, now) && WindowPaced(s, key, cfg, w, admitted, now)
  }

  lemma WindowCountsStep(s: State, t: State, key: Key, cfg: Config, w: real, admitted: nat, now: real, ok: bool)
    requires WindowCounts(s, key, cfg, w, admitted, now) && Hits(s, t, cfg, key, now, ok)
    ensures WindowCounts(t, key, cfg, w, if ok && t.counters[key].start == w then admitted + 1 else admitted, now)
    ensures t.counters[key].start == w ==> admitted + 1 <= t.counters[key].count
    ensures 0.0 <= now - t.counters[key].start < cfg.windowSeconds as real
  {
    var c := t.counters[key];
    assert 0.0 <= now - c.start < cfg.windowSeconds as real;
    if cfg.sliding && ok {
      WeightedAdmits(c.count, PrevOf(t, key), now - c.start, cfg.windowSeconds, cfg.maxRequests);
    }
  }

  lemma AdmittedIsPaced(t: State, key: Key, cfg: Config, w: real, now: real)
    requires AfterFullWindow(t, key, cfg, w) && !Expired(t, key, now) && WindowOf(t, key) == cfg.windowSeconds
    requires 0.0 <= now - w && Effective(t, cfg, key, now) <= cfg.maxRequests as real
    ensures Paced(cfg, t.counters[key].count, now - w)
  {
    WeightedAdmits(t.counters[key].count, PrevOf(t, key), now - w, cfg.windowSeconds, cfg.maxRequests);
  }

  lemma WindowPacedStep(s: State, t: State, key: Key, cfg: Config, w: real, admitted: nat, now: real, ok: bool)
    requires WindowInvariant(s, key, cfg, w, admitted, now) && Hits(s, t, cfg, key, now, ok)
    ensures WindowPaced(t, key, cfg, w, if ok && t.counters[key].start == w then admitted + 1 else admitted, now)
  {
    WindowCountsStep(s, t, key, cfg, w, admitted, now, ok);
    if AfterFullWindow(t, key, cfg, w) {
      if ok {
        IncrementOpens(s, key, cfg.windowSeconds, now);
        AdmittedIsPaced(t, key, cfg, w, now);
        PacedWeaker(cfg, admitted + 1, t.counters[key].count, now - w, now - w);
      } else if !AfterFullWindow(s, key, cfg, w) {
        assert admitted == 0;
        PacedNone(cfg, now - w);
      }
    }
  }

  /** One check at `req.now`, seen at any later time. */
  lemma WindowCheck(s: State, resolve: Resolver, req: Request, key: Key, w: real, admitted: nat, later: real)
    requires WindowInvariant(s, key, resolve(key.endpoint), w, admitted, req.now) && req.now <= later
    ensures WindowInvariant(CheckResult(s, resolve, req).0, key, resolve(key.endpoint), w,
                            if AdmitsInto(s, resolve, req, key, w) then admitted + 1 else admitted, later)
  {
    KeyStep(s, resolve, req, key);
    var cfg := resolve(key.endpoint);
    var (t, outcome) := CheckResult(s, resolve, req);
    if Touches(resolve(req.endpoint), req, key) && !outcome.Banned? {
      WindowStep(s, t, key, cfg, w, admitted, req.now, outcome.Admitted?);
      var more := outcome.Admitted? && t.counters[key].start == w;
      LaterWindow(t, key, cfg, w, if more then admitted + 1 else admitted, req.now, later);
    } else {
      WindowSame(s, t, key, cfg, w, admitted, req.now);
      LaterWindow(t, key, cfg, w, admitted, req.now, later);
    }
  }

  lemma WindowStep(s: State, t: State, key: Key, cfg: Config, w: real, admitted: nat, now: real, ok: bool)
    requires WindowInvariant(s, key, cfg, w, admitted, now) && Hits(s, t, cfg, key, now, ok)
    ensures WindowInvariant(t, key, cfg, w, if ok && t.counters[key].start == w then admitted + 1 else admitted, now)
  {
    WindowCountsStep(s, t, key, cfg, w, admitted, now, ok);
    WindowPacedStep(s, t, key, cfg, w, admitted, now, ok);
  }

  lemma WindowSame(s: State, t: State, key: Key, cfg: Config, w: real, admitted: nat, now: real)
    requires WindowInvariant(s, key, cfg, w, admitted, now) && SameKey(s, t, key)
    ensures WindowInvariant(t, key, cfg, w, admitted, now)
  {}

  lemma LaterWindow(s: State, key: Key, cfg: Config, w: real, admitted: nat, now: real, later: real)
    requires WindowInvariant(s, key, cfg, w, admitted, now) && now <= later
    ensures WindowInvariant(s, key, cfg, w, admitted, later)
  {
    if AfterFullWindow(s, key, cfg, w) {
      PacedWeaker(cfg, admitted, admitted, now - w, later - w);
    }
  }

  lemma NoneAdmitted(s: State, key: Key, cfg: Config, w: real, now: real)
    requires key in s.counters ==> s.counters[key].start <= now
    ensures WindowInvariant(s, key, cfg, w, 0, now)
  {
    if AfterFullWindow(s, key, cfg, w) {
      PacedNone(cfg, now - w);
    }
  }

  /**
   For every key in use, a window admits at most the limit.  In sliding mode, after a window that
   counted at least the limit, the next one has admitted at most limit * e / W checks when e of its
   W seconds are over.
   */
  lemma WindowBound(s: State, resolve: Resolver, reqs: seq<Request>, key: Key, w: real)
    requires Ordered(reqs) && OpenedBefore(s, reqs, key) && reqs != []
    ensures var cfg := resolve(key.endpoint);
            var t, admitted := After(s, resolve, reqs), AdmittedInWindow(s, resolve, reqs, key, w);
            && admitted <= cfg.maxRequests
            && (AfterFullWindow(t, key, cfg, w) ==> Paced(cfg, admitted, reqs[|reqs| - 1].now - w))
  {
    WindowHolds(s, resolve, reqs, key, w);
    WindowMeans(After(s, resolve, reqs), key, resolve(key.endpoint), w,
                AdmittedInWindow(s, resolve, reqs, key, w), reqs[|reqs| - 1].now);
  }

  lemma WindowHolds(s: State, resolve: Resolver, reqs: seq<Request>, key: Key, w: real)
    requires Ordered(reqs) && OpenedBefore(s, reqs, key) && reqs != []
    ensures WindowInvariant(After(s, resolve, reqs), key, resolve(key.endpoint), w,
                            AdmittedInWindow(s, resolve, reqs, key, w), reqs[|reqs| - 1].now)
  {
    var cfg, now, start := resolve(key.endpoint), reqs[|reqs| - 1].now, StartOf(s, reqs, key);
    WindowPreserved(resolve, key, w);
    forall t | t >= start ensures WindowAt(key, cfg, w)(s, 0, t) {
      NoneAdmitted(s, key, cfg, w, t);
    }
    RunPreserves(s, Checking(resolve), AdmittingInto(resolve, key, w), WindowAt(key, cfg, w), reqs, start, now);
  }

  ghost function WindowAt(key: Key, cfg: Config, w: real): (State, nat, real) -> bool {
    (s: State, admitted: nat, now: real) => WindowInvariant(s, key, cfg, w, admitted, now)
  }

  lemma WindowPreserved(resolve: Resolver, key: Key, w: real)
    ensures Preserved(Checking(resolve), AdmittingInto(resolve, key, w), WindowAt(key, resolve(key.endpoint), w))
  {
    var hit, inv := AdmittingInto(resolve, key, w), WindowAt(key, resolve(key.endpoint), w);
    forall s, n, req, later ensures Survives(Checking(resolve), hit, inv, s, n, req, later) {
      if inv(s, n, req.now) && req.now <= later {
        WindowCheck(s, resolve, req, key, w, n, later);
      }
    }
  }

  lemma WindowMeans(s: State, key: Key, cfg: Config, w: real, admitted: nat, now: real)
    requires WindowInvariant(s, key, cfg, w, admitted, now)
    ensures admitted <= cfg.maxRequests && (AfterFullWindow(s, key, cfg, w) ==> Paced(cfg, admitted, now - w))
  {}
}
