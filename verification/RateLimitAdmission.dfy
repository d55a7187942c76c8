/**
 Who gets in: whether the rate limiter admits a check, read off the times at which earlier requests
 were counted, without the counters.
 */
module RateLimitAdmission {
  import opened Prelude
  import opened RateLimit
  import opened RateLimitBounds

  // ----- The counted requests of a key ------------------------------------------------------

  /** The times of the requests of the trace that were counted under `key`: all but those a ban stopped. */
  function CountedTimes(resolve: Resolver, reqs: seq<Request>, key: Key): seq<real> {
    if reqs == [] then []
    else
      var init, last := reqs[..|reqs| - 1], reqs[|reqs| - 1];
      var outcome := CheckResult(After(Empty(), resolve, init), resolve, last).1;
      CountedTimes(resolve, init, key) +
      if Touches(resolve(last.endpoint), last, key) && !outcome.Banned? then [last.now] else []
  }

  /** Which of `times` opened the last window: a window runs for `w` seconds from the request that opens it. */
  function Opener(times: seq<real>, w: pos): (i: nat)
    requires times != []
    ensures i < |times|
  {
    var last := |times| - 1;
    if last == 0 then 0
    else
      var i := Opener(times[..last], w);
      if times[last] - times[i] >= w as real then last else i
  }

  /** Requests in the window that ended when the last one was opened. */
  function BeforeThat(times: seq<real>, w: pos): nat
    requires times != []
  {
    var i := Opener(times, w);
    if i == 0 then 0 else i - Opener(times[..i], w)
  }

  /** `n` requests in the window that is open at some time, `p` in the one before, `e` seconds into it. */
  datatype Load = Load(n: nat, p: nat, e: real)

  function LoadAt(times: seq<real>, w: pos, now: real): Load {
    if times == [] then Load(0, 0, 0.0)
    else
      var i := Opener(times, w);
      if now - times[i] < w as real then Load(|times| - i, BeforeThat(times, w), now - times[i])
      else Load(0, |times| - i, 0.0)
  }

  /** What the load and one more request use up. */
  function Usage(cfg: Config, load: Load): real {
    if cfg.sliding then SlidingUse(load.n + 1, load.p, load.e, cfg.windowSeconds) else Allowance(cfg, load.n + 1)
  }

  /** What `requests` requests in one window use up. */
  function Allowance(cfg: Config, requests: int): real {
    requests as real * cfg.windowSeconds as real
  }

  predicate HasRoom(cfg: Config, load: Load) {
    Usage(cfg, load) <= Allowance(cfg, cfg.maxRequests)
  }

  // ----- The counters are those of the times ------------------------------------------------

  /** What the backend holds for a key counted at `times`. */
  ghost predicate Tracks(s: State, key: Key, times: seq<real>, w: pos) {
    if times == [] then key !in s.counters && PrevOf(s, key) == 0
    else
      var i := Opener(times, w);
      && key in s.counters && s.counters[key] == Counter(|times| - i, times[i])
      && PrevOf(s, key) == BeforeThat(times, w) && WindowOf(s, key) == w
  }

  lemma OpenerStep(times: seq<real>, w: pos, now: real)
    requires times != []
    ensures var more, i := times + [now], Opener(times, w);
            if now - times[i] < w as real then Opener(more, w) == i && BeforeThat(more, w) == BeforeThat(times, w)
            else Opener(more, w) == |times| && BeforeThat(more, w) == |times| - i
  {
    var more, i := times + [now], Opener(times, w);
    assert more[..|times|] == times && more[..i] == times[..i];
  }

  /** One more counted time, read off the load before it. */
  lemma OpenerNext(times: seq<real>, w: pos, now: real)
    ensures var more, load := times + [now], LoadAt(times, w, now);
            |more| - Opener(more, w) == load.n + 1 && BeforeThat(more, w) == load.p &&
            now - more[Opener(more, w)] == load.e
  {
    if times != [] {
      OpenerStep(times, w, now);
    }
  }

  lemma TracksNext(s: State, t: State, key: Key, times: seq<real>, w: pos, now: real)
    requires Tracks(s, key, times, w) && Continues(s, t, key, w, now)
    ensures Tracks(t, key, times + [now], w)
  {
    if times != [] {
      OpenerStep(times, w, now);
    }
  }

  lemma {:induction false} TracksRun(resolve: Resolver, reqs: seq<Request>, key: Key)
    ensures Tracks(After(Empty(), resolve, reqs), key, CountedTimes(resolve, reqs, key),
                   resolve(key.endpoint).windowSeconds)
  {
    if reqs != [] {
      var init, last := reqs[..|reqs| - 1], reqs[|reqs| - 1];
      var s, times := After(Empty(), resolve, init), CountedTimes(resolve, init, key);
      TracksRun(resolve, init, key);
      KeyStep(s, resolve, last, key);
      var (t, outcome) := CheckResult(s, resolve, last);
      if Touches(resolve(last.endpoint), last, key) && !outcome.Banned? {
        TracksNext(s, t, key, times, resolve(key.endpoint).windowSeconds, last.now);
      } else {
        assert times + [] == times;
      }
    }
  }

  // ----- Admission --------------------------------------------------------------------------

  /** The count compared with the limit, on the scale of the usage. */
  predicate Measures(cfg: Config, effective: real, load: Load) {
    effective * cfg.windowSeconds as real == Usage(cfg, load)
  }

  lemma CounterMeasures(t: State, cfg: Config, key: Key, load: Load, now: real)
    requires key in t.counters && WindowOf(t, key) == cfg.windowSeconds && load.e < cfg.windowSeconds as real
    requires t.counters[key] == Counter(load.n + 1, now - load.e) && PrevOf(t, key) == load.p
    ensures Measures(cfg, Effective(t, cfg, key, now), load)
  {
    WeightedUse(load.n + 1, load.p, load.e, cfg.windowSeconds);
  }

  /** In the counted state the count compared with the limit is what the request used up. */
  lemma TracksMeasures(s: State, t: State, cfg: Config, key: Key, times: seq<real>, now: real)
    requires Tracks(s, key, times, cfg.windowSeconds) && Continues(s, t, key, cfg.windowSeconds, now)
    ensures Measures(cfg, Effective(t, cfg, key, now), LoadAt(times, cfg.windowSeconds, now))
  {
    TracksNext(s, t, key, times, cfg.windowSeconds, now);
    OpenerNext(times, cfg.windowSeconds, now);
    CounterMeasures(t, cfg, key, LoadAt(times, cfg.windowSeconds, now), now);
  }

  lemma MeasuresAllowance(cfg: Config, effective: real, load: Load, n: int)
    requires Measures(cfg, effective, load)
    ensures effective < n as real <==> Usage(cfg, load) < Allowance(cfg, n)
    ensures effective <= n as real <==> Usage(cfg, load) <= Allowance(cfg, n)
  {
    var w := cfg.windowSeconds as real;
    assert Allowance(cfg, n) == n as real * w;
    Scale(effective, n as real, w);
  }

  /** An allowance of `left` more: the usage falls short of one request more than what is not left. */
  predicate Leaves(cfg: Config, load: Load, left: nat) {
    Usage(cfg, load) < Allowance(cfg, cfg.maxRequests - left + 1)
  }

  predicate LeavesNoMore(cfg: Config, load: Load, left: nat) {
    Allowance(cfg, cfg.maxRequests - left) <= Usage(cfg, load)
  }

  lemma MeasuresLeft(cfg: Config, effective: real, load: Load, left: nat)
    requires Measures(cfg, effective, load) && effective <= cfg.maxRequests as real
    ensures left <= Left(cfg.maxRequests, effective) <==> Leaves(cfg, load, left)
    ensures left >= Left(cfg.maxRequests, effective) <==> LeavesNoMore(cfg, load, left)
  {
    LeftIs(cfg.maxRequests, effective, left);
    MeasuresAllowance(cfg, effective, load, cfg.maxRequests - left + 1);
    MeasuresAllowance(cfg, effective, load, cfg.maxRequests - left);
  }

  lemma LeftIs(limit: nat, effective: real, left: nat)
    requires effective <= limit as real
    ensures left <= Left(limit, effective) <==> effective < (limit - left + 1) as real
    ensures left >= Left(limit, effective) <==> (limit - left) as real <= effective
  {
    var floor := effective.Floor;
    assert floor as real <= effective < (floor + 1) as real;
    assert floor <= limit && Left(limit, effective) == limit - floor;
  }

  lemma SomethingUsed(cfg: Config, load: Load)
    requires load.e < cfg.windowSeconds as real
    ensures LeavesNoMore(cfg, load, cfg.maxRequests)
  {
    assert load.p as real * (cfg.windowSeconds as real - load.e) >= 0.0;
    assert (load.n + 1) as real * cfg.windowSeconds as real >= 0.0;
  }

  /** The load on `key` that the request meets after the trace. */
  function LoadOn(resolve: Resolver, reqs: seq<Request>, req: Request, key: Key): Load {
    LoadAt(CountedTimes(resolve, reqs, key), resolve(req.endpoint).windowSeconds, req.now)
  }

  /** The state in which the check compares its counts with the limit. */
  function Weighed(resolve: Resolver, reqs: seq<Request>, req: Request): State {
    Counted(ForgetExpiredBan(After(Empty(), resolve, reqs), req.ip, req.now), resolve(req.endpoint), req)
  }

  function WeighedCount(resolve: Resolver, reqs: seq<Request>, req: Request, key: Key): real {
    Effective(Weighed(resolve, reqs, req), resolve(req.endpoint), key, req.now)
  }

  lemma CountedUsage(resolve: Resolver, reqs: seq<Request>, req: Request, key: Key)
    requires Touches(resolve(req.endpoint), req, key)
    ensures Measures(resolve(req.endpoint), WeighedCount(resolve, reqs, req, key), LoadOn(resolve, reqs, req, key))
  {
    var cfg, s := resolve(req.endpoint), After(Empty(), resolve, reqs);
    var f, times := ForgetExpiredBan(s, req.ip, req.now), CountedTimes(resolve, reqs, key);
    TracksRun(resolve, reqs, key);
    assert Tracks(s, key, times, cfg.windowSeconds);
    ForgettingSameKey(s, req.ip, req.now, key);
    CountedKey(f, cfg, req, key);
    TracksMeasures(f, Counted(f, cfg, req), cfg, key, times, req.now);
  }

  lemma KeyHasRoom(resolve: Resolver, reqs: seq<Request>, req: Request, key: Key)
    requires Touches(resolve(req.endpoint), req, key)
    ensures WeighedCount(resolve, reqs, req, key) <= resolve(req.endpoint).maxRequests as real <==>
            HasRoom(resolve(req.endpoint), LoadOn(resolve, reqs, req, key))
  {
    CountedUsage(resolve, reqs, req, key);
    MeasuresAllowance(resolve(req.endpoint), WeighedCount(resolve, reqs, req, key), LoadOn(resolve, reqs, req, key),
                      resolve(req.endpoint).maxRequests);
  }

  ghost predicate RoomOnEvery(resolve: Resolver, reqs: seq<Request>, req: Request) {
    forall key :: Touches(resolve(req.endpoint), req, key) ==>
                    HasRoom(resolve(req.endpoint), LoadOn(resolve, reqs, req, key))
  }

  lemma WithinIffRoom(resolve: Resolver, reqs: seq<Request>, req: Request)
    ensures WithinLimits(Weighed(resolve, reqs, req), resolve(req.endpoint), req) <==> RoomOnEvery(resolve, reqs, req)
  {
    var cfg := resolve(req.endpoint);
    forall key | Touches(cfg, req, key)
      ensures HasRoom(cfg, LoadOn(resolve, reqs, req, key)) <==>
              WeighedCount(resolve, reqs, req, key) <= cfg.maxRequests as real
    {
      KeyHasRoom(resolve, reqs, req, key);
    }
    assert Touches(cfg, req, IpKeyOf(req));
    assert UsesUser(cfg, req) ==> Touches(cfg, req, UserKeyOf(req));
    assert UsesApiKey(cfg, req) ==> Touches(cfg, req, ApiKeyOf(req));
  }

  /**
   A check that no ban stops is admitted if and only if there is room on every dimension in use.  With
   n requests counted before it in the current window, p in the previous one and e of W seconds
   elapsed, that is (n + 1) * W + p * (W - e) <= limit * W in sliding mode, and n + 1 <= limit in fixed
   mode.
   */
  lemma AdmittedIff(resolve: Resolver, reqs: seq<Request>, req: Request)
    ensures var outcome := CheckResult(After(Empty(), resolve, reqs), resolve, req).1;
            !outcome.Banned? ==> (outcome.Admitted? <==> RoomOnEvery(resolve, reqs, req))
  {
    var s := After(Empty(), resolve, reqs);
    if !CheckResult(s, resolve, req).1.Banned? {
      CheckIsJudged(s, resolve, req);
      WithinIffRoom(resolve, reqs, req);
    }
  }

  lemma KeyLeaves(resolve: Resolver, reqs: seq<Request>, req: Request, key: Key, left: nat)
    requires Touches(resolve(req.endpoint), req, key)
    requires WeighedCount(resolve, reqs, req, key) <= resolve(req.endpoint).maxRequests as real
    ensures var cfg, load := resolve(req.endpoint), LoadOn(resolve, reqs, req, key);
            var own := Left(cfg.maxRequests, WeighedCount(resolve, reqs, req, key));
            && (left <= own ==> Leaves(cfg, load, left))
            && (left >= own || left == cfg.maxRequests ==> LeavesNoMore(cfg, load, left))
  {
    CountedUsage(resolve, reqs, req, key);
    MeasuresLeft(resolve(req.endpoint), WeighedCount(resolve, reqs, req, key), LoadOn(resolve, reqs, req, key), left);
    SomethingUsed(resolve(req.endpoint), LoadOn(resolve, reqs, req, key));
  }

  /** The allowance an admitted check reports is what its scarcest dimension has left, in whole requests. */
  lemma RemainingIsLeft(resolve: Resolver, reqs: seq<Request>, req: Request)
    ensures var cfg, outcome := resolve(req.endpoint), CheckResult(After(Empty(), resolve, reqs), resolve, req).1;
            outcome.Admitted? ==>
              && (forall key :: Touches(cfg, req, key) ==>
                    Leaves(cfg, LoadOn(resolve, reqs, req, key), outcome.remaining))
              && (exists key :: Touches(cfg, req, key) &&
                    LeavesNoMore(cfg, LoadOn(resolve, reqs, req, key), outcome.remaining))
  {
    var cfg, outcome := resolve(req.endpoint), CheckResult(After(Empty(), resolve, reqs), resolve, req).1;
    if outcome.Admitted? {
      var t := Weighed(resolve, reqs, req);
      assert WithinLimits(t, cfg, req) && outcome.remaining == Remaining(t, cfg, req);
      forall key | Touches(cfg, req, key)
        ensures Leaves(cfg, LoadOn(resolve, reqs, req, key), outcome.remaining)
      {
        TouchedWithin(t, cfg, req, key);
        KeyLeaves(resolve, reqs, req, key, outcome.remaining);
      }
      var scarcest := Scarcest(t, cfg, req);
      TouchedWithin(t, cfg, req, scarcest);
      KeyLeaves(resolve, reqs, req, scarcest, outcome.remaining);
    }
  }

  lemma Scarcest(t: State, cfg: Config, req: Request) returns (key: Key)
    ensures Touches(cfg, req, key)
    ensures Left(cfg.maxRequests, Effective(t, cfg, key, req.now)) <= Remaining(t, cfg, req) ||
            Remaining(t, cfg, req) == cfg.maxRequests
  {
    var r := Remaining(t, cfg, req);
    if UsesUser(cfg, req) && Left(cfg.maxRequests, Effective(t, cfg, UserKeyOf(req), req.now)) == r {
      key := UserKeyOf(req);
    } else if UsesApiKey(cfg, req) && Left(cfg.maxRequests, Effective(t, cfg, ApiKeyOf(req), req.now)) == r {
      key := ApiKeyOf(req);
    } else {
      key := IpKeyOf(req);
    }
  }
}
