/**
 Brute-force lockout: failed logins (401) are counted per identifier with a time to live, and too
 many of them lock the identifier for a while.

 Requests are handled one after another; each has a clock reading when the lock is checked and
 one when its response is known.
 */
module BruteForce {
  import opened Prelude

  datatype Config = Config(maxAttempts: pos, lockoutSeconds: pos, attemptTtl: pos, progressiveDelay: bool)
  {
    /** The shorter of the two timers. */
    function Quiet(): pos { Min(lockoutSeconds, attemptTtl) }
  }

  datatype Attempt = Attempt(count: nat, at: real)

  datatype State = State(attempts: map<string, Attempt>, lockouts: map<string, real>)

  datatype Request = Request(identifier: Option<string>, checked: real, responded: real, status: nat)

  datatype Outcome = Locked | Answered(status: nat)

  // ----- Operations on values -------------------------------------------------------------

  predicate IsLockedAt(s: State, id: string, now: real) {
    id in s.lockouts && now < s.lockouts[id]
  }

  function ForgetExpiredLock(s: State, id: string, now: real): State {
    if id in s.lockouts && now >= s.lockouts[id] then s.(lockouts := s.lockouts - {id}) else s
  }

  predicate Stale(cfg: Config, a: Attempt, now: real) {
    now - a.at >= cfg.attemptTtl as real
  }

  function ForgetStaleAttempts(s: State, cfg: Config, id: string, now: real): State {
    if id in s.attempts && Stale(cfg, s.attempts[id], now) then s.(attempts := s.attempts - {id}) else s
  }

  /** The count after one more failure; an expired counter starts over. */
  function NextCount(s: State, cfg: Config, id: string, now: real): nat {
    if id in s.attempts && !Stale(cfg, s.attempts[id], now) then s.attempts[id].count + 1 else 1
  }

  function Fail(s: State, cfg: Config, id: string, now: real): State {
    var count := NextCount(s, cfg, id, now);
    var counted := s.(attempts := s.attempts[id := Attempt(count, now)]);
    if count >= cfg.maxAttempts then counted.(lockouts := s.lockouts[id := now + cfg.lockoutSeconds as real])
    else counted
  }

  function Reset(s: State, id: string): State {
    State(s.attempts - {id}, s.lockouts - {id})
  }

  function Admit(s: State, cfg: Config, id: string, now: real): State {
    var unlocked := ForgetExpiredLock(s, id, now);
    if cfg.progressiveDelay then ForgetStaleAttempts(unlocked, cfg, id, now) else unlocked
  }

  function Dispatch(s: State, cfg: Config, req: Request): (State, Outcome) {
    match req.identifier
    case None => (s, Answered(req.status))
    case Some(id) =>
      if IsLockedAt(s, id, req.checked) then (s, Locked)
      else
        var admitted := Admit(s, cfg, id, req.checked);
        if req.status == 401 then (Fail(admitted, cfg, id, req.responded), Answered(401))
        else if req.status < 300 then (Reset(admitted, id), Answered(req.status))
        else (admitted, Answered(req.status))
  }

  function Power2(n: nat): nat {
    if n == 0 then 1 else 2 * Power2(n - 1)
  }

  /** Seconds an admitted request waits: doubling with every live failure, at most 30. */
  function Delay(s: State, cfg: Config, req: Request): (seconds: nat)
    ensures seconds <= 30
  {
    if !cfg.progressiveDelay || req.identifier.None? then 0
    else
      var live := NextCount(s, cfg, req.identifier.value, req.checked) - 1;
      if live > 0 then Min(Power2(live - 1), 30) else 0
  }

  // ----- The backend and the middleware ---------------------------------------------------

  class InMemoryBruteForceBackend {
    const cfg: Config
    var attempts: map<string, Attempt>
    var lockouts: map<string, real>

    ghost function S(): State
      reads this
    {
      State(attempts, lockouts)
    }

    constructor (cfg: Config)
      ensures S() == State(map[], map[]) && this.cfg == cfg
    {
      this.cfg := cfg;
      attempts, lockouts := map[], map[];
    }

    method RecordAttempt(id: string, now: real) returns (count: nat)
      modifies this`attempts
      ensures count == NextCount(old(S()), cfg, id, now)
      ensures attempts == old(attempts)[id := Attempt(count, now)]
    {
      count := 0;
      if id in attempts {
        count := attempts[id].count;
        if now - attempts[id].at >= cfg.attemptTtl as real {
          count := 0;
        }
      }
      count := count + 1;
      attempts := attempts[id := Attempt(count, now)];
    }

    method IsLocked(id: string, now: real) returns (locked: bool)
      modifies this`lockouts
      ensures S() == ForgetExpiredLock(old(S()), id, now) && locked == IsLockedAt(old(S()), id, now)
    {
      if id !in lockouts {
        return false;
      }
      if now >= lockouts[id] {
        lockouts := lockouts - {id};
        return false;
      }
      return true;
    }

    method SetLockout(id: string, seconds: pos, now: real)
      modifies this`lockouts
      ensures lockouts == old(lockouts)[id := now + seconds as real]
    {
      lockouts := lockouts[id := now + seconds as real];
    }

    method ResetAttempts(id: string)
      modifies this
      ensures S() == Reset(old(S()), id)
    {
      attempts := attempts - {id};
      lockouts := lockouts - {id};
    }

    method GetAttempts(id: string, now: real) returns (count: nat)
      modifies this`attempts
      ensures S() == ForgetStaleAttempts(old(S()), cfg, id, now)
      ensures count == if id in attempts then attempts[id].count else 0
    {
      if id !in attempts {
        return 0;
      }
      if now - attempts[id].at >= cfg.attemptTtl as real {
        attempts := attempts - {id};
        return 0;
      }
      return attempts[id].count;
    }

    /** The middleware's decision; `status` is what the application answers, if it is asked. */
    method DispatchRequest(req: Request) returns (outcome: Outcome, delaySeconds: nat)
      modifies this
      ensures (S(), outcome) == Dispatch(old(S()), cfg, req)
      ensures delaySeconds == if outcome.Locked? then 0 else Delay(old(S()), cfg, req)
    {
      delaySeconds := 0;
      if req.identifier.None? {
        return Answered(req.status), 0;
      }
      var id := req.identifier.value;
      var locked := IsLocked(id, req.checked);
      if locked {
        return Locked, 0;
      }
      if cfg.progressiveDelay {
        var count := GetAttempts(id, req.checked);
        if count > 0 {
          delaySeconds := Min(Power2(count - 1), 30);
        }
      }
      outcome := Answered(req.status);
      if req.status == 401 {
        var count := RecordAttempt(id, req.responded);
        if count >= cfg.maxAttempts {
          SetLockout(id, cfg.lockoutSeconds, req.responded);
        }
      } else if req.status < 300 {
        ResetAttempts(id);
      }
    }
  }

  // ----- Runs -----------------------------------------------------------------------------

  function After(s: State, cfg: Config, reqs: seq<Request>): State {
    if reqs == [] then s else Dispatch(After(s, cfg, reqs[..|reqs| - 1]), cfg, reqs[|reqs| - 1]).0
  }

  function LastOutcome(s: State, cfg: Config, reqs: seq<Request>): Outcome
    requires reqs != []
  {
    Dispatch(After(s, cfg, reqs[..|reqs| - 1]), cfg, reqs[|reqs| - 1]).1
  }

  /** One request at a time, on a clock that never goes back. */
  ghost predicate Sequential(reqs: seq<Request>) {
    && (forall r :: r in reqs ==> r.checked <= r.responded)
    && (forall i, j :: 0 <= i < j < |reqs| ==> reqs[i].responded <= reqs[j].checked)
  }

  /** The last request was a 401 for `id` that got past the lock. */
  predicate LastFails(s: State, cfg: Config, reqs: seq<Request>, id: string)
    requires reqs != []
  {
    reqs[|reqs| - 1].identifier == Some(id) && LastOutcome(s, cfg, reqs) == Answered(401)
  }

  predicate LastSucceeds(s: State, cfg: Config, reqs: seq<Request>, id: string)
    requires reqs != []
  {
    && reqs[|reqs| - 1].identifier == Some(id)
    && LastOutcome(s, cfg, reqs).Answered? && LastOutcome(s, cfg, reqs).status < 300
  }

  function Failures(s: State, cfg: Config, reqs: seq<Request>, id: string): nat {
    if reqs == [] then 0
    else Failures(s, cfg, reqs[..|reqs| - 1], id) + if LastFails(s, cfg, reqs, id) then 1 else 0
  }

  function FailuresSinceSuccess(s: State, cfg: Config, reqs: seq<Request>, id: string): nat {
    if reqs == [] || LastSucceeds(s, cfg, reqs, id) then 0
    else FailuresSinceSuccess(s, cfg, reqs[..|reqs| - 1], id) + if LastFails(s, cfg, reqs, id) then 1 else 0
  }

  // ----- How many failures fit into a span ------------------------------------------------

  /**
   After a failure at `last`, with `burst` failures since the last long gap: what the two tables
   must still show at time `now`.
   */
  ghost predicate BurstShown(s: State, cfg: Config, id: string, burst: nat, last: real, now: real) {
    && (id in s.attempts ==> s.attempts[id].at == last && s.attempts[id].count >= burst)
    && (id !in s.attempts ==> now - last >= cfg.attemptTtl as real)
    && (id in s.attempts && s.attempts[id].count >= cfg.maxAttempts ==>
          (id in s.lockouts && s.lockouts[id] >= last + cfg.lockoutSeconds as real)
          || now >= last + cfg.lockoutSeconds as real)
  }

  /** `failures` failures so far: `gaps` long gaps and a current burst, the first failure at `first`. */
  ghost predicate Account(
      s: State, cfg: Config, id: string, failures: nat, gaps: nat, burst: nat, first: real, last: real, now: real)
  {
    && failures <= cfg.maxAttempts * gaps + burst && 1 <= burst <= cfg.maxAttempts
    && last <= now && last - first >= (gaps * cfg.Quiet()) as real
    && BurstShown(s, cfg, id, burst, last, now)
  }

  lemma OtherRequestShown(s: State, cfg: Config, req: Request, id: string, burst: nat, last: real, now: real)
    requires BurstShown(s, cfg, id, burst, last, now) && now <= req.checked <= req.responded
    requires req.identifier == Some(id) ==>
               IsLockedAt(s, id, req.checked) || (req.status != 401 && req.status >= 300)
    ensures BurstShown(Dispatch(s, cfg, req).0, cfg, id, burst, last, req.responded)
  {}

  /** Within a short gap the counter only goes up, and a full counter means the lock would have held. */
  lemma FailureShown(s: State, cfg: Config, req: Request, id: string, burst: nat, last: real, now: real)
    requires BurstShown(s, cfg, id, burst, last, now) && last <= now <= req.checked <= req.responded
    requires req.identifier == Some(id) && req.status == 401 && !IsLockedAt(s, id, req.checked)
    ensures var t := Dispatch(s, cfg, req).0;
            var short := req.responded - last < cfg.Quiet() as real;
            && BurstShown(t, cfg, id, if short then burst + 1 else 1, req.responded, req.responded)
            && (short ==> burst < cfg.maxAttempts)
  {}

  lemma FirstFailureShown(s: State, cfg: Config, req: Request, id: string)
    requires req.identifier == Some(id) && req.status == 401 && !IsLockedAt(s, id, req.checked)
    ensures BurstShown(Dispatch(s, cfg, req).0, cfg, id, 1, req.responded, req.responded)
  {}

  /** Books one more failure: a long gap starts a new burst, a short one extends the current burst. */
  lemma {:induction false} KeepAccount(s: State, cfg: Config, reqs: seq<Request>, id: string)
    returns (gaps: nat, burst: nat, first: real, last: real)
    requires Sequential(reqs) && Failures(s, cfg, reqs, id) > 0
    requires forall i :: 0 < i <= |reqs| ==> !LastSucceeds(s, cfg, reqs[..i], id)
    ensures Account(After(s, cfg, reqs), cfg, id, Failures(s, cfg, reqs, id), gaps, burst, first, last,
                    reqs[|reqs| - 1].responded)
    ensures reqs[0].responded <= first
  {
    var init, req := reqs[..|reqs| - 1], reqs[|reqs| - 1];
    var t := After(s, cfg, init);
    WithoutLast(s, cfg, reqs, id);
    if Failures(s, cfg, init, id) == 0 {
      gaps, burst, first, last := 0, 1, req.responded, req.responded;
      FirstFailureShown(t, cfg, req, id);
    } else {
      gaps, burst, first, last := KeepAccount(s, cfg, init, id);
      var now := init[|init| - 1].responded;
      if LastFails(s, cfg, reqs, id) {
        gaps, burst := BookFailure(t, cfg, req, id, Failures(s, cfg, init, id), gaps, burst, first, last, now);
        last := req.responded;
      } else {
        OtherRequestShown(t, cfg, req, id, burst, last, now);
      }
    }
  }

  lemma WithoutLast(s: State, cfg: Config, reqs: seq<Request>, id: string)
    requires Sequential(reqs) && reqs != []
    requires forall i :: 0 < i <= |reqs| ==> !LastSucceeds(s, cfg, reqs[..i], id)
    ensures var init, req := reqs[..|reqs| - 1], reqs[|reqs| - 1];
            && Sequential(init) && (forall i :: 0 < i <= |init| ==> !LastSucceeds(s, cfg, init[..i], id))
            && !LastSucceeds(s, cfg, reqs, id) && req.checked <= req.responded
            && (init != [] ==> init[|init| - 1].responded <= req.checked && init[0] == reqs[0])
  {
    var init, req := reqs[..|reqs| - 1], reqs[|reqs| - 1];
    assert reqs[..|reqs|] == reqs && req in reqs;
    assert forall i :: 0 < i <= |init| ==> init[..i] == reqs[..i];
    assert forall r :: r in init ==> r in reqs;
  }

  lemma BookFailure(s: State, cfg: Config, req: Request, id: string,
                    failures: nat, gaps: nat, burst: nat, first: real, last: real, now: real)
    returns (gaps': nat, burst': nat)
    requires Account(s, cfg, id, failures, gaps, burst, first, last, now) && now <= req.checked <= req.responded
    requires req.identifier == Some(id) && req.status == 401 && !IsLockedAt(s, id, req.checked)
    ensures Account(Dispatch(s, cfg, req).0, cfg, id, failures + 1, gaps', burst', first, req.responded, req.responded)
  {
    FailureShown(s, cfg, req, id, burst, last, now);
    if req.responded - last < cfg.Quiet() as real {
      gaps', burst' := gaps, burst + 1;
    } else {
      OneGapMore(cfg, gaps);
      gaps', burst' := gaps + 1, 1;
    }
  }

  lemma OneGapMore(cfg: Config, gaps: nat)
    ensures cfg.maxAttempts * (gaps + 1) == cfg.maxAttempts * gaps + cfg.maxAttempts
    ensures (gaps + 1) * cfg.Quiet() == gaps * cfg.Quiet() + cfg.Quiet()
  {}

  /** Whole multiples of `m` that fit into `t`. */
  lemma Fits(k: nat, m: pos, t: real)
    requires (k * m) as real <= t
    ensures k <= (t / m as real).Floor
  {
    var q := t / m as real;
    assert q * m as real == t;
    assert (k * m) as real == k as real * m as real;
    Scale(k as real, q, m as real);
  }

  /**
   In any span of `length` seconds without a success, from any state, an identifier gets at most
   maxAttempts failures past the lock per started period of the shorter timer.
   */
  lemma FailureBound(s: State, cfg: Config, reqs: seq<Request>, id: string, length: real)
    requires Sequential(reqs) && length >= 0.0
    requires reqs != [] ==> reqs[|reqs| - 1].responded - reqs[0].responded <= length
    requires forall i :: 0 < i <= |reqs| ==> !LastSucceeds(s, cfg, reqs[..i], id)
    ensures Failures(s, cfg, reqs, id) <= cfg.maxAttempts * (1 + (length / cfg.Quiet() as real).Floor)
  {
    var n := (length / cfg.Quiet() as real).Floor;
    if Failures(s, cfg, reqs, id) == 0 {
      Fits(0, cfg.Quiet(), length);
      Spread(cfg.maxAttempts, 0, n);
    } else {
      var gaps, burst, first, last := KeepAccount(s, cfg, reqs, id);
      Fits(gaps, cfg.Quiet(), length);
      Spread(cfg.maxAttempts, gaps, n);
    }
  }

  lemma Spread(a: pos, m: nat, n: nat)
    requires m <= n
    ensures 0 <= a * m + a <= a * (1 + n)
  {
    assert a * (n - m) >= 0;
  }

  // ----- Locks are earned, and honoured ----------------------------------------------------

  /** A counter never exceeds the failures since the last success, and a lock needs a full count. */
  lemma {:induction false} LockIsEarned(cfg: Config, reqs: seq<Request>, id: string)
    ensures var t := After(State(map[], map[]), cfg, reqs);
            var failures := FailuresSinceSuccess(State(map[], map[]), cfg, reqs, id);
            && (id in t.attempts ==> t.attempts[id].count <= failures)
            && (id in t.lockouts ==> failures >= cfg.maxAttempts)
  {
    if reqs != [] {
      LockIsEarned(cfg, reqs[..|reqs| - 1], id);
    }
  }

  /** Until it expires, a lock rejects every request of its identifier and is not moved. */
  lemma {:induction false} LockIsHonoured(s: State, cfg: Config, reqs: seq<Request>, id: string)
    requires id in s.lockouts && forall r :: r in reqs ==> r.checked < s.lockouts[id]
    ensures var t := After(s, cfg, reqs);
            && id in t.lockouts && t.lockouts[id] == s.lockouts[id]
            && (id in s.attempts <==> id in t.attempts)
            && (id in s.attempts ==> t.attempts[id] == s.attempts[id])
    ensures reqs != [] && reqs[|reqs| - 1].identifier == Some(id) ==> LastOutcome(s, cfg, reqs) == Locked
  {
    if reqs != [] {
      var init, last := reqs[..|reqs| - 1], reqs[|reqs| - 1];
      assert last in reqs && forall r :: r in init ==> r in reqs;
      LockIsHonoured(s, cfg, init, id);
    }
  }

  // ----- Exactly when a request is answered -------------------------------------------------

  const FRESH := State(map[], map[])

  /** When the failures of `id` since its last success were answered. */
  function FailureTimes(cfg: Config, reqs: seq<Request>, id: string): seq<real> {
    if reqs == [] || LastSucceeds(FRESH, cfg, reqs, id) then []
    else
      FailureTimes(cfg, reqs[..|reqs| - 1], id) +
      if LastFails(FRESH, cfg, reqs, id) then [reqs[|reqs| - 1].responded] else []
  }

  /** How many of the last failures came less than `ttl` seconds apart. */
  function Streak(times: seq<real>, ttl: pos): nat {
    if |times| <= 1 then |times|
    else if times[|times| - 1] - times[|times| - 2] >= ttl as real then 1
    else Streak(times[..|times| - 1], ttl) + 1
  }

  /** The last failure completed a streak of the allowed length. */
  predicate FullStreak(cfg: Config, times: seq<real>) {
    times != [] && Streak(times, cfg.attemptTtl) >= cfg.maxAttempts
  }

  function LastOf(times: seq<real>): real {
    if times == [] then 0.0 else times[|times| - 1]
  }

  /** What the two tables hold for an identifier with failures at `times`. */
  ghost predicate Tables(s: State, cfg: Config, id: string, times: seq<real>, now: real) {
    var last, lockout := LastOf(times), cfg.lockoutSeconds as real;
    && (times != [] ==> last <= now)
    && (if id in s.attempts then times != [] && s.attempts[id] == Attempt(Streak(times, cfg.attemptTtl), last)
        else times == [] || now - last >= cfg.attemptTtl as real)
    && (if id in s.lockouts then FullStreak(cfg, times) && s.lockouts[id] == last + lockout
        else !FullStreak(cfg, times) || now >= last + lockout)
  }

  lemma StreakNext(times: seq<real>, ttl: pos, now: real)
    requires times != []
    ensures Streak(times + [now], ttl) == if now - LastOf(times) >= ttl as real then 1 else Streak(times, ttl) + 1
  {
    assert (times + [now])[..|times|] == times;
  }

  lemma FailTables(s: State, cfg: Config, req: Request, id: string, times: seq<real>, now: real)
    requires Tables(s, cfg, id, times, now) && now <= req.checked <= req.responded
    requires req.identifier == Some(id) && req.status == 401 && !IsLockedAt(s, id, req.checked)
    ensures Tables(Dispatch(s, cfg, req).0, cfg, id, times + [req.responded], req.responded)
  {
    if times != [] {
      StreakNext(times, cfg.attemptTtl, req.responded);
    }
  }

  lemma SucceedTables(s: State, cfg: Config, req: Request, id: string)
    requires req.identifier == Some(id) && req.status < 300 && !IsLockedAt(s, id, req.checked)
    ensures Tables(Dispatch(s, cfg, req).0, cfg, id, [], req.responded)
  {}

  lemma OtherTables(s: State, cfg: Config, req: Request, id: string, times: seq<real>, now: real)
    requires Tables(s, cfg, id, times, now) && now <= req.checked <= req.responded
    requires req.identifier == Some(id) ==>
               IsLockedAt(s, id, req.checked) || (req.status != 401 && req.status >= 300)
    ensures Tables(Dispatch(s, cfg, req).0, cfg, id, times, req.responded)
  {}

  lemma TablesLater(s: State, cfg: Config, id: string, times: seq<real>, now: real, later: real)
    requires Tables(s, cfg, id, times, now) && now <= later
    ensures Tables(s, cfg, id, times, later)
  {}

  lemma {:induction false} RunTables(cfg: Config, reqs: seq<Request>, id: string, now: real)
    requires Sequential(reqs) && (reqs != [] ==> reqs[|reqs| - 1].responded <= now)
    ensures Tables(After(FRESH, cfg, reqs), cfg, id, FailureTimes(cfg, reqs, id), now)
  {
    if reqs != [] {
      var init, req := reqs[..|reqs| - 1], reqs[|reqs| - 1];
      var s, times := After(FRESH, cfg, init), FailureTimes(cfg, init, id);
      assert req in reqs && forall r :: r in init ==> r in reqs;
      RunTables(cfg, init, id, req.checked);
      if LastSucceeds(FRESH, cfg, reqs, id) {
        SucceedTables(s, cfg, req, id);
      } else if LastFails(FRESH, cfg, reqs, id) {
        FailTables(s, cfg, req, id, times, req.checked);
      } else {
        OtherTables(s, cfg, req, id, times, req.checked);
        assert times + [] == times;
      }
      TablesLater(After(FRESH, cfg, reqs), cfg, id, FailureTimes(cfg, reqs, id), req.responded, now);
    }
  }

  /**
   A request is turned away if and only if the failures of its identifier since the last success end in
   a streak of at least the allowed number, each less than the attempt ttl after the one before, and
   the lockout time since the last of them is not over.
   */
  lemma LockedIff(cfg: Config, reqs: seq<Request>, req: Request, id: string)
    requires Sequential(reqs + [req]) && req.identifier == Some(id)
    ensures var times := FailureTimes(cfg, reqs, id);
            Dispatch(After(FRESH, cfg, reqs), cfg, req).1 ==
            if FullStreak(cfg, times) && req.checked < LastOf(times) + cfg.lockoutSeconds as real then Locked
            else Answered(req.status)
  {
    SequentialInit(reqs, req);
    RunTables(cfg, reqs, id, req.checked);
  }

  lemma SequentialInit(reqs: seq<Request>, req: Request)
    requires Sequential(reqs + [req])
    ensures Sequential(reqs) && (reqs != [] ==> reqs[|reqs| - 1].responded <= req.checked)
  {
    var all := reqs + [req];
    assert forall i :: 0 <= i < |reqs| ==> all[i] == reqs[i];
    assert all[|reqs|] == req;
    assert forall r :: r in reqs ==> r in all;
  }

  /**
   With progressive delay a request that is answered first waits 1, 2, 4, 8, 16 seconds after 1 to 5
   failures in a streak that is still live, 30 after more, and not at all after none.
   */
  lemma DelayTable(cfg: Config, reqs: seq<Request>, req: Request, id: string)
    requires Sequential(reqs + [req]) && req.identifier == Some(id) && cfg.progressiveDelay
    ensures var times := FailureTimes(cfg, reqs, id);
            var live := if times != [] && req.checked - LastOf(times) < cfg.attemptTtl as real
                        then Streak(times, cfg.attemptTtl) else 0;
            Delay(After(FRESH, cfg, reqs), cfg, req) == if live <= 5 then [0, 1, 2, 4, 8, 16][live] else 30
  {
    SequentialInit(reqs, req);
    RunTables(cfg, reqs, id, req.checked);
    var live := NextCount(After(FRESH, cfg, reqs), cfg, id, req.checked) - 1;
    assert Power2(0) == 1 && Power2(1) == 2 && Power2(2) == 4 && Power2(3) == 8 && Power2(4) == 16;
    if live > 5 {
      PowerGrows(live - 1);
    }
  }

  lemma {:induction false} PowerGrows(n: nat)
    requires n >= 5
    ensures Power2(n) >= 32
  {
    if n > 5 {
      PowerGrows(n - 1);
    } else {
      assert Power2(4) == 16;
    }
  }
}
