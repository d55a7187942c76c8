/**
 Refresh-token rotation under any configuration, leeway and fine clocks included: what revoking a
 family reaches, and how often one token can rotate at most.
 */
module JwtRotationBounds {
  import opened Prelude
  import opened JwtRotation

  // ----- What revoking a family reaches -----------------------------------------------------

  lemma StepNumbered(s: State, cfg: Config, e: Event)
    requires Numbered(s)
    ensures Numbered(Step(s, cfg, e).0) && s.issued <= Step(s, cfg, e).0.issued
  {
    match e.op
    case Login(sub) => IssueNumbered(s, cfg, sub, s.logins, s.logins + 1, e.now);
    case Rotate(token) =>
      if RotateTokens(s, cfg, token, e.now).1.Pair? {
        var t := s.(blacklist := s.blacklist[token.jti := BlacklistUntil(cfg, token, e.now)]);
        IssueNumbered(t, cfg, token.sub, LoginOf(s, token), s.logins, e.now);
      }
    case Revoke(_) =>
    case IsBlacklisted(_) =>
    case Cleanup =>
  }

  lemma IssueNumbered(s: State, cfg: Config, sub: string, login: nat, logins: nat, now: int)
    requires Numbered(s) && s.logins <= logins && login < logins
    ensures Numbered(Issue(s, cfg, sub, login, now).(logins := logins))
  {
    var n, t := |s.issued|, Issue(s, cfg, sub, login, now).(logins := logins);
    assert t.issued[n] == NewAccess(s, cfg, sub, now) && t.issued[n + 1] == NewRefresh(s, cfg, sub, now);
  }

  lemma {:induction false} RunNumbered(cfg: Config, run: seq<Event>)
    ensures Numbered(After(cfg, run))
  {
    if run != [] {
      RunNumbered(cfg, run[..|run| - 1]);
      StepNumbered(After(cfg, run[..|run| - 1]), cfg, run[|run| - 1]);
    }
  }

  /**
   Each rotation starts a new family, so whatever presenting a token does, revoking its family
   included, every other token, descendants included, stays exactly as usable as before.
   */
  lemma ReuseRevokesOnlyItself(cfg: Config, run: seq<Event>, token: Token, now: int, later: int)
    ensures var s := After(cfg, run);
            var t := RotateTokens(s, cfg, token, now).0;
            forall u :: u in s.issued && u != token ==> (Usable(t, cfg, u, later) <==> Usable(s, cfg, u, later))
  {
    var s := After(cfg, run);
    RunNumbered(cfg, run);
    var t := RotateTokens(s, cfg, token, now).0;
    forall u | u in s.issued && u != token ensures Usable(t, cfg, u, later) <==> Usable(s, cfg, u, later) {
      OthersUntouched(s, cfg, token, now, u);
    }
  }

  lemma OthersUntouched(s: State, cfg: Config, token: Token, now: int, u: Token)
    requires Numbered(s) && u in s.issued && u != token
    ensures var t := RotateTokens(s, cfg, token, now).0;
            && u in t.issued
            && (u.jti in t.blacklist <==> u.jti in s.blacklist)
            && (u.jti in s.blacklist ==> t.blacklist[u.jti] == s.blacklist[u.jti])
            && (u.refresh ==> (FamilyBlocked(t, u) <==> FamilyBlocked(s, u)))
  {
    assert u == s.issued[u.jti];
    if token in s.issued {
      assert token == s.issued[token.jti];
    }
  }

  lemma StepKeepsFamilies(s: State, cfg: Config, e: Event)
    ensures s.families <= Step(s, cfg, e).0.families
  {}

  lemma {:induction false} FamiliesStay(cfg: Config, run: seq<Event>, i: nat, j: nat)
    requires i <= j <= |run|
    ensures After(cfg, run[..i]).families <= After(cfg, run[..j]).families
  {
    if i < j {
      FamiliesStay(cfg, run, i, j - 1);
      AfterNext(cfg, run, j - 1);
      StepKeepsFamilies(After(cfg, run[..j - 1]), cfg, run[j - 1]);
    }
  }

  /** Once a token of a family is refused as revoked, no token of that family ever rotates again. */
  lemma FamilyStaysRevoked(cfg: Config, run: seq<Event>, i: nat, j: nat, token: Token, other: Token)
    requires i < j < |run| && run[i].op == Rotate(token) && ResultAt(cfg, run, i).TokenRevoked?
    requires run[j].op == Rotate(other) && other.sub == token.sub && other.family == token.family
    ensures !ResultAt(cfg, run, j).Pair?
  {
    AfterNext(cfg, run, i);
    FamiliesStay(cfg, run, i + 1, j);
  }

  // ----- How often one token rotates --------------------------------------------------------

  /** Successful rotations of `token` in the run. */
  function Rotations(cfg: Config, run: seq<Event>, token: Token): nat {
    if run == [] then 0
    else
      var last := |run| - 1;
      var before := Rotations(cfg, run[..last], token);
      if run[last].op == Rotate(token) && ResultAt(cfg, run, last).Pair? then before + 1 else before
  }

  function MostRotations(cfg: Config): pos {
    cfg.leewaySeconds + if cfg.resolution == 1 then 1 else 2
  }

  /** The first tick at which a token that rotated `n` times can do so once more. */
  function NextFrom(cfg: Config, token: Token, n: pos): int {
    (token.exp + n - 2) * cfg.resolution + 1
  }

  lemma NextFromNext(cfg: Config, token: Token, n: pos)
    ensures NextFrom(cfg, token, n + 1) == NextFrom(cfg, token, n) + cfg.resolution
  {
    assert (token.exp + n - 1) * cfg.resolution == (token.exp + n - 2) * cfg.resolution + cfg.resolution;
  }

  /** A blacklist record lasts a second, and into the token's last second. */
  lemma BlockedAtLeast(cfg: Config, token: Token, now: int)
    ensures BlacklistUntil(cfg, token, now) >= now + cfg.resolution
    ensures BlacklistUntil(cfg, token, now) >= NextFrom(cfg, token, 1)
  {
    var r, left := cfg.resolution, token.exp * cfg.resolution - now;
    var whole := left / r;
    assert whole * r == left - left % r;
    ProductMonotone(whole, RemainingTtl(cfg, token, now), r);
    ProductMonotone(1, RemainingTtl(cfg, token, now), r);
    assert (token.exp - 1) * r == token.exp * r - r;
  }

  lemma ProductMonotone(a: int, b: int, r: pos)
    requires a <= b
    ensures a * r <= b * r
  {
    assert (b - a) * r >= 0;
  }

  /** What `n` rotations of `token` leave behind: it is blocked, or the earliest next time is past. */
  ghost predicate Spent(s: State, cfg: Config, token: Token, n: nat, now: int) {
    && (n >= 1 ==> now >= NextFrom(cfg, token, n) || HeldUntil(s, token, NextFrom(cfg, token, n)))
    && (n >= 2 ==> NextFrom(cfg, token, n - 1) <= now && !ExpiredAt(cfg, token, NextFrom(cfg, token, n - 1)))
  }

  ghost predicate HeldUntil(s: State, token: Token, time: int) {
    token.jti in s.blacklist && s.blacklist[token.jti] >= time
  }

  ghost predicate Rotated(s: State, cfg: Config, e: Event, token: Token) {
    e.op == Rotate(token) && Step(s, cfg, e).1.Pair?
  }

  lemma SpentOnRotation(s: State, cfg: Config, e: Event, token: Token, n: nat, now: int)
    requires Spent(s, cfg, token, n, now) && now <= e.now && Rotated(s, cfg, e, token)
    ensures Spent(Step(s, cfg, e).0, cfg, token, n + 1, e.now)
  {
    BlockedAtLeast(cfg, token, e.now);
    if n >= 1 {
      NextFromNext(cfg, token, n);
    }
  }

  lemma SpentOnRevocation(s: State, cfg: Config, e: Event, token: Token, n: nat, now: int)
    requires Spent(s, cfg, token, n, now) && now <= e.now && e.op == Revoke(token) && Step(s, cfg, e).1.Done?
    ensures Spent(Step(s, cfg, e).0, cfg, token, n, e.now)
  {
    BlockedAtLeast(cfg, token, e.now);
    if n >= 2 {
      NextFromNext(cfg, token, n - 1);
    }
  }

  /** Every other event leaves the token's record alone, unless it has run out. */
  lemma RecordElsewhere(s: State, cfg: Config, e: Event, token: Token)
    requires Numbered(s) && token in s.issued && !Rotated(s, cfg, e, token)
    requires !(e.op == Revoke(token) && Step(s, cfg, e).1.Done?)
    ensures var t := Step(s, cfg, e).0;
            token.jti in s.blacklist ==>
              if token.jti in t.blacklist then t.blacklist[token.jti] == s.blacklist[token.jti]
              else s.blacklist[token.jti] <= e.now
  {
    assert token == s.issued[token.jti];
    match e.op
    case Login(_) =>
    case Rotate(u) =>
      if u in s.issued {
        assert u == s.issued[u.jti];
      }
    case Revoke(u) =>
      if u in s.issued {
        assert u == s.issued[u.jti];
      }
    case IsBlacklisted(_) =>
    case Cleanup =>
  }

  lemma SpentStep(s: State, cfg: Config, e: Event, token: Token, n: nat, now: int)
    requires Numbered(s) && (n >= 1 ==> token in s.issued) && Spent(s, cfg, token, n, now) && now <= e.now
    ensures var m := if Rotated(s, cfg, e, token) then n + 1 else n;
            Spent(Step(s, cfg, e).0, cfg, token, m, e.now) && (m >= 1 ==> token in s.issued)
  {
    if Rotated(s, cfg, e, token) {
      SpentOnRotation(s, cfg, e, token, n, now);
    } else if e.op == Revoke(token) && Step(s, cfg, e).1.Done? {
      SpentOnRevocation(s, cfg, e, token, n, now);
    } else if n >= 1 {
      RecordElsewhere(s, cfg, e, token);
    }
  }

  lemma {:induction false} SpentRun(cfg: Config, run: seq<Event>, token: Token)
    requires Ordered(run) && run != []
    ensures Spent(After(cfg, run), cfg, token, Rotations(cfg, run, token), run[|run| - 1].now)
    ensures Rotations(cfg, run, token) >= 1 ==> token in After(cfg, run).issued
  {
    var init, last := run[..|run| - 1], run[|run| - 1];
    var s := After(cfg, init);
    RunNumbered(cfg, init);
    if init != [] {
      SpentRun(cfg, init, token);
      assert init[|init| - 1].now <= last.now;
      SpentStep(s, cfg, last, token, Rotations(cfg, init, token), init[|init| - 1].now);
    } else {
      SpentStep(s, cfg, last, token, 0, last.now);
    }
    StepNumbered(s, cfg, last);
  }

  /**
   In every run, on every clock and with any leeway, a token rotates at most leewaySeconds + 1 times
   on a whole-second clock, and at most once more on a finer one.
   */
  lemma RotationsBound(cfg: Config, run: seq<Event>, token: Token)
    requires Ordered(run)
    ensures Rotations(cfg, run, token) <= MostRotations(cfg)
  {
    if run != [] {
      SpentRun(cfg, run, token);
      var n := Rotations(cfg, run, token);
      if n >= 2 {
        InTime(cfg, token, n);
      }
    }
  }

  lemma InTime(cfg: Config, token: Token, n: pos)
    requires n >= 2
    ensures !ExpiredAt(cfg, token, NextFrom(cfg, token, n - 1)) <==> n <= MostRotations(cfg)
  {
    var r, over := cfg.resolution, n - 3 - cfg.leewaySeconds;
    ExpiredMeans(cfg, token, NextFrom(cfg, token, n - 1));
    assert (token.exp + n - 3) * r == (token.exp + cfg.leewaySeconds) * r + over * r;
    if over >= 0 {
      ProductMonotone(0, over, r);
    } else {
      ProductMonotone(over, -1, r);
      if over <= -2 {
        ProductMonotone(over, -2, r);
      }
    }
  }

  // ----- The bound is reached --------------------------------------------------------------

  /** Rotates the first token `n` times, each time at the earliest moment. */
  function GreedyRun(cfg: Config, sub: string, n: nat): seq<Event> {
    if n == 0 then [Event(0, Login(sub))]
    else GreedyRun(cfg, sub, n - 1) + [Event(GreedyTime(cfg, sub, n), Rotate(FirstToken(cfg, sub)))]
  }

  function GreedyTime(cfg: Config, sub: string, n: nat): int {
    if n == 0 then 0
    else if n == 1 then if cfg.resolution == 1 then 0 else 1
    else NextFrom(cfg, FirstToken(cfg, sub), n - 1)
  }

  /** Rotated at the earliest moment, a token is blocked until exactly the next one. */
  lemma GreedyBlocks(cfg: Config, sub: string, n: pos)
    ensures BlacklistUntil(cfg, FirstToken(cfg, sub), GreedyTime(cfg, sub, n)) == NextFrom(cfg, FirstToken(cfg, sub), n)
  {
    var token, r, ttl := FirstToken(cfg, sub), cfg.resolution, cfg.RefreshTtl();
    if n > 1 {
      LastSeconds(cfg, token, n - 1);
    } else if r == 1 {
      assert (ttl * 1 - 0) / 1 == ttl;
    } else {
      OneTickLess(ttl, r);
    }
  }

  /** A rotation this late blocks the token for one second. */
  lemma LastSeconds(cfg: Config, token: Token, n: pos)
    ensures BlacklistUntil(cfg, token, NextFrom(cfg, token, n)) == NextFrom(cfg, token, n + 1)
  {
    var r := cfg.resolution;
    NextFromNext(cfg, token, n);
    assert (token.exp + n - 2) * r == token.exp * r + (n - 2) * r;
    ProductMonotone(-1, n - 2, r);
    NoWholeSecond(token.exp * r - NextFrom(cfg, token, n), r);
  }

  lemma NoWholeSecond(left: int, r: pos)
    requires left < r
    ensures left / r <= 0
  {
    assert (left / r) * r == left - left % r;
    if left / r >= 1 {
      ProductMonotone(1, left / r, r);
    }
  }

  lemma GreedyInOrder(cfg: Config, sub: string, n: pos)
    ensures GreedyTime(cfg, sub, n - 1) <= GreedyTime(cfg, sub, n)
  {
    var token, r := FirstToken(cfg, sub), cfg.resolution;
    if n == 2 {
      ProductMonotone(1, token.exp - 1, r);
    } else if n > 2 {
      NextFromNext(cfg, token, n - 2);
    }
  }

  lemma GreedyAccepted(cfg: Config, sub: string, n: pos)
    requires n <= MostRotations(cfg)
    ensures !ExpiredAt(cfg, FirstToken(cfg, sub), GreedyTime(cfg, sub, n))
  {
    var token, r := FirstToken(cfg, sub), cfg.resolution;
    if n >= 2 {
      InTime(cfg, token, n);
    } else {
      ExpiredMeans(cfg, token, GreedyTime(cfg, sub, 1));
      ProductMonotone(2, token.exp + cfg.leewaySeconds, r);
    }
  }

  /** The state in which the greedy run has rotated its token `n` times. */
  ghost predicate RotatedTimes(s: State, cfg: Config, token: Token, n: nat) {
    && token in s.issued && s.families == {}
    && s.blacklist == if n == 0 then map[] else map[token.jti := NextFrom(cfg, token, n)]
  }

  lemma {:induction false} GreedyReaches(cfg: Config, sub: string, n: nat)
    requires n <= MostRotations(cfg)
    ensures RotatedTimes(After(cfg, GreedyRun(cfg, sub, n)), cfg, FirstToken(cfg, sub), n)
    ensures Rotations(cfg, GreedyRun(cfg, sub, n), FirstToken(cfg, sub)) == n
  {
    if n == 0 {
      GreedyStarts(cfg, sub);
    } else {
      GreedyReaches(cfg, sub, n - 1);
      GreedyStep(cfg, After(cfg, GreedyRun(cfg, sub, n - 1)), sub, n);
      GreedyExtends(cfg, sub, n);
    }
  }

  lemma GreedyStep(cfg: Config, s: State, sub: string, n: pos)
    requires n <= MostRotations(cfg) && RotatedTimes(s, cfg, FirstToken(cfg, sub), n - 1)
    ensures var (t, result) := RotateTokens(s, cfg, FirstToken(cfg, sub), GreedyTime(cfg, sub, n));
            result.Pair? && RotatedTimes(t, cfg, FirstToken(cfg, sub), n)
  {
    GreedyAccepted(cfg, sub, n);
    GreedyBlocks(cfg, sub, n);
    GreedyOnce(cfg, s, FirstToken(cfg, sub), n, GreedyTime(cfg, sub, n));
  }

  lemma {:induction false} GreedyExtends(cfg: Config, sub: string, n: pos)
    ensures var run, init, token := GreedyRun(cfg, sub, n), GreedyRun(cfg, sub, n - 1), FirstToken(cfg, sub);
            var (t, result) := RotateTokens(After(cfg, init), cfg, token, GreedyTime(cfg, sub, n));
            && After(cfg, run) == t
            && Rotations(cfg, run, token) == Rotations(cfg, init, token) + if result.Pair? then 1 else 0
  {
    var run := GreedyRun(cfg, sub, n);
    assert run[..|run| - 1] == GreedyRun(cfg, sub, n - 1);
  }

  lemma GreedyStarts(cfg: Config, sub: string)
    ensures var run := GreedyRun(cfg, sub, 0);
            && RotatedTimes(After(cfg, run), cfg, FirstToken(cfg, sub), 0)
            && Rotations(cfg, run, FirstToken(cfg, sub)) == 0
  {
    var run := GreedyRun(cfg, sub, 0);
    assert run[..0] == [];
    assert After(cfg, run) == Issue(Start(), cfg, sub, 0, 0).(logins := 1);
    assert After(cfg, run).issued[1] == FirstToken(cfg, sub);
  }

  lemma {:induction false} GreedyOrdered(cfg: Config, sub: string, n: nat)
    ensures var run := GreedyRun(cfg, sub, n); |run| == n + 1 && run[n].now == GreedyTime(cfg, sub, n) && Ordered(run)
  {
    if n > 0 {
      GreedyOrdered(cfg, sub, n - 1);
      GreedyInOrder(cfg, sub, n);
    }
  }

  lemma GreedyOnce(cfg: Config, s: State, token: Token, n: pos, now: int)
    requires RotatedTimes(s, cfg, token, n - 1) && token.refresh && !ExpiredAt(cfg, token, now)
    requires n > 1 ==> now == NextFrom(cfg, token, n - 1)
    requires BlacklistUntil(cfg, token, now) == NextFrom(cfg, token, n)
    ensures RotateTokens(s, cfg, token, now).1.Pair? && RotatedTimes(RotateTokens(s, cfg, token, now).0, cfg, token, n)
  {}

  /** Some run rotates one token exactly that often. */
  lemma RotationsReached(cfg: Config) returns (run: seq<Event>, token: Token)
    ensures Ordered(run) && Rotations(cfg, run, token) == MostRotations(cfg)
  {
    run, token := GreedyRun(cfg, "user", MostRotations(cfg)), FirstToken(cfg, "user");
    GreedyReaches(cfg, "user", MostRotations(cfg));
    GreedyOrdered(cfg, "user", MostRotations(cfg));
  }
}
