/**
 Which refresh tokens are accepted: every one that was handed out, is in time and was not used up, under
 any configuration; and no others where refresh tokens are single-use.
 */
module JwtAcceptance {
  import opened Prelude
  import opened JwtRotation
  import opened JwtRotationBounds

  /** Event `i`, a login or a rotation, handed `token` out as a refresh token. */
  predicate HandsOut(cfg: Config, run: seq<Event>, i: nat, token: Token)
    requires i < |run|
  {
    ResultAt(cfg, run, i).Pair? && ResultAt(cfg, run, i).refresh == token
  }

  ghost predicate UsedUp(cfg: Config, run: seq<Event>, token: Token) {
    exists i :: 0 <= i < |run| && Consumes(cfg, run, i, token)
  }

  lemma UsedUpLater(cfg: Config, run: seq<Event>, token: Token)
    requires run != [] && (UsedUp(cfg, run[..|run| - 1], token) || Consumes(cfg, run, |run| - 1, token))
    ensures UsedUp(cfg, run, token)
  {
    if UsedUp(cfg, run[..|run| - 1], token) {
      var init := run[..|run| - 1];
      var i :| 0 <= i < |init| && Consumes(cfg, init, i, token);
      assert init[..i] == run[..i];
      assert Consumes(cfg, run, i, token);
    }
  }

  // ----- Only used tokens are blocked -------------------------------------------------------

  predicate Marked(s: State, token: Token) {
    token.jti in s.blacklist || FamilyBlocked(s, token)
  }

  /** A step marks no other token than the one it uses up, or one that is marked already. */
  lemma StepMarks(s: State, cfg: Config, e: Event, token: Token)
    requires Numbered(s)
    requires var t := Step(s, cfg, e).0; token in t.issued && token.refresh && Marked(t, token)
    ensures token in s.issued
    ensures Marked(s, token) || UsesUp(s, cfg, e, token)
  {
    StepNumbered(s, cfg, e);
    var t := Step(s, cfg, e).0;
    assert token == t.issued[token.jti];
    match e.op
    case Login(_) =>
    case Rotate(u) => RotateMarks(s, cfg, u, e.now, token);
    case Revoke(u) =>
      if u in s.issued {
        assert u == s.issued[u.jti];
      }
    case IsBlacklisted(_) =>
    case Cleanup =>
  }

  predicate UsesUp(s: State, cfg: Config, e: Event, token: Token) {
    || (e.op == Rotate(token) && Step(s, cfg, e).1.Pair?)
    || (e.op == Revoke(token) && Step(s, cfg, e).1.Done?)
  }

  lemma RotateMarks(s: State, cfg: Config, u: Token, now: int, token: Token)
    requires Numbered(s)
    requires var t := RotateTokens(s, cfg, u, now).0;
             token in t.issued && token.refresh && token == t.issued[token.jti] && Marked(t, token) && Numbered(t)
    ensures token in s.issued
    ensures Marked(s, token) || UsesUp(s, cfg, Event(now, Rotate(u)), token)
  {
    if u in s.issued {
      assert u == s.issued[u.jti];
    }
    assert token.jti < |s.issued|;
    assert token == s.issued[token.jti];
  }

  lemma {:induction false} OnlyUsedMarked(cfg: Config, run: seq<Event>, token: Token)
    requires token in After(cfg, run).issued && token.refresh && Marked(After(cfg, run), token)
    ensures UsedUp(cfg, run, token)
  {
    if run != [] {
      var init, last := run[..|run| - 1], run[|run| - 1];
      RunNumbered(cfg, init);
      StepMarks(After(cfg, init), cfg, last, token);
      if Marked(After(cfg, init), token) {
        OnlyUsedMarked(cfg, init, token);
      }
      UsedUpLater(cfg, run, token);
    }
  }

  // ----- What is handed out -----------------------------------------------------------------

  lemma StepHandsOut(s: State, cfg: Config, e: Event, token: Token)
    ensures var (t, result) := Step(s, cfg, e);
            token in t.issued && token.refresh <==>
              (token in s.issued && token.refresh) || (result.Pair? && result.refresh == token)
  {
    var (t, result) := Step(s, cfg, e);
    if result.Pair? {
      assert t.issued == s.issued + [result.access, result.refresh];
    }
  }

  /** The refresh tokens that were issued are those that some event handed out. */
  lemma {:induction false} IssuedIffHandedOut(cfg: Config, run: seq<Event>, token: Token)
    ensures token in After(cfg, run).issued && token.refresh <==>
            exists i :: 0 <= i < |run| && HandsOut(cfg, run, i, token)
  {
    if run != [] {
      var init, last := run[..|run| - 1], |run| - 1;
      IssuedIffHandedOut(cfg, init, token);
      StepHandsOut(After(cfg, init), cfg, run[last], token);
      assert HandsOut(cfg, run, last, token) <==>
             var result := Step(After(cfg, init), cfg, run[last]).1; result.Pair? && result.refresh == token;
      forall i | 0 <= i < last ensures HandsOut(cfg, init, i, token) <==> HandsOut(cfg, run, i, token) {
        assert init[..i] == run[..i];
      }
    }
  }

  /** Its expiry, in whole seconds, is a refresh lifetime after it was handed out. */
  lemma HandedOutExpiry(cfg: Config, run: seq<Event>, i: nat, token: Token)
    requires i < |run| && HandsOut(cfg, run, i, token)
    ensures token.refresh && token.exp == run[i].now / cfg.resolution + 86400 * cfg.refreshTtlDays
  {}

  // ----- Acceptance -------------------------------------------------------------------------

  /**
   On every clock, with any leeway: a token that was handed out and not used up since rotates if and
   only if it is presented before the leeway after its lifetime is over.
   */
  lemma UnusedRotatesIff(cfg: Config, run: seq<Event>, i: nat, j: nat, token: Token)
    requires i < j < |run| && HandsOut(cfg, run, i, token) && run[j].op == Rotate(token)
    requires !UsedUp(cfg, run[..j], token)
    ensures ResultAt(cfg, run, j).Pair? <==>
            run[j].now < (run[i].now / cfg.resolution + 86400 * cfg.refreshTtlDays + cfg.leewaySeconds) * cfg.resolution
  {
    var before := run[..j];
    var s := After(cfg, before);
    assert before[..i] == run[..i] && HandsOut(cfg, before, i, token);
    IssuedIffHandedOut(cfg, before, token);
    HandedOutExpiry(cfg, run, i, token);
    if Marked(s, token) {
      OnlyUsedMarked(cfg, before, token);
    }
    ExpiredMeans(cfg, token, run[j].now);
  }

  /**
   In whole seconds without leeway that is all: a token rotates if and only if it was handed out within
   the refresh lifetime and not used up since.
   */
  lemma RotatesIff(cfg: Config, run: seq<Event>, j: nat, token: Token)
    requires Exact(cfg) && Ordered(run) && j < |run| && run[j].op == Rotate(token)
    ensures ResultAt(cfg, run, j).Pair? <==>
            && !UsedUp(cfg, run[..j], token)
            && exists i :: 0 <= i < j && HandsOut(cfg, run, i, token) &&
                 run[j].now < run[i].now + 86400 * cfg.refreshTtlDays
  {
    var before := run[..j];
    if UsedUp(cfg, before, token) {
      ExactIsSingleUse(cfg);
      var k :| 0 <= k < |before| && Consumes(cfg, before, k, token);
      assert before[..k] == run[..k];
      assert Consumes(cfg, run, k, token);
    } else {
      IssuedIffHandedOut(cfg, before, token);
      forall i | 0 <= i < j
        ensures HandsOut(cfg, before, i, token) <==> HandsOut(cfg, run, i, token)
        ensures HandsOut(cfg, run, i, token) ==>
                  (ResultAt(cfg, run, j).Pair? <==> run[j].now < run[i].now + 86400 * cfg.refreshTtlDays)
      {
        assert before[..i] == run[..i];
        if HandsOut(cfg, run, i, token) {
          UnusedRotatesIff(cfg, run, i, j, token);
        }
      }
    }
  }
}
