/**
 How long a session lasts, read off the run: it is found as long as its last creation or refresh is
 younger than its lifetime and its last creation or touch is no older than the idle timeout.
 */
module SessionLifetimes {
  import opened Prelude
  import opened Sessions

  /** When `id` was last touched in the run; `created` if it was not. */
  function LastTouch(run: seq<Event>, id: nat, created: int): int {
    if run == [] then created
    else if run[|run| - 1].op == Touch(id) then run[|run| - 1].now
    else LastTouch(run[..|run| - 1], id, created)
  }

  /** When `id` was last refreshed in the run; `created` if it was not. */
  function LastRefresh(run: seq<Event>, id: nat, created: int): int {
    if run == [] then created
    else if run[|run| - 1].op == Refresh(id) then run[|run| - 1].now
    else LastRefresh(run[..|run| - 1], id, created)
  }

  /** No longer than the idle timeout has passed since `active`; without a timeout it never has. */
  predicate InTouch(cfg: Config, active: int, now: int) {
    cfg.idleTimeout.Some? && cfg.idleTimeout.value > 0 ==> now - active <= cfg.idleTimeout.value
  }

  /** The lifetime that began at `renewed` is not over. */
  predicate InTime(cfg: Config, renewed: int, now: int) {
    now < renewed + cfg.ttl
  }

  /** A lookup finds the session. */
  predicate FoundAt(cfg: Config, st: Store, id: nat, now: int) {
    AnswerTo(st, cfg, Get(id), now).record.Some?
  }

  /**
   The next operation neither revokes the session nor evicts it; a touch comes while it is not idle, a
   refresh before it has expired.
   */
  ghost predicate Spares(cfg: Config, st: Store, id: nat, active: int, renewed: int, e: Event) {
    match e.op
    case Touch(other) => other == id ==> InTouch(cfg, active, e.now)
    case Refresh(other) => other == id ==> InTime(cfg, renewed, e.now)
    case Revoke(other, works) => other == id ==> !works
    case Create(_, _) => FoundAt(cfg, st, id, e.now) ==> FoundAt(cfg, Step(st, cfg, e.op, e.now), id, e.now)
    case _ => true
  }

  ghost predicate Spared(cfg: Config, st: Store, run: seq<Event>, id: nat, created: int) {
    run == [] ||
    (var init := run[..|run| - 1];
     && Spared(cfg, st, init, id, created)
     && Spares(cfg, After(cfg, st, init), id, LastTouch(init, id, created), LastRefresh(init, id, created),
               run[|run| - 1]))
  }

  // ----- What is stored of the session ------------------------------------------------------

  ghost predicate Stored(cfg: Config, st: Store, id: nat, user: string, active: int, renewed: int) {
    && WellFormed(st) && id < st.next
    && forall r :: r in st.records && r.id == id ==> Shows(cfg, r, user, active, renewed)
  }

  predicate Shows(cfg: Config, r: Record, user: string, active: int, renewed: int) {
    && r.user == user && r.expires == Some(renewed + cfg.ttl)
    && active == if r.lastActivity.Some? then r.lastActivity.value else r.created
  }

  lemma ShownStale(cfg: Config, r: Record, user: string, active: int, renewed: int, now: int)
    requires Shows(cfg, r, user, active, renewed)
    ensures Idle(cfg, r, now) <==> !InTouch(cfg, active, now)
    ensures Expired(r, now) <==> !InTime(cfg, renewed, now)
  {}

  lemma FoundMeans(cfg: Config, st: Store, id: nat, user: string, active: int, renewed: int, now: int)
    requires Stored(cfg, st, id, user, active, renewed)
    ensures FoundAt(cfg, st, id, now) <==>
            HasId(st.records, id) && InTouch(cfg, active, now) && InTime(cfg, renewed, now)
  {
    FindMember(st.records, id);
    if HasId(st.records, id) {
      var r :| r in st.records && r.id == id;
      FindOnly(st.records, r);
      ShownStale(cfg, r, user, active, renewed, now);
    }
  }

  // ----- One operation ----------------------------------------------------------------------

  lemma CreateStored(cfg: Config, st: Store, owner: string, jti: string, now: int)
    ensures var t := Step(st, cfg, Create(owner, jti), now);
            forall r :: r in t.records ==> r in st.records || r.id == st.next
  {
    var pruned := Keep(st.records, NotStaleOf(cfg, owner, now));
    KeepMembers(st.records, NotStaleOf(cfg, owner, now));
    var mine := Keep(pruned, OfUser(owner));
    if mine != [] {
      KeepMembers(pruned, NotId(mine[OldestIndex(mine)].id));
    }
  }

  lemma UpdateStored(
      cfg: Config, st: Store, id: nat, user: string, active: int, renewed: int, changed: nat, f: Record -> Record,
      active': int, renewed': int)
    requires Stored(cfg, st, id, user, active, renewed)
    requires if changed == id
             then forall r :: r in st.records && r.id == id ==> Shows(cfg, f(r), user, active', renewed')
             else active' == active && renewed' == renewed
    requires forall r :: f(r).id == r.id
    ensures Stored(cfg, st.(records := MapId(st.records, changed, f)), id, user, active', renewed')
  {
    MapWellFormed(st, changed, f);
    MapMembers(st.records, changed, f);
  }

  lemma DroppedStored(cfg: Config, st: Store, id: nat, user: string, active: int, renewed: int, p: Record -> bool)
    requires Stored(cfg, st, id, user, active, renewed)
    ensures Stored(cfg, st.(records := Keep(st.records, p)), id, user, active, renewed)
  {
    KeepWellFormed(st, p);
    KeepMembers(st.records, p);
  }

  lemma StepStored(
      cfg: Config, st: Store, id: nat, user: string, active: int, renewed: int, e: Event, active': int, renewed': int)
    requires Stored(cfg, st, id, user, active, renewed) && Spares(cfg, st, id, active, renewed, e)
    requires active' == (if e.op == Touch(id) then e.now else active)
    requires renewed' == (if e.op == Refresh(id) then e.now else renewed)
    ensures Stored(cfg, Step(st, cfg, e.op, e.now), id, user, active', renewed')
  {
    var now := e.now;
    match e.op
    case Create(owner, jti) =>
      StepWellFormed(cfg, st, e.op, now);
      CreateStored(cfg, st, owner, jti, now);
    case Get(other) => DroppedStored(cfg, st, id, user, active, renewed, NotStaleId(cfg, other, now));
    case List(owner) => DroppedStored(cfg, st, id, user, active, renewed, NotStaleOf(cfg, owner, now));
    case Count(owner) => DroppedStored(cfg, st, id, user, active, renewed, NotStaleOf(cfg, owner, now));
    case Revoke(other, works) =>
      var looked := st.(records := Keep(st.records, NotStaleId(cfg, other, now)));
      DroppedStored(cfg, st, id, user, active, renewed, NotStaleId(cfg, other, now));
      DroppedStored(cfg, looked, id, user, active, renewed, NotId(other));
    case Refresh(other) =>
      UpdateStored(cfg, st, id, user, active, renewed, other, RefreshRecord(cfg, now), active', renewed');
    case Touch(other) =>
      forall r | r in st.records && r.id == id && other == id
        ensures Shows(cfg, TouchRecord(cfg, now)(r), user, active', renewed')
      {
        ShownStale(cfg, r, user, active, renewed, now);
      }
      UpdateStored(cfg, st, id, user, active, renewed, other, TouchRecord(cfg, now), active', renewed');
    case Cleanup => DroppedStored(cfg, st, id, user, active, renewed, SweepAt(cfg, now));
  }

  lemma FoundStored(cfg: Config, st: Store, id: nat, now: int) returns (r: Record)
    requires FoundAt(cfg, st, id, now)
    ensures r in st.records && r.id == id && !Stale(cfg, r, now)
  {
    FindMember(st.records, id);
    r := FindId(st.records, id).value;
  }

  /** Who is found is still stored after an operation that spares the session. */
  lemma StaysStored(cfg: Config, st: Store, id: nat, active: int, renewed: int, e: Event)
    requires Spares(cfg, st, id, active, renewed, e) && FoundAt(cfg, st, id, e.now)
    ensures HasId(Step(st, cfg, e.op, e.now).records, id)
  {
    var r := FoundStored(cfg, st, id, e.now);
    var s, now := st.records, e.now;
    match e.op
    case Create(_, _) => var kept := FoundStored(cfg, Step(st, cfg, e.op, now), id, now);
    case Get(other) => KeepMembers(s, NotStaleId(cfg, other, now));
    case List(owner) => KeepMembers(s, NotStaleOf(cfg, owner, now));
    case Count(owner) => KeepMembers(s, NotStaleOf(cfg, owner, now));
    case Revoke(other, works) =>
      KeepMembers(s, NotStaleId(cfg, other, now));
      KeepMembers(Keep(s, NotStaleId(cfg, other, now)), NotId(other));
    case Refresh(other) => MapHas(s, other, RefreshRecord(cfg, now), r);
    case Touch(other) => MapHas(s, other, TouchRecord(cfg, now), r);
    case Cleanup => KeepMembers(s, SweepAt(cfg, now));
  }

  lemma MapHas(s: seq<Record>, id: nat, f: Record -> Record, r: Record)
    requires r in s && forall q :: f(q).id == q.id
    ensures HasId(MapId(s, id, f), r.id)
  {
    MapMembers(s, id, f);
    var q := if r.id == id then f(r) else r;
    assert q in MapId(s, id, f);
  }

  // ----- A whole run ------------------------------------------------------------------------

  /** The store right after the session was created. */
  function Begun(cfg: Config, st: Store, user: string, jti: string, at: int): Store {
    Step(st, cfg, Create(user, jti), at)
  }

  lemma BegunStored(cfg: Config, st: Store, user: string, jti: string, at: int)
    requires WellFormed(st)
    ensures var s := Begun(cfg, st, user, jti, at);
            Stored(cfg, s, st.next, user, at, at) && HasId(s.records, st.next)
  {
    var s := Begun(cfg, st, user, jti, at);
    StepWellFormed(cfg, st, Create(user, jti), at);
    CreateStored(cfg, st, user, jti, at);
    var added := Fresh(cfg, st, user, jti, at);
    assert s.records[|s.records| - 1] == added && added in s.records;
    assert Shows(cfg, added, user, at, at);
  }

  ghost predicate WithinRun(run: seq<Event>, start: int, now: int) {
    Ordered(run) && start <= now && forall e :: e in run ==> start <= e.now <= now
  }

  lemma WithinInit(run: seq<Event>, start: int, now: int)
    requires WithinRun(run, start, now) && run != []
    ensures var e := run[|run| - 1]; WithinRun(run[..|run| - 1], start, e.now) && e.now <= now
  {
    var init, e := run[..|run| - 1], run[|run| - 1];
    assert e in run && forall d :: d in init ==> d in run && d.now <= e.now;
  }

  /** Found if and only if in touch and in time: together with what is stored, kept up by every operation. */
  lemma {:induction false} Lifetime(
      cfg: Config, st: Store, user: string, jti: string, at: int, run: seq<Event>, now: int)
    requires WellFormed(st) && WithinRun(run, at, now) && Spared(cfg, Begun(cfg, st, user, jti, at), run, st.next, at)
    ensures var s, id := After(cfg, Begun(cfg, st, user, jti, at), run), st.next;
            var active, renewed := LastTouch(run, id, at), LastRefresh(run, id, at);
            && Stored(cfg, s, id, user, active, renewed)
            && (FoundAt(cfg, s, id, now) <==> InTouch(cfg, active, now) && InTime(cfg, renewed, now))
  {
    var begun, id := Begun(cfg, st, user, jti, at), st.next;
    BegunStored(cfg, st, user, jti, at);
    if run == [] {
      FoundMeans(cfg, begun, id, user, at, at, now);
    } else {
      var init, e := run[..|run| - 1], run[|run| - 1];
      WithinInit(run, at, now);
      Lifetime(cfg, st, user, jti, at, init, e.now);
      LifetimeStep(cfg, After(cfg, begun, init), id, user, LastTouch(init, id, at), LastRefresh(init, id, at), e,
                   LastTouch(run, id, at), LastRefresh(run, id, at), now);
    }
  }

  lemma LifetimeStep(
      cfg: Config, st: Store, id: nat, user: string, active: int, renewed: int, e: Event, active': int,
      renewed': int, now: int)
    requires Stored(cfg, st, id, user, active, renewed) && Spares(cfg, st, id, active, renewed, e) && e.now <= now
    requires FoundAt(cfg, st, id, e.now) <==> InTouch(cfg, active, e.now) && InTime(cfg, renewed, e.now)
    requires active' == (if e.op == Touch(id) then e.now else active)
    requires renewed' == (if e.op == Refresh(id) then e.now else renewed)
    ensures var s := Step(st, cfg, e.op, e.now);
            && Stored(cfg, s, id, user, active', renewed')
            && (FoundAt(cfg, s, id, now) <==> InTouch(cfg, active', now) && InTime(cfg, renewed', now))
  {
    StepStored(cfg, st, id, user, active, renewed, e, active', renewed');
    FoundMeans(cfg, Step(st, cfg, e.op, e.now), id, user, active', renewed', now);
    if FoundAt(cfg, st, id, e.now) {
      StaysStored(cfg, st, id, active, renewed, e);
    }
  }

  /**
   A session that is neither revoked nor evicted, touched only while it is not idle and refreshed only
   while it has not expired, is found, listed and counted if and only if its last creation or refresh is
   younger than its lifetime and its last creation or touch no older than the idle timeout; until it has
   expired a touch succeeds exactly then.
   */
  lemma FoundIff(cfg: Config, st: Store, user: string, jti: string, at: int, run: seq<Event>, now: int)
    requires WellFormed(st) && WithinRun(run, at, now) && Spared(cfg, Begun(cfg, st, user, jti, at), run, st.next, at)
    ensures var s, id := After(cfg, Begun(cfg, st, user, jti, at), run), st.next;
            var inTouch := InTouch(cfg, LastTouch(run, id, at), now);
            var inTime := InTime(cfg, LastRefresh(run, id, at), now);
            var listed := AnswerTo(s, cfg, List(user), now).records;
            && (AnswerTo(s, cfg, Get(id), now).record.Some? <==> inTouch && inTime)
            && (HasId(listed, id) <==> inTouch && inTime)
            && AnswerTo(s, cfg, Count(user), now).count == |listed|
            && (inTime ==> AnswerTo(s, cfg, Touch(id), now) == Succeeded(inTouch))
  {
    var s, id := After(cfg, Begun(cfg, st, user, jti, at), run), st.next;
    var active, renewed := LastTouch(run, id, at), LastRefresh(run, id, at);
    Lifetime(cfg, st, user, jti, at, run, now);
    ListedIffFound(cfg, s, id, user, active, renewed, now);
    if InTime(cfg, renewed, now) {
      TouchIffFound(cfg, s, id, user, active, renewed, now);
    }
  }

  lemma ListedIffFound(cfg: Config, s: Store, id: nat, user: string, active: int, renewed: int, now: int)
    requires Stored(cfg, s, id, user, active, renewed)
    ensures HasId(Keep(s.records, LiveOfUser(cfg, user, now)), id) <==> FoundAt(cfg, s, id, now)
  {
    KeepMembers(s.records, LiveOfUser(cfg, user, now));
    if FoundAt(cfg, s, id, now) {
      var r := FoundStored(cfg, s, id, now);
      assert r in Keep(s.records, LiveOfUser(cfg, user, now));
    }
    if HasId(Keep(s.records, LiveOfUser(cfg, user, now)), id) {
      var r :| r in Keep(s.records, LiveOfUser(cfg, user, now)) && r.id == id;
      FindOnly(s.records, r);
    }
  }

  lemma TouchIffFound(cfg: Config, s: Store, id: nat, user: string, active: int, renewed: int, now: int)
    requires Stored(cfg, s, id, user, active, renewed) && InTime(cfg, renewed, now)
    requires FoundAt(cfg, s, id, now) <==> InTouch(cfg, active, now)
    ensures AnswerTo(s, cfg, Touch(id), now) == Succeeded(InTouch(cfg, active, now))
  {
    FindMember(s.records, id);
    if FindId(s.records, id).Some? {
      ShownStale(cfg, FindId(s.records, id).value, user, active, renewed, now);
    }
  }

  // ----- Who is evicted ---------------------------------------------------------------------

  function CreationsBy(run: seq<Event>, user: string): nat {
    if run == [] then 0
    else
      var op := run[|run| - 1].op;
      CreationsBy(run[..|run| - 1], user) + if op.Create? && op.user == user then 1 else 0
  }

  /** As `Spared`, read off the run alone: nothing is asked of creations. */
  predicate KeptUp(cfg: Config, run: seq<Event>, id: nat, created: int) {
    run == [] ||
    (var init, e := run[..|run| - 1], run[|run| - 1];
     && KeptUp(cfg, init, id, created)
     && match e.op
        case Touch(other) => other == id ==> InTouch(cfg, LastTouch(init, id, created), e.now)
        case Refresh(other) => other == id ==> InTime(cfg, LastRefresh(init, id, created), e.now)
        case Revoke(other, works) => other == id ==> !works
        case _ => true)
  }

  /** Sessions of the user created after `id`. */
  function Newer(user: string, id: nat): Record -> bool {
    (r: Record) => r.user == user && r.id > id
  }

  /** Records are in order of creation, none later than `now`. */
  ghost predicate InOrder(st: Store, now: int) {
    WellFormed(st) && Ascending(st.records) && forall r :: r in st.records ==> r.created <= now
  }

  lemma DroppedInOrder(st: Store, now: int, p: Record -> bool)
    requires InOrder(st, now)
    ensures InOrder(st.(records := Keep(st.records, p)), now)
  {
    KeepWellFormed(st, p);
    KeepPreservesOrder(st.records, p);
    KeepMembers(st.records, p);
  }

  lemma {:induction false} MapCreated(s: seq<Record>, id: nat, f: Record -> Record)
    requires forall r :: f(r).id == r.id && f(r).created == r.created
    ensures |MapId(s, id, f)| == |s|
    ensures forall i :: 0 <= i < |s| ==> MapId(s, id, f)[i].id == s[i].id && MapId(s, id, f)[i].created == s[i].created
  {
    if s != [] {
      MapCreated(s[..|s| - 1], id, f);
    }
  }

  lemma MapInOrder(st: Store, now: int, id: nat, f: Record -> Record)
    requires InOrder(st, now) && forall r :: f(r).id == r.id && f(r).created == r.created
    ensures InOrder(st.(records := MapId(st.records, id, f)), now)
  {
    MapWellFormed(st, id, f);
    MapCreated(st.records, id, f);
  }

  /** What creation leaves before it appends. */
  lemma AdmittedInOrder(cfg: Config, st: Store, user: string, now: int)
    requires InOrder(st, now)
    ensures InOrder(st.(records := Admit(cfg, Keep(st.records, NotStaleOf(cfg, user, now)), user)), now)
  {
    var pruned := Keep(st.records, NotStaleOf(cfg, user, now));
    DroppedInOrder(st, now, NotStaleOf(cfg, user, now));
    var mine := Keep(pruned, OfUser(user));
    if mine != [] {
      DroppedInOrder(st.(records := pruned), now, NotId(mine[OldestIndex(mine)].id));
    }
  }

  lemma StepInOrder(cfg: Config, st: Store, e: Event)
    requires InOrder(st, e.now)
    ensures InOrder(Step(st, cfg, e.op, e.now), e.now)
  {
    var now := e.now;
    match e.op
    case Create(user, jti) =>
      AdmittedInOrder(cfg, st, user, now);
      StepWellFormed(cfg, st, e.op, now);
    case Get(id) => DroppedInOrder(st, now, NotStaleId(cfg, id, now));
    case List(user) => DroppedInOrder(st, now, NotStaleOf(cfg, user, now));
    case Count(user) => DroppedInOrder(st, now, NotStaleOf(cfg, user, now));
    case Revoke(id, works) =>
      DroppedInOrder(st, now, NotStaleId(cfg, id, now));
      DroppedInOrder(st.(records := Keep(st.records, NotStaleId(cfg, id, now))), now, NotId(id));
    case Refresh(id) => MapInOrder(st, now, id, RefreshRecord(cfg, now));
    case Touch(id) => MapInOrder(st, now, id, TouchRecord(cfg, now));
    case Cleanup => DroppedInOrder(st, now, SweepAt(cfg, now));
  }

  lemma {:induction false} RunInOrder(cfg: Config, st: Store, run: seq<Event>, start: int, now: int)
    requires InOrder(st, start) && WithinRun(run, start, now)
    ensures InOrder(After(cfg, st, run), now)
  {
    if run != [] {
      WithinInit(run, start, now);
      RunInOrder(cfg, st, run[..|run| - 1], start, run[|run| - 1].now);
      StepInOrder(cfg, After(cfg, st, run[..|run| - 1]), run[|run| - 1]);
    }
  }

  // ----- Newer sessions of the user --------------------------------------------------------

  lemma KeepFewer(s: seq<Record>, p: Record -> bool, q: Record -> bool)
    ensures |Keep(Keep(s, p), q)| <= |Keep(s, q)|
  {
    KeepsCommute(s, p, q);
    KeepMembers(Keep(s, q), p);
  }

  lemma {:induction false} MapSameNewer(s: seq<Record>, id: nat, f: Record -> Record, p: Record -> bool)
    requires forall r :: p(f(r)) == p(r)
    ensures |Keep(MapId(s, id, f), p)| == |Keep(s, p)|
  {
    if s != [] {
      var last := s[|s| - 1];
      MapSameNewer(s[..|s| - 1], id, f, p);
      KeepLast(MapId(s[..|s| - 1], id, f), if last.id == id then f(last) else last, p);
    }
  }

  lemma CreateAddsOne(cfg: Config, st: Store, owner: string, jti: string, now: int, user: string, id: nat)
    ensures |Keep(Step(st, cfg, Create(owner, jti), now).records, Newer(user, id))| <=
            |Keep(st.records, Newer(user, id))| + if owner == user then 1 else 0
  {
    var p, pruned := Newer(user, id), Keep(st.records, NotStaleOf(cfg, owner, now));
    KeepFewer(st.records, NotStaleOf(cfg, owner, now), p);
    var mine := Keep(pruned, OfUser(owner));
    if mine != [] {
      KeepFewer(pruned, NotId(mine[OldestIndex(mine)].id), p);
    }
    KeepLast(Admit(cfg, pruned, owner), Fresh(cfg, st, owner, jti, now), p);
  }

  /** Only a creation by the user adds to the sessions newer than `id`. */
  lemma NewerStep(cfg: Config, st: Store, e: Event, user: string, id: nat)
    ensures |Keep(Step(st, cfg, e.op, e.now).records, Newer(user, id))| <=
            |Keep(st.records, Newer(user, id))| + if e.op.Create? && e.op.user == user then 1 else 0
  {
    var s, now, p := st.records, e.now, Newer(user, id);
    match e.op
    case Create(u, jti) => CreateAddsOne(cfg, st, u, jti, now, user, id);
    case Get(other) => KeepFewer(s, NotStaleId(cfg, other, now), p);
    case List(u) => KeepFewer(s, NotStaleOf(cfg, u, now), p);
    case Count(u) => KeepFewer(s, NotStaleOf(cfg, u, now), p);
    case Revoke(other, works) =>
      KeepFewer(s, NotStaleId(cfg, other, now), p);
      KeepFewer(Keep(s, NotStaleId(cfg, other, now)), NotId(other), p);
    case Refresh(other) => MapSameNewer(s, other, RefreshRecord(cfg, now), p);
    case Touch(other) => MapSameNewer(s, other, TouchRecord(cfg, now), p);
    case Cleanup => KeepFewer(s, SweepAt(cfg, now), p);
  }

  lemma {:induction false} KeepAllButFirst(s: seq<Record>, p: Record -> bool)
    requires forall i :: 0 < i < |s| ==> p(s[i])
    ensures |Keep(s, p)| >= |s| - 1
  {
    if |s| > 1 {
      KeepAllButFirst(s[..|s| - 1], p);
    }
  }

  /** A user at the maximum whose oldest live session is `id` has created the rest after it. */
  lemma OldestHasNewer(cfg: Config, s: seq<Record>, user: string, id: nat, now: int)
    requires Ascending(s)
    ensures var mine := Keep(Live(cfg, s, now), OfUser(user));
            mine != [] && mine[0].id == id ==> |mine| - 1 <= |Keep(s, Newer(user, id))|
  {
    var live := Live(cfg, s, now);
    var mine := Keep(live, OfUser(user));
    KeepPreservesOrder(s, LiveAt(cfg, now));
    KeepPreservesOrder(live, OfUser(user));
    KeepMembers(live, OfUser(user));
    if mine != [] && mine[0].id == id {
      forall i | 0 < i < |mine| ensures Newer(user, id)(mine[i]) {
        assert mine[i] in mine && mine[0].id < mine[i].id;
      }
      KeepAllButFirst(mine, Newer(user, id));
      KeepFewer(live, OfUser(user), Newer(user, id));
      KeepFewer(s, LiveAt(cfg, now), Newer(user, id));
    }
  }

  /** With fewer newer sessions than that, making room does not evict a live session. */
  lemma AdmitSpares(cfg: Config, s: seq<Record>, r: Record, owner: string, now: int)
    requires Ascending(s) && r in s && !Stale(cfg, r, now)
    requires r.user == owner ==> |Keep(s, Newer(owner, r.id))| + 1 < cfg.maxConcurrent
    ensures r in Admit(cfg, Keep(s, NotStaleOf(cfg, owner, now)), owner)
  {
    var pruned := Keep(s, NotStaleOf(cfg, owner, now));
    var mine := Keep(pruned, OfUser(owner));
    KeepMembers(s, NotStaleOf(cfg, owner, now));
    if |mine| >= cfg.maxConcurrent {
      KeepPreservesOrder(s, NotStaleOf(cfg, owner, now));
      KeepPreservesOrder(pruned, OfUser(owner));
      EvictFirst(mine);
      KeepMembers(pruned, NotId(mine[0].id));
      OldestIsOther(cfg, s, r, owner, now);
    }
  }

  lemma OldestIsOther(cfg: Config, s: seq<Record>, r: Record, owner: string, now: int)
    requires Ascending(s) && r in s
    requires r.user == owner ==> |Keep(s, Newer(owner, r.id))| + 1 < cfg.maxConcurrent
    ensures var mine := Keep(Keep(s, NotStaleOf(cfg, owner, now)), OfUser(owner));
            |mine| >= cfg.maxConcurrent ==> mine[0].id != r.id
  {
    PrunedOfUser(cfg, s, owner, now);
    OldestHasNewer(cfg, s, owner, r.id, now);
    OwnersOnly(s, Keep(Live(cfg, s, now), OfUser(owner)), r, owner, LiveAt(cfg, now));
  }

  lemma OwnersOnly(s: seq<Record>, mine: seq<Record>, r: Record, owner: string, p: Record -> bool)
    requires Ascending(s) && r in s && mine == Keep(Keep(s, p), OfUser(owner))
    ensures mine != [] && mine[0].id == r.id ==> r.user == owner
  {
    KeepMembers(s, p);
    KeepMembers(Keep(s, p), OfUser(owner));
    if mine != [] && mine[0].id == r.id {
      var first := mine[0];
      assert first in mine && first in s;
    }
  }

  lemma CreateSpares(cfg: Config, st: Store, id: nat, owner: string, jti: string, now: int)
    requires InOrder(st, now) && FoundAt(cfg, st, id, now)
    requires forall r :: r in st.records && r.id == id && r.user == owner ==>
                           |Keep(st.records, Newer(owner, id))| + 1 < cfg.maxConcurrent
    ensures FoundAt(cfg, Step(st, cfg, Create(owner, jti), now), id, now)
  {
    var r := FoundStored(cfg, st, id, now);
    AdmitSpares(cfg, st.records, r, owner, now);
    var t := Step(st, cfg, Create(owner, jti), now);
    assert r in t.records;
    StepWellFormed(cfg, st, Create(owner, jti), now);
    FindOnly(t.records, r);
  }

  lemma {:induction false} KeepNone(s: seq<Record>, p: Record -> bool)
    requires forall r :: r in s ==> !p(r)
    ensures Keep(s, p) == []
  {
    if s != [] {
      KeepNone(s[..|s| - 1], p);
    }
  }

  /** Fewer later creations than the maximum spare a session that is kept up otherwise. */
  lemma {:induction false} FewCreationsSpare(
      cfg: Config, st: Store, user: string, jti: string, at: int, run: seq<Event>, now: int)
    requires InOrder(st, at) && WithinRun(run, at, now)
    requires KeptUp(cfg, run, st.next, at) && CreationsBy(run, user) < cfg.maxConcurrent
    ensures var begun, id := Begun(cfg, st, user, jti, at), st.next;
            && Spared(cfg, begun, run, id, at)
            && |Keep(After(cfg, begun, run).records, Newer(user, id))| <= CreationsBy(run, user)
  {
    var begun, id := Begun(cfg, st, user, jti, at), st.next;
    StepInOrder(cfg, st, Event(Create(user, jti), at));
    if run == [] {
      KeepNone(begun.records, Newer(user, id));
    } else {
      var init, e := run[..|run| - 1], run[|run| - 1];
      WithinInit(run, at, now);
      FewCreationsSpare(cfg, st, user, jti, at, init, e.now);
      Lifetime(cfg, st, user, jti, at, init, e.now);
      RunInOrder(cfg, begun, init, at, e.now);
      var s := After(cfg, begun, init);
      NewerStep(cfg, s, e, user, id);
      if e.op.Create? && FoundAt(cfg, s, id, e.now) {
        CreateSpares(cfg, s, id, e.op.user, e.op.jti, e.now);
      }
    }
  }

  /**
   From an empty store: a session touched and refreshed in time, not revoked, and followed by fewer
   creations of its user than the maximum, is found exactly while in touch and in time.
   */
  lemma FoundIffKeptUp(
      cfg: Config, before: seq<Event>, user: string, jti: string, at: int, run: seq<Event>, start: int, now: int)
    requires WithinRun(before, start, at) && WithinRun(run, at, now)
    requires CreationsBy(run, user) < cfg.maxConcurrent
    requires KeptUp(cfg, run, After(cfg, Store([], 0), before).next, at)
    ensures var st := After(cfg, Store([], 0), before);
            var s, id := After(cfg, Begun(cfg, st, user, jti, at), run), st.next;
            AnswerTo(s, cfg, Get(id), now).record.Some? <==>
              InTouch(cfg, LastTouch(run, id, at), now) && InTime(cfg, LastRefresh(run, id, at), now)
  {
    var st := After(cfg, Store([], 0), before);
    RunInOrder(cfg, Store([], 0), before, start, at);
    FewCreationsSpare(cfg, st, user, jti, at, run, now);
    FoundIff(cfg, st, user, jti, at, run, now);
  }
}
