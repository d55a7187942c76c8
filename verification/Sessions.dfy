/**
 Server-side sessions: a capped number per user, oldest evicted first, and stale records deleted
 only when something stumbles over them.

 The store is the session dict in insertion order.  `Live` is what a store means at a given time;
 the file proves that every operation acts on that meaning alone, and that all but three operations
 answer from it alone.  Touch, refresh and cleanup answer from the stored records; exactly when that
 shows is proved too.
 */
module Sessions {
  import opened Prelude

  /** Idle timeouts of zero or less disable the idle check, like an absent one. */
  datatype Config = Config(maxConcurrent: pos, ttl: pos, idleTimeout: Option<int>)

  datatype Record = Record(
    id: nat, user: string, jti: string, created: int, expires: Option<int>, lastActivity: Option<int>)

  /** `next` stands for unused session ids. */
  datatype Store = Store(records: seq<Record>, next: nat)

  predicate Idle(cfg: Config, r: Record, now: int) {
    && cfg.idleTimeout.Some? && cfg.idleTimeout.value > 0
    && now - (if r.lastActivity.Some? then r.lastActivity.value else r.created) > cfg.idleTimeout.value
  }

  predicate Expired(r: Record, now: int) {
    r.expires.Some? && r.expires.value <= now
  }

  predicate Stale(cfg: Config, r: Record, now: int) {
    Expired(r, now) || Idle(cfg, r, now)
  }

  // ----- Filtering an ordered dict --------------------------------------------------------

  function Keep(s: seq<Record>, p: Record -> bool): seq<Record> {
    if s == [] then []
    else Keep(s[..|s| - 1], p) + if p(s[|s| - 1]) then [s[|s| - 1]] else []
  }

  lemma {:induction false} KeepMembers(s: seq<Record>, p: Record -> bool)
    ensures forall r :: r in Keep(s, p) <==> r in s && p(r)
    ensures |Keep(s, p)| <= |s|
  {
    if s != [] {
      KeepMembers(s[..|s| - 1], p);
      assert s == s[..|s| - 1] + [s[|s| - 1]];
    }
  }

  lemma {:induction false} KeepSame(s: seq<Record>, p: Record -> bool, q: Record -> bool)
    requires forall r :: r in s ==> p(r) == q(r)
    ensures Keep(s, p) == Keep(s, q)
  {
    if s != [] {
      KeepSame(s[..|s| - 1], p, q);
    }
  }

  lemma {:induction false} KeepTwice(s: seq<Record>, p: Record -> bool, q: Record -> bool, both: Record -> bool)
    requires forall r :: r in s ==> both(r) == (p(r) && q(r))
    ensures Keep(Keep(s, p), q) == Keep(s, both)
  {
    if s != [] {
      var init, last := s[..|s| - 1], s[|s| - 1];
      KeepTwice(init, p, q, both);
      if p(last) {
        assert (Keep(init, p) + [last])[..|Keep(init, p)|] == Keep(init, p);
      } else {
        assert Keep(init, p) + [] == Keep(init, p);
      }
    }
  }

  lemma KeepLast(s: seq<Record>, r: Record, p: Record -> bool)
    ensures Keep(s + [r], p) == Keep(s, p) + if p(r) then [r] else []
  {
    assert (s + [r])[..|s|] == s;
  }

  lemma {:induction false} KeepAll(s: seq<Record>, p: Record -> bool)
    requires forall r :: r in s ==> p(r)
    ensures Keep(s, p) == s
  {
    if s != [] {
      KeepAll(s[..|s| - 1], p);
      assert s == s[..|s| - 1] + [s[|s| - 1]];
    }
  }

  function LiveAt(cfg: Config, now: int): Record -> bool { (r: Record) => !Stale(cfg, r, now) }
  function OfUser(user: string): Record -> bool { (r: Record) => r.user == user }

  function LiveOfUser(cfg: Config, user: string, now: int): Record -> bool {
    (r: Record) => r.user == user && !Stale(cfg, r, now)
  }

  function NotStaleOf(cfg: Config, user: string, now: int): Record -> bool {
    (r: Record) => !(r.user == user && Stale(cfg, r, now))
  }

  function NotId(id: nat): Record -> bool { (r: Record) => r.id != id }

  function NotStaleId(cfg: Config, id: nat, now: int): Record -> bool {
    (r: Record) => !(r.id == id && Stale(cfg, r, now))
  }

  /** What a store means at `now`. */
  function Live(cfg: Config, s: seq<Record>, now: int): seq<Record> {
    Keep(s, LiveAt(cfg, now))
  }

  ghost predicate Distinct(s: seq<Record>) {
    forall i, j :: 0 <= i < j < |s| ==> s[i].id != s[j].id
  }

  predicate HasId(s: seq<Record>, id: nat) {
    exists r :: r in s && r.id == id
  }

  // ----- Operations on values -------------------------------------------------------------

  function Fresh(cfg: Config, st: Store, user: string, jti: string, now: int): Record {
    Record(st.next, user, jti, now, Some(now + cfg.ttl), None)
  }

  /** Position of the first record created earliest: `min(..., key=created_at)`. */
  function OldestIndex(s: seq<Record>): (i: nat)
    requires s != []
    ensures i < |s|
    ensures forall j :: 0 <= j < |s| ==> s[i].created <= s[j].created
    ensures forall j :: 0 <= j < i ==> s[i].created < s[j].created
  {
    if |s| == 1 then 0
    else
      var i := OldestIndex(s[..|s| - 1]);
      if s[|s| - 1].created < s[i].created then |s| - 1 else i
  }

  function Evict(s: seq<Record>, live: seq<Record>): seq<Record> {
    if live == [] then s else Keep(s, NotId(live[OldestIndex(live)].id))
  }

  /** `SessionManager.create` on a store whose stale records of the user are already gone. */
  function Admit(cfg: Config, s: seq<Record>, user: string): seq<Record> {
    var live := Keep(s, OfUser(user));
    if |live| >= cfg.maxConcurrent then Evict(s, live) else s
  }

  function MapId(s: seq<Record>, id: nat, f: Record -> Record): seq<Record> {
    if s == [] then []
    else
      var last := s[|s| - 1];
      MapId(s[..|s| - 1], id, f) + [if last.id == id then f(last) else last]
  }

  /** An idle record cannot be touched; an expired one still can. */
  function TouchRecord(cfg: Config, now: int): Record -> Record {
    (r: Record) => if Idle(cfg, r, now) then r else r.(lastActivity := Some(now))
  }

  function RefreshRecord(cfg: Config, now: int): Record -> Record {
    (r: Record) => r.(expires := Some(now + cfg.ttl))
  }

  datatype Op =
    | Create(user: string, jti: string)
    | Get(id: nat)
    | List(user: string)
    | Count(user: string)
    | Revoke(id: nat, blacklistWorks: bool)
    | Refresh(id: nat)
    | Touch(id: nat)
    | Cleanup

  /** Cleanup spares records that expire at this very instant. */
  predicate Sweepable(cfg: Config, r: Record, now: int) {
    (r.expires.Some? && r.expires.value < now) || Idle(cfg, r, now)
  }

  function SweepAt(cfg: Config, now: int): Record -> bool {
    (r: Record) => !Sweepable(cfg, r, now)
  }

  function Step(st: Store, cfg: Config, op: Op, now: int): Store {
    var s := st.records;
    match op
    case Create(user, jti) =>
      var pruned := Keep(s, NotStaleOf(cfg, user, now));
      Store(Admit(cfg, pruned, user) + [Fresh(cfg, st, user, jti, now)], st.next + 1)
    case Get(id) => st.(records := Keep(s, NotStaleId(cfg, id, now)))
    case List(user) => st.(records := Keep(s, NotStaleOf(cfg, user, now)))
    case Count(user) => st.(records := Keep(s, NotStaleOf(cfg, user, now)))
    case Revoke(id, works) =>
      var looked := Keep(s, NotStaleId(cfg, id, now));
      st.(records := if works then Keep(looked, NotId(id)) else looked)
    case Refresh(id) => st.(records := MapId(s, id, RefreshRecord(cfg, now)))
    case Touch(id) => st.(records := MapId(s, id, TouchRecord(cfg, now)))
    case Cleanup => st.(records := Keep(s, SweepAt(cfg, now)))
  }

  // ----- The same operations on live sessions only ----------------------------------------

  /** Sessions as a caller thinks of them: stale ones are gone the moment they are stale. */
  function PureStep(st: Store, cfg: Config, op: Op, now: int): Store {
    var live := Live(cfg, st.records, now);
    match op
    case Create(user, jti) => Store(Admit(cfg, live, user) + [Fresh(cfg, st, user, jti, now)], st.next + 1)
    case Revoke(id, works) => st.(records := if works then Keep(live, NotId(id)) else live)
    case Refresh(id) => st.(records := MapId(live, id, RefreshRecord(cfg, now)))
    case Touch(id) => st.(records := MapId(live, id, TouchRecord(cfg, now)))
    case _ => st.(records := live)
  }

  /** What is live later is found among what is live now. */
  lemma LiveLater(cfg: Config, s: seq<Record>, now: int, later: int)
    requires now <= later
    ensures Live(cfg, Live(cfg, s, now), later) == Live(cfg, s, later)
  {
    KeepTwice(s, LiveAt(cfg, now), LiveAt(cfg, later), LiveAt(cfg, later));
  }

  /** Dropping only stale records does not change what is live. */
  lemma DroppingStale(cfg: Config, s: seq<Record>, p: Record -> bool, now: int)
    requires forall r :: r in s && !p(r) ==> Stale(cfg, r, now)
    ensures Live(cfg, Keep(s, p), now) == Live(cfg, s, now)
  {
    KeepTwice(s, p, LiveAt(cfg, now), LiveAt(cfg, now));
  }

  lemma KeepsCommute(s: seq<Record>, p: Record -> bool, q: Record -> bool)
    ensures Keep(Keep(s, p), q) == Keep(Keep(s, q), p)
  {
    var both := (r: Record) => p(r) && q(r);
    KeepTwice(s, p, q, both);
    KeepTwice(s, q, p, both);
  }

  /** An update that neither revives nor kills a record at `now` commutes with taking the live ones. */
  lemma {:induction false} MapCommutes(cfg: Config, s: seq<Record>, id: nat, f: Record -> Record, now: int)
    requires forall r :: r in s && r.id == id ==> (Stale(cfg, f(r), now) <==> Stale(cfg, r, now))
    ensures Live(cfg, MapId(s, id, f), now) == MapId(Live(cfg, s, now), id, f)
  {
    if s != [] {
      var init, last := s[..|s| - 1], s[|s| - 1];
      MapCommutes(cfg, init, id, f, now);
      var changed := if last.id == id then f(last) else last;
      assert last in s && (forall r :: r in init ==> r in s);
      KeepLast(MapId(init, id, f), changed, LiveAt(cfg, now));
      var live := Live(cfg, init, now);
      if Stale(cfg, last, now) {
        assert Live(cfg, s, now) == live;
      } else {
        assert (live + [last])[..|live|] == live;
      }
    }
  }

  /** The one refresh that shows whether a record was pruned: of an expired record that is not idle. */
  ghost predicate RefreshSafe(cfg: Config, s: seq<Record>, id: nat, now: int) {
    forall r :: r in s && r.id == id ==> !(Expired(r, now) && !Idle(cfg, r, now))
  }

  // ----- Lazy deletion is invisible -------------------------------------------------------

  /** After pruning, the user's records are exactly the user's live ones. */
  lemma PrunedOfUser(cfg: Config, s: seq<Record>, user: string, now: int)
    ensures Keep(Keep(s, NotStaleOf(cfg, user, now)), OfUser(user)) == Keep(Live(cfg, s, now), OfUser(user))
  {
    KeepTwice(s, NotStaleOf(cfg, user, now), OfUser(user), LiveOfUser(cfg, user, now));
    KeepTwice(s, LiveAt(cfg, now), OfUser(user), LiveOfUser(cfg, user, now));
  }

  lemma AdmitIsPure(cfg: Config, s: seq<Record>, user: string, now: int)
    ensures Live(cfg, Admit(cfg, Keep(s, NotStaleOf(cfg, user, now)), user), now) ==
            Admit(cfg, Live(cfg, s, now), user)
  {
    var pruned, live := Keep(s, NotStaleOf(cfg, user, now)), Live(cfg, s, now);
    PrunedOfUser(cfg, s, user, now);
    DroppingStale(cfg, s, NotStaleOf(cfg, user, now), now);
    var mine := Keep(live, OfUser(user));
    if mine != [] {
      KeepsCommute(pruned, NotId(mine[OldestIndex(mine)].id), LiveAt(cfg, now));
    }
  }

  lemma CreateIsPure(cfg: Config, st: Store, user: string, jti: string, now: int)
    ensures Live(cfg, Step(st, cfg, Create(user, jti), now).records, now) ==
            PureStep(st, cfg, Create(user, jti), now).records
  {
    var added := Fresh(cfg, st, user, jti, now);
    AdmitIsPure(cfg, st.records, user, now);
    KeepLast(Admit(cfg, Keep(st.records, NotStaleOf(cfg, user, now)), user), added, LiveAt(cfg, now));
  }

  /** Every operation acts on what is live; a refresh, provided it does not revive an expired record. */
  lemma StepIsPure(cfg: Config, st: Store, op: Op, now: int)
    requires op.Refresh? ==> RefreshSafe(cfg, st.records, op.id, now)
    ensures Live(cfg, Step(st, cfg, op, now).records, now) == PureStep(st, cfg, op, now).records
  {
    var s := st.records;
    match op
    case Create(user, jti) => CreateIsPure(cfg, st, user, jti, now);
    case Get(id) => DroppingStale(cfg, s, NotStaleId(cfg, id, now), now);
    case List(user) => DroppingStale(cfg, s, NotStaleOf(cfg, user, now), now);
    case Count(user) => DroppingStale(cfg, s, NotStaleOf(cfg, user, now), now);
    case Revoke(id, works) =>
      DroppingStale(cfg, s, NotStaleId(cfg, id, now), now);
      KeepsCommute(Keep(s, NotStaleId(cfg, id, now)), NotId(id), LiveAt(cfg, now));
    case Refresh(id) => MapCommutes(cfg, s, id, RefreshRecord(cfg, now), now);
    case Touch(id) => MapCommutes(cfg, s, id, TouchRecord(cfg, now), now);
    case Cleanup => DroppingStale(cfg, s, SweepAt(cfg, now), now);
  }

  lemma {:induction false} MapChangesLiveness(cfg: Config, s: seq<Record>, id: nat, f: Record -> Record, now: int)
    requires forall r :: r in s && r.id == id && !Stale(cfg, r, now) ==> !Stale(cfg, f(r), now)
    requires exists r :: r in s && r.id == id && Stale(cfg, r, now) && !Stale(cfg, f(r), now)
    ensures |Live(cfg, MapId(s, id, f), now)| > |Live(cfg, s, now)|
  {
    var init, last := s[..|s| - 1], s[|s| - 1];
    var changed := if last.id == id then f(last) else last;
    KeepLast(MapId(init, id, f), changed, LiveAt(cfg, now));
    assert s == init + [last];
    if last.id == id && Stale(cfg, last, now) && !Stale(cfg, f(last), now) {
      MapKeepsLive(cfg, init, id, f, now);
    } else {
      var r :| r in s && r.id == id && Stale(cfg, r, now) && !Stale(cfg, f(r), now);
      assert r in init;
      MapChangesLiveness(cfg, init, id, f, now);
    }
  }

  lemma {:induction false} MapKeepsLive(cfg: Config, s: seq<Record>, id: nat, f: Record -> Record, now: int)
    requires forall r :: r in s && r.id == id && !Stale(cfg, r, now) ==> !Stale(cfg, f(r), now)
    ensures |Live(cfg, MapId(s, id, f), now)| >= |Live(cfg, s, now)|
  {
    if s != [] {
      var init, last := s[..|s| - 1], s[|s| - 1];
      MapKeepsLive(cfg, init, id, f, now);
      KeepLast(MapId(init, id, f), if last.id == id then f(last) else last, LiveAt(cfg, now));
    }
  }

  lemma {:induction false} MapLength(s: seq<Record>, id: nat, f: Record -> Record)
    ensures |MapId(s, id, f)| == |s|
  {
    if s != [] {
      MapLength(s[..|s| - 1], id, f);
    }
  }

  /** Exactly when a refresh cannot tell a pruned record from one still lying around. */
  lemma RefreshIsPureIff(cfg: Config, st: Store, id: nat, now: int)
    ensures Live(cfg, Step(st, cfg, Refresh(id), now).records, now) == PureStep(st, cfg, Refresh(id), now).records
            <==> RefreshSafe(cfg, st.records, id, now)
  {
    var f := RefreshRecord(cfg, now);
    if RefreshSafe(cfg, st.records, id, now) {
      StepIsPure(cfg, st, Refresh(id), now);
    } else {
      MapLength(Live(cfg, st.records, now), id, f);
      MapChangesLiveness(cfg, st.records, id, f, now);
    }
  }

  // ----- Runs -----------------------------------------------------------------------------

  datatype Event = Event(op: Op, now: int)

  function After(cfg: Config, st: Store, run: seq<Event>): Store {
    if run == [] then st
    else Step(After(cfg, st, run[..|run| - 1]), cfg, run[|run| - 1].op, run[|run| - 1].now)
  }

  ghost predicate Ordered(run: seq<Event>) {
    forall i, j :: 0 <= i < j < |run| ==> run[i].now <= run[j].now
  }

  /** Two stores with the same live sessions from `now` on. */
  ghost predicate SameMeaning(cfg: Config, s: Store, t: Store, now: int) {
    s.next == t.next && Live(cfg, s.records, now) == Live(cfg, t.records, now)
  }

  /** Every refresh in the run is safe where it happens. */
  ghost predicate RefreshesSafe(cfg: Config, st: Store, run: seq<Event>) {
    forall i :: 0 <= i < |run| && run[i].op.Refresh? ==>
      RefreshSafe(cfg, After(cfg, st, run[..i]).records, run[i].op.id, run[i].now)
  }

  lemma SameMeaningLater(cfg: Config, s: Store, t: Store, now: int, later: int)
    requires SameMeaning(cfg, s, t, now) && now <= later
    ensures SameMeaning(cfg, s, t, later)
  {
    LiveLater(cfg, s.records, now, later);
    LiveLater(cfg, t.records, now, later);
  }

  lemma RunPrefix(cfg: Config, st: Store, run: seq<Event>)
    requires Ordered(run) && RefreshesSafe(cfg, st, run) && run != []
    ensures var init := run[..|run| - 1]; Ordered(init) && RefreshesSafe(cfg, st, init)
    ensures run[|run| - 1].op.Refresh? ==>
              RefreshSafe(cfg, After(cfg, st, run[..|run| - 1]).records, run[|run| - 1].op.id, run[|run| - 1].now)
  {
    var init := run[..|run| - 1];
    assert forall i :: 0 <= i < |init| ==> init[i] == run[i] && init[..i] == run[..i];
  }

  lemma SameMeaningStep(cfg: Config, s: Store, t: Store, e: Event)
    requires SameMeaning(cfg, s, t, e.now)
    requires e.op.Refresh? ==>
               RefreshSafe(cfg, s.records, e.op.id, e.now) && RefreshSafe(cfg, t.records, e.op.id, e.now)
    ensures SameMeaning(cfg, Step(s, cfg, e.op, e.now), Step(t, cfg, e.op, e.now), e.now)
  {
    StepIsPure(cfg, s, e.op, e.now);
    StepIsPure(cfg, t, e.op, e.now);
  }

  /** The same operations on stores of the same meaning end in stores of the same meaning. */
  lemma {:induction false} SameMeaningRuns(cfg: Config, s: Store, t: Store, run: seq<Event>, start: int, now: int)
    requires SameMeaning(cfg, s, t, start) && start <= now && Ordered(run)
    requires run != [] ==> start <= run[0].now && run[|run| - 1].now <= now
    requires RefreshesSafe(cfg, s, run) && RefreshesSafe(cfg, t, run)
    ensures SameMeaning(cfg, After(cfg, s, run), After(cfg, t, run), now)
  {
    if run == [] {
      SameMeaningLater(cfg, s, t, start, now);
    } else {
      var init, e := run[..|run| - 1], run[|run| - 1];
      RunPrefix(cfg, s, run);
      RunPrefix(cfg, t, run);
      SameMeaningRuns(cfg, s, t, init, start, e.now);
      SameMeaningStep(cfg, After(cfg, s, init), After(cfg, t, init), e);
      SameMeaningLater(cfg, After(cfg, s, run), After(cfg, t, run), e.now, now);
    }
  }

  predicate IsRead(op: Op) {
    op.Get? || op.List? || op.Count? || op.Cleanup?
  }

  /** Every record stored in `s` is stored in `t`. */
  ghost predicate Thinner(s: seq<Record>, t: seq<Record>) {
    forall r :: r in s ==> r in t
  }

  lemma KeepThinner(s: seq<Record>, t: seq<Record>, p: Record -> bool)
    requires Thinner(s, t)
    ensures Thinner(Keep(s, p), Keep(t, p)) && Thinner(Keep(s, p), t)
  {
    KeepMembers(s, p);
    KeepMembers(t, p);
  }

  lemma {:induction false} MapMembers(s: seq<Record>, id: nat, f: Record -> Record)
    ensures forall r :: r in MapId(s, id, f) <==>
              exists was :: was in s && r == (if was.id == id then f(was) else was)
  {
    if s != [] {
      MapMembers(s[..|s| - 1], id, f);
      assert s == s[..|s| - 1] + [s[|s| - 1]];
    }
  }

  lemma MapThinner(s: seq<Record>, t: seq<Record>, id: nat, f: Record -> Record)
    requires Thinner(s, t)
    ensures Thinner(MapId(s, id, f), MapId(t, id, f))
  {
    MapMembers(s, id, f);
    MapMembers(t, id, f);
  }

  lemma CreateThinner(cfg: Config, s: Store, t: Store, user: string, jti: string, now: int)
    requires SameMeaning(cfg, s, t, now) && Thinner(s.records, t.records)
    ensures Thinner(Step(s, cfg, Create(user, jti), now).records, Step(t, cfg, Create(user, jti), now).records)
  {
    var p := NotStaleOf(cfg, user, now);
    PrunedOfUser(cfg, s.records, user, now);
    PrunedOfUser(cfg, t.records, user, now);
    KeepThinner(s.records, t.records, p);
    var mine := Keep(Keep(s.records, p), OfUser(user));
    if mine != [] {
      KeepThinner(Keep(s.records, p), Keep(t.records, p), NotId(mine[OldestIndex(mine)].id));
    }
  }

  /** Of two stores of the same meaning, the thinner one stays the thinner one. */
  lemma ThinnerStep(cfg: Config, s: Store, t: Store, e: Event)
    requires SameMeaning(cfg, s, t, e.now) && Thinner(s.records, t.records)
    ensures Thinner(Step(s, cfg, e.op, e.now).records, Step(t, cfg, e.op, e.now).records)
  {
    var now := e.now;
    match e.op
    case Create(user, jti) => CreateThinner(cfg, s, t, user, jti, now);
    case Get(id) => KeepThinner(s.records, t.records, NotStaleId(cfg, id, now));
    case List(user) => KeepThinner(s.records, t.records, NotStaleOf(cfg, user, now));
    case Count(user) => KeepThinner(s.records, t.records, NotStaleOf(cfg, user, now));
    case Revoke(id, works) =>
      var p := NotStaleId(cfg, id, now);
      KeepThinner(s.records, t.records, p);
      KeepThinner(Keep(s.records, p), Keep(t.records, p), NotId(id));
    case Refresh(id) => MapThinner(s.records, t.records, id, RefreshRecord(cfg, now));
    case Touch(id) => MapThinner(s.records, t.records, id, TouchRecord(cfg, now));
    case Cleanup => KeepThinner(s.records, t.records, SweepAt(cfg, now));
  }

  /** What is safe to refresh among more records is safe to refresh among fewer, all through a run. */
  lemma {:induction false} ThinnerRuns(cfg: Config, s: Store, t: Store, run: seq<Event>, start: int, now: int)
    requires SameMeaning(cfg, s, t, start) && start <= now && Ordered(run) && Thinner(s.records, t.records)
    requires run != [] ==> start <= run[0].now && run[|run| - 1].now <= now
    requires RefreshesSafe(cfg, t, run)
    ensures RefreshesSafe(cfg, s, run) && Thinner(After(cfg, s, run).records, After(cfg, t, run).records)
  {
    if run != [] {
      var init, e := run[..|run| - 1], run[|run| - 1];
      RunPrefix(cfg, t, run);
      ThinnerRuns(cfg, s, t, init, start, e.now);
      SameMeaningRuns(cfg, s, t, init, start, e.now);
      ThinnerStep(cfg, After(cfg, s, init), After(cfg, t, init), e);
      SafeOneMore(cfg, s, run);
    }
  }

  lemma SafeOneMore(cfg: Config, st: Store, run: seq<Event>)
    requires run != [] && RefreshesSafe(cfg, st, run[..|run| - 1])
    requires run[|run| - 1].op.Refresh? ==>
               RefreshSafe(cfg, After(cfg, st, run[..|run| - 1]).records, run[|run| - 1].op.id, run[|run| - 1].now)
    ensures RefreshesSafe(cfg, st, run)
  {
    var init := run[..|run| - 1];
    forall i | 0 <= i < |run| && run[i].op.Refresh?
      ensures RefreshSafe(cfg, After(cfg, st, run[..i]).records, run[i].op.id, run[i].now)
    {
      if i < |init| {
        assert init[i] == run[i] && init[..i] == run[..i];
      }
    }
  }

  lemma ReadThins(cfg: Config, st: Store, read: Op, at: int)
    requires IsRead(read)
    ensures Thinner(Step(st, cfg, read, at).records, st.records)
  {
    var s := st.records;
    match read
    case Get(id) => KeepThinner(s, s, NotStaleId(cfg, id, at));
    case List(user) => KeepThinner(s, s, NotStaleOf(cfg, user, at));
    case Count(user) => KeepThinner(s, s, NotStaleOf(cfg, user, at));
    case Cleanup => KeepThinner(s, s, SweepAt(cfg, at));
  }

  /**
   A lookup, listing, count or cleanup inserted anywhere in a run of safe refreshes leaves the
   refreshes safe, and changes nothing that any later reader sees, whatever it deletes on the way.
   */
  lemma {:induction false} ReadsInvisible(cfg: Config, st: Store, read: Op, at: int, run: seq<Event>, now: int)
    requires IsRead(read) && at <= now && Ordered(run)
    requires run != [] ==> at <= run[0].now && run[|run| - 1].now <= now
    requires RefreshesSafe(cfg, st, run)
    ensures RefreshesSafe(cfg, Step(st, cfg, read, at), run)
    ensures SameMeaning(cfg, After(cfg, Step(st, cfg, read, at), run), After(cfg, st, run), now)
  {
    StepIsPure(cfg, st, read, at);
    ReadThins(cfg, st, read, at);
    ThinnerRuns(cfg, Step(st, cfg, read, at), st, run, at, now);
    SameMeaningRuns(cfg, Step(st, cfg, read, at), st, run, at, now);
  }

  // ----- What callers are told --------------------------------------------------------------

  datatype Answer =
    | NewId(id: nat)
    | Found(record: Option<Record>)
    | Listed(records: seq<Record>)
    | Counted(count: nat)
    | Succeeded(ok: bool)
    | Removed(count: nat)

  /** Dict lookup. */
  function FindId(s: seq<Record>, id: nat): Option<Record> {
    if s == [] then None
    else if s[|s| - 1].id == id then Some(s[|s| - 1])
    else FindId(s[..|s| - 1], id)
  }

  function FindLive(cfg: Config, s: seq<Record>, id: nat, now: int): Option<Record> {
    var found := FindId(s, id);
    if found.Some? && !Stale(cfg, found.value, now) then found else None
  }

  /** What each operation returns, read off the stored records. */
  function AnswerTo(st: Store, cfg: Config, op: Op, now: int): Answer {
    var s := st.records;
    match op
    case Create(_, _) => NewId(st.next)
    case Get(id) => Found(FindLive(cfg, s, id, now))
    case List(user) => Listed(Keep(s, LiveOfUser(cfg, user, now)))
    case Count(user) => Counted(|Keep(s, LiveOfUser(cfg, user, now))|)
    case Revoke(id, works) => Succeeded(works && FindLive(cfg, s, id, now).Some?)
    case Refresh(id) => Succeeded(FindId(s, id).Some?)
    case Touch(id) => var found := FindId(s, id); Succeeded(found.Some? && !Idle(cfg, found.value, now))
    case Cleanup => Removed(Max(0, |s| - |Keep(s, SweepAt(cfg, now))|))
  }

  /** The store as if stale records vanished at once. */
  function LiveStore(cfg: Config, st: Store, now: int): Store {
    st.(records := Live(cfg, st.records, now))
  }

  lemma {:induction false} FindMember(s: seq<Record>, id: nat)
    ensures FindId(s, id).Some? ==> FindId(s, id).value in s && FindId(s, id).value.id == id
    ensures FindId(s, id).None? ==> !HasId(s, id)
  {
    if s != [] {
      FindMember(s[..|s| - 1], id);
    }
  }

  lemma FindOnly(s: seq<Record>, r: Record)
    requires Distinct(s) && r in s
    ensures FindId(s, r.id) == Some(r)
  {
    FindMember(s, r.id);
  }

  lemma {:induction false} FindAmongLive(cfg: Config, s: seq<Record>, id: nat, now: int)
    requires Distinct(s)
    ensures FindId(Live(cfg, s, now), id) == FindLive(cfg, s, id, now)
  {
    FindMember(s, id);
    FindMember(Live(cfg, s, now), id);
    KeepMembers(s, LiveAt(cfg, now));
    var found := FindId(s, id);
    if found.Some? && !Stale(cfg, found.value, now) {
      assert found.value in Live(cfg, s, now);
    }
  }

  /** Lookups, listings, counts, creations and revocations answer from the live sessions alone. */
  predicate FromLive(op: Op) {
    !op.Refresh? && !op.Touch? && !op.Cleanup?
  }

  lemma AnswersFromLive(cfg: Config, st: Store, op: Op, now: int)
    requires Distinct(st.records) && FromLive(op)
    ensures AnswerTo(st, cfg, op, now) == AnswerTo(LiveStore(cfg, st, now), cfg, op, now)
  {
    var s, live := st.records, Live(cfg, st.records, now);
    match op
    case Create(_, _) =>
    case Get(id) => FindLiveTwice(cfg, s, id, now);
    case List(user) => KeepTwice(s, LiveAt(cfg, now), LiveOfUser(cfg, user, now), LiveOfUser(cfg, user, now));
    case Count(user) => KeepTwice(s, LiveAt(cfg, now), LiveOfUser(cfg, user, now), LiveOfUser(cfg, user, now));
    case Revoke(id, _) => FindLiveTwice(cfg, s, id, now);
  }

  lemma FindLiveTwice(cfg: Config, s: seq<Record>, id: nat, now: int)
    requires Distinct(s)
    ensures FindLive(cfg, Live(cfg, s, now), id, now) == FindLive(cfg, s, id, now)
  {
    FindAmongLive(cfg, s, id, now);
  }

  /** Touching answers as on the live sessions unless an expired record that is not idle is still stored. */
  lemma TouchAnswersIff(cfg: Config, st: Store, id: nat, now: int)
    requires Distinct(st.records)
    ensures AnswerTo(st, cfg, Touch(id), now) == AnswerTo(LiveStore(cfg, st, now), cfg, Touch(id), now)
            <==> RefreshSafe(cfg, st.records, id, now)
  {
    FindAmongLive(cfg, st.records, id, now);
    FindMember(st.records, id);
    forall r | r in st.records && r.id == id ensures FindId(st.records, id) == Some(r) {
      FindOnly(st.records, r);
    }
  }

  lemma TouchMeans(cfg: Config, s: seq<Record>, id: nat, now: int)
    requires Distinct(s)
    ensures FindId(s, id).Some? && !Idle(cfg, FindId(s, id).value, now) <==>
            exists r :: r in s && r.id == id && !Idle(cfg, r, now)
  {
    FindMember(s, id);
    forall r | r in s && r.id == id ensures FindId(s, id) == Some(r) {
      FindOnly(s, r);
    }
  }

  /** Refreshing answers as on the live sessions unless a stale record of that id is still stored. */
  lemma RefreshAnswersIff(cfg: Config, st: Store, id: nat, now: int)
    requires Distinct(st.records)
    ensures AnswerTo(st, cfg, Refresh(id), now) == AnswerTo(LiveStore(cfg, st, now), cfg, Refresh(id), now)
            <==> forall r :: r in st.records && r.id == id ==> !Stale(cfg, r, now)
  {
    FindAmongLive(cfg, st.records, id, now);
    FindMember(st.records, id);
    forall r | r in st.records && r.id == id ensures FindId(st.records, id) == Some(r) {
      FindOnly(st.records, r);
    }
  }

  lemma NothingToSweep(cfg: Config, s: seq<Record>, now: int)
    ensures Keep(Live(cfg, s, now), SweepAt(cfg, now)) == Live(cfg, s, now)
  {
    KeepMembers(s, LiveAt(cfg, now));
    KeepAll(Live(cfg, s, now), SweepAt(cfg, now));
  }

  lemma SweepsNone(cfg: Config, s: seq<Record>, now: int)
    ensures |Keep(s, SweepAt(cfg, now))| >= |s| <==> forall r :: r in s ==> !Sweepable(cfg, r, now)
  {
    if forall r :: r in s ==> !Sweepable(cfg, r, now) {
      KeepAll(s, SweepAt(cfg, now));
    } else {
      var r :| r in s && Sweepable(cfg, r, now);
      KeepLoses(s, SweepAt(cfg, now), r);
    }
  }

  /** Cleanup answers as on the live sessions, with zero, unless there is a record to sweep. */
  lemma CleanupAnswersIff(cfg: Config, st: Store, now: int)
    ensures AnswerTo(st, cfg, Cleanup, now) == AnswerTo(LiveStore(cfg, st, now), cfg, Cleanup, now) <==>
            forall r :: r in st.records ==> !Sweepable(cfg, r, now)
  {
    NothingToSweep(cfg, st.records, now);
    SweepsNone(cfg, st.records, now);
  }

  /** Two stores with the same live sessions, told apart by all three. */
  lemma AnswersDiffer(cfg: Config)
    requires cfg.idleTimeout == None
    ensures var s, t := Store([Record(0, "u", "j", 0, Some(10), None)], 1), Store([], 1);
            && SameMeaning(cfg, s, t, 20)
            && AnswerTo(s, cfg, Touch(0), 20) == Succeeded(true) && AnswerTo(t, cfg, Touch(0), 20) == Succeeded(false)
            && AnswerTo(s, cfg, Refresh(0), 20) == Succeeded(true)
            && AnswerTo(t, cfg, Refresh(0), 20) == Succeeded(false)
            && AnswerTo(s, cfg, Cleanup, 20) == Removed(1) && AnswerTo(t, cfg, Cleanup, 20) == Removed(0)
  {
    var r := Record(0, "u", "j", 0, Some(10), None);
    assert [r][..0] == [] && Keep([r][..0], LiveAt(cfg, 20)) == [] && Keep([r][..0], SweepAt(cfg, 20)) == [];
  }

  /** Ids are unused before they are handed out. */
  ghost predicate WellFormed(st: Store) {
    Distinct(st.records) && forall r :: r in st.records ==> r.id < st.next
  }

  lemma {:induction false} KeepDistinct(s: seq<Record>, p: Record -> bool)
    requires Distinct(s)
    ensures Distinct(Keep(s, p))
  {
    if s != [] {
      var init, last := s[..|s| - 1], s[|s| - 1];
      KeepDistinct(init, p);
      KeepMembers(init, p);
      var kept := Keep(init, p);
      forall i | 0 <= i < |kept| ensures kept[i].id != last.id {
        assert kept[i] in init;
      }
    }
  }

  lemma KeepWellFormed(st: Store, p: Record -> bool)
    requires WellFormed(st)
    ensures WellFormed(st.(records := Keep(st.records, p)))
  {
    KeepDistinct(st.records, p);
    KeepMembers(st.records, p);
  }

  lemma {:induction false} MapIds(s: seq<Record>, id: nat, f: Record -> Record)
    requires forall r :: f(r).id == r.id
    ensures |MapId(s, id, f)| == |s| && forall i :: 0 <= i < |s| ==> MapId(s, id, f)[i].id == s[i].id
  {
    if s != [] {
      MapIds(s[..|s| - 1], id, f);
    }
  }

  lemma MapWellFormed(st: Store, id: nat, f: Record -> Record)
    requires WellFormed(st) && forall r :: f(r).id == r.id
    ensures WellFormed(st.(records := MapId(st.records, id, f)))
  {
    MapIds(st.records, id, f);
  }

  lemma AdmitWellFormed(cfg: Config, st: Store, user: string)
    requires WellFormed(st)
    ensures WellFormed(st.(records := Admit(cfg, st.records, user)))
  {
    var mine := Keep(st.records, OfUser(user));
    if mine != [] {
      KeepWellFormed(st, NotId(mine[OldestIndex(mine)].id));
    }
  }

  lemma StepWellFormed(cfg: Config, st: Store, op: Op, now: int)
    requires WellFormed(st)
    ensures WellFormed(Step(st, cfg, op, now))
  {
    match op
    case Create(user, jti) =>
      var pruned := st.(records := Keep(st.records, NotStaleOf(cfg, user, now)));
      KeepWellFormed(st, NotStaleOf(cfg, user, now));
      AdmitWellFormed(cfg, pruned, user);
    case Get(id) => KeepWellFormed(st, NotStaleId(cfg, id, now));
    case List(user) => KeepWellFormed(st, NotStaleOf(cfg, user, now));
    case Count(user) => KeepWellFormed(st, NotStaleOf(cfg, user, now));
    case Revoke(id, works) =>
      KeepWellFormed(st, NotStaleId(cfg, id, now));
      KeepWellFormed(st.(records := Keep(st.records, NotStaleId(cfg, id, now))), NotId(id));
    case Refresh(id) => MapWellFormed(st, id, RefreshRecord(cfg, now));
    case Touch(id) => MapWellFormed(st, id, TouchRecord(cfg, now));
    case Cleanup => KeepWellFormed(st, SweepAt(cfg, now));
  }

  lemma {:induction false} RunWellFormed(cfg: Config, st: Store, run: seq<Event>)
    requires WellFormed(st)
    ensures WellFormed(After(cfg, st, run))
  {
    if run != [] {
      RunWellFormed(cfg, st, run[..|run| - 1]);
      StepWellFormed(cfg, After(cfg, st, run[..|run| - 1]), run[|run| - 1].op, run[|run| - 1].now);
    }
  }

  /**
   After the same run, two stores of the same meaning answer every lookup, listing, count, creation
   and revocation alike: none of these callers can tell what was lazily deleted.
   */
  lemma SameAnswers(cfg: Config, s: Store, t: Store, run: seq<Event>, start: int, op: Op, now: int)
    requires WellFormed(s) && WellFormed(t) && FromLive(op)
    requires SameMeaning(cfg, s, t, start) && start <= now && Ordered(run)
    requires run != [] ==> start <= run[0].now && run[|run| - 1].now <= now
    requires RefreshesSafe(cfg, s, run) && RefreshesSafe(cfg, t, run)
    ensures AnswerTo(After(cfg, s, run), cfg, op, now) == AnswerTo(After(cfg, t, run), cfg, op, now)
  {
    var u, v := After(cfg, s, run), After(cfg, t, run);
    SameMeaningRuns(cfg, s, t, run, start, now);
    RunWellFormed(cfg, s, run);
    RunWellFormed(cfg, t, run);
    AnswersFromLive(cfg, u, op, now);
    AnswersFromLive(cfg, v, op, now);
  }

  // ----- The cap --------------------------------------------------------------------------

  lemma {:induction false} KeepLoses(s: seq<Record>, p: Record -> bool, r: Record)
    requires r in s && !p(r)
    ensures |Keep(s, p)| < |s|
  {
    var init, last := s[..|s| - 1], s[|s| - 1];
    assert s == init + [last];
    if p(last) {
      KeepLoses(init, p, r);
    } else {
      KeepMembers(init, p);
    }
  }

  lemma KeepFewerOfUser(s: seq<Record>, p: Record -> bool, user: string)
    ensures |Keep(Keep(s, p), OfUser(user))| <= |Keep(s, OfUser(user))|
  {
    KeepsCommute(s, p, OfUser(user));
    KeepMembers(Keep(s, OfUser(user)), p);
  }

  lemma {:induction false} MapSameUsers(s: seq<Record>, id: nat, f: Record -> Record, user: string)
    requires forall r :: f(r).user == r.user
    ensures |Keep(MapId(s, id, f), OfUser(user))| == |Keep(s, OfUser(user))|
  {
    if s != [] {
      var last := s[|s| - 1];
      MapSameUsers(s[..|s| - 1], id, f, user);
      KeepLast(MapId(s[..|s| - 1], id, f), if last.id == id then f(last) else last, OfUser(user));
    }
  }

  lemma AdmitMakesRoom(cfg: Config, s: seq<Record>, user: string)
    requires |Keep(s, OfUser(user))| <= cfg.maxConcurrent
    ensures |Keep(Admit(cfg, s, user), OfUser(user))| < cfg.maxConcurrent
  {
    var mine := Keep(s, OfUser(user));
    if |mine| >= cfg.maxConcurrent {
      var oldest := mine[OldestIndex(mine)];
      KeepsCommute(s, NotId(oldest.id), OfUser(user));
      KeepLoses(mine, NotId(oldest.id), oldest);
    }
  }

  lemma CapStep(cfg: Config, st: Store, op: Op, now: int, user: string)
    requires |Keep(st.records, OfUser(user))| <= cfg.maxConcurrent
    ensures |Keep(Step(st, cfg, op, now).records, OfUser(user))| <= cfg.maxConcurrent
  {
    var s := st.records;
    match op
    case Create(u, jti) =>
      var pruned := Keep(s, NotStaleOf(cfg, u, now));
      KeepFewerOfUser(s, NotStaleOf(cfg, u, now), user);
      KeepLast(Admit(cfg, pruned, u), Fresh(cfg, st, u, jti, now), OfUser(user));
      if u == user {
        AdmitMakesRoom(cfg, pruned, user);
      } else {
        var mine := Keep(pruned, OfUser(u));
        if mine != [] {
          KeepFewerOfUser(pruned, NotId(mine[OldestIndex(mine)].id), user);
        }
      }
    case Get(id) => KeepFewerOfUser(s, NotStaleId(cfg, id, now), user);
    case List(u) => KeepFewerOfUser(s, NotStaleOf(cfg, u, now), user);
    case Count(u) => KeepFewerOfUser(s, NotStaleOf(cfg, u, now), user);
    case Revoke(id, works) =>
      KeepFewerOfUser(s, NotStaleId(cfg, id, now), user);
      KeepFewerOfUser(Keep(s, NotStaleId(cfg, id, now)), NotId(id), user);
    case Refresh(id) => MapSameUsers(s, id, RefreshRecord(cfg, now), user);
    case Touch(id) => MapSameUsers(s, id, TouchRecord(cfg, now), user);
    case Cleanup => KeepFewerOfUser(s, SweepAt(cfg, now), user);
  }

  /** In every run, refreshes of expired records included, no user has more stored records than allowed. */
  lemma {:induction false} CapHolds(cfg: Config, run: seq<Event>, user: string)
    ensures |Keep(After(cfg, Store([], 0), run).records, OfUser(user))| <= cfg.maxConcurrent
  {
    if run != [] {
      var init, e := run[..|run| - 1], run[|run| - 1];
      CapHolds(cfg, init, user);
      CapStep(cfg, After(cfg, Store([], 0), init), e.op, e.now, user);
    }
  }

  /** Under the cap, `create` evicts only when exactly the maximum are live, and then the earliest created. */
  lemma EvictionIsOldest(cfg: Config, st: Store, user: string, now: int)
    requires |Keep(st.records, OfUser(user))| <= cfg.maxConcurrent
    ensures var pruned := Keep(st.records, NotStaleOf(cfg, user, now));
            var live := Keep(Live(cfg, st.records, now), OfUser(user));
            if |live| < cfg.maxConcurrent then Admit(cfg, pruned, user) == pruned
            else
              && |live| == cfg.maxConcurrent
              && exists oldest :: oldest in live && (forall r :: r in live ==> oldest.created <= r.created) &&
                   Admit(cfg, pruned, user) == Keep(pruned, NotId(oldest.id))
  {
    PrunedOfUser(cfg, st.records, user, now);
    KeepFewerOfUser(st.records, NotStaleOf(cfg, user, now), user);
    var live := Keep(Live(cfg, st.records, now), OfUser(user));
    if |live| >= cfg.maxConcurrent {
      assert live[OldestIndex(live)] in live;
    }
  }

  // ----- A run of creates keeps the newest ------------------------------------------------

  datatype Creation = Creation(user: string, jti: string, now: int)

  function Creates(cs: seq<Creation>): seq<Event> {
    if cs == [] then []
    else Creates(cs[..|cs| - 1]) + [Event(Create(cs[|cs| - 1].user, cs[|cs| - 1].jti), cs[|cs| - 1].now)]
  }

  function CreatedBy(cfg: Config, c: Creation, id: nat): Record {
    Record(id, c.user, c.jti, c.now, Some(c.now + cfg.ttl), None)
  }

  /** Every session ever created, in order. */
  function Created(cfg: Config, cs: seq<Creation>): seq<Record> {
    if cs == [] then []
    else Created(cfg, cs[..|cs| - 1]) + [CreatedBy(cfg, cs[|cs| - 1], |cs| - 1)]
  }

  function Newest(s: seq<Record>, n: nat): seq<Record> {
    if |s| <= n then s else s[|s| - n..]
  }

  /** Nothing created by `cs` goes stale before its end. */
  ghost predicate NothingStale(cfg: Config, cs: seq<Creation>, now: int) {
    && (forall i, j :: 0 <= i < j < |cs| ==> cs[i].now <= cs[j].now)
    && (forall c :: c in cs ==>
          c.now <= now < c.now + cfg.ttl &&
          (cfg.idleTimeout.Some? && cfg.idleTimeout.value > 0 ==> now - c.now <= cfg.idleTimeout.value))
  }

  lemma {:induction false} CreatedShape(cfg: Config, cs: seq<Creation>)
    ensures |Created(cfg, cs)| == |cs|
    ensures forall i :: 0 <= i < |cs| ==>
              Created(cfg, cs)[i] == CreatedBy(cfg, cs[i], i)
  {
    if cs != [] {
      CreatedShape(cfg, cs[..|cs| - 1]);
    }
  }

  ghost predicate Ascending(s: seq<Record>) {
    forall i, j :: 0 <= i < j < |s| ==> s[i].id < s[j].id && s[i].created <= s[j].created
  }

  lemma {:induction false} KeepPreservesOrder(s: seq<Record>, p: Record -> bool)
    requires Ascending(s)
    ensures Ascending(Keep(s, p))
  {
    if s != [] {
      var init := s[..|s| - 1];
      KeepPreservesOrder(init, p);
      KeepMembers(init, p);
      var k := Keep(init, p);
      forall i | 0 <= i < |k| ensures k[i].id < s[|s| - 1].id && k[i].created <= s[|s| - 1].created {
        assert k[i] in init;
      }
    }
  }

  lemma EvictFirst(live: seq<Record>)
    requires live != [] && Ascending(live)
    ensures OldestIndex(live) == 0
    ensures Keep(live, NotId(live[0].id)) == live[1..]
  {
    var i := OldestIndex(live);
    KeepFirstOut(live, live[0].id);
  }

  lemma NewestAscending(s: seq<Record>, n: nat)
    requires Ascending(s)
    ensures Ascending(Newest(s, n))
  {
    var k := Newest(s, n);
    var d := |s| - |k|;
    forall i, j | 0 <= i < j < |k| ensures k[i].id < k[j].id && k[i].created <= k[j].created {
      assert k[i] == s[d + i] && k[j] == s[d + j];
    }
  }

  lemma NewestTail(s: seq<Record>, n: pos)
    requires |Newest(s, n)| >= n
    ensures Newest(s, n) != [] && Newest(s, n)[1..] == Newest(s, n - 1)
  {}

  lemma {:induction false} KeepFirstOut(s: seq<Record>, id: nat)
    requires s != [] && s[0].id == id && forall i :: 0 < i < |s| ==> s[i].id != id
    ensures Keep(s, NotId(id)) == s[1..]
  {
    if |s| > 1 {
      KeepFirstOut(s[..|s| - 1], id);
      assert s[..|s| - 1][1..] + [s[|s| - 1]] == s[1..];
    }
  }

  /** `s` holds exactly the newest `n` of the user's sessions in `all`. */
  ghost predicate HoldsNewest(s: seq<Record>, all: seq<Record>, user: string, n: nat) {
    Keep(s, OfUser(user)) == Newest(Keep(all, OfUser(user)), n)
  }

  /** Each user is left with exactly the newest of their sessions, in order of creation. */
  lemma {:induction false} CreatesKeepNewest(cfg: Config, cs: seq<Creation>, now: int, user: string)
    requires NothingStale(cfg, cs, now)
    ensures var st := After(cfg, Store([], 0), Creates(cs));
            && st.next == |cs| && Subset(st.records, Created(cfg, cs))
            && HoldsNewest(st.records, Created(cfg, cs), user, cfg.maxConcurrent)
  {
    if cs != [] {
      var init, c := cs[..|cs| - 1], cs[|cs| - 1];
      NothingStaleBefore(cfg, cs, now);
      CreatesKeepNewest(cfg, init, c.now, user);
      CreatesKeepNewest(cfg, init, c.now, c.user);
      AfterCreates(cfg, cs);
      CreateKeepsNewest(cfg, cs, After(cfg, Store([], 0), Creates(init)), user);
    }
  }

  lemma AfterCreates(cfg: Config, cs: seq<Creation>)
    requires cs != []
    ensures var c := cs[|cs| - 1];
            After(cfg, Store([], 0), Creates(cs)) ==
            Step(After(cfg, Store([], 0), Creates(cs[..|cs| - 1])), cfg, Create(c.user, c.jti), c.now)
  {
    assert Creates(cs)[..|Creates(cs)| - 1] == Creates(cs[..|cs| - 1]);
  }

  predicate Subset(s: seq<Record>, t: seq<Record>) {
    forall r :: r in s ==> r in t
  }

  lemma NothingStaleBefore(cfg: Config, cs: seq<Creation>, now: int)
    requires NothingStale(cfg, cs, now) && cs != []
    ensures NothingStale(cfg, cs[..|cs| - 1], cs[|cs| - 1].now)
  {
    var init, c := cs[..|cs| - 1], cs[|cs| - 1];
    forall d | d in init ensures d in cs && d.now <= c.now <= now {
      var i :| 0 <= i < |init| && init[i] == d;
      assert cs[i] == d && c in cs;
    }
  }

  lemma CreatedFacts(cfg: Config, cs: seq<Creation>, now: int)
    requires NothingStale(cfg, cs, now)
    ensures var all := Created(cfg, cs);
            && (forall r :: r in all ==> !Stale(cfg, r, now))
            && Ascending(all)
  {
    CreatedShape(cfg, cs);
    var all := Created(cfg, cs);
    forall r | r in all ensures !Stale(cfg, r, now) {
      var i :| 0 <= i < |all| && all[i] == r;
      assert cs[i] in cs;
    }
  }

  lemma CreateWithoutPruning(cfg: Config, st: Store, c: Creation)
    requires forall r :: r in st.records ==> !Stale(cfg, r, c.now)
    ensures Step(st, cfg, Create(c.user, c.jti), c.now) ==
            Store(Admit(cfg, st.records, c.user) + [Fresh(cfg, st, c.user, c.jti, c.now)], st.next + 1)
  {
    KeepAll(st.records, NotStaleOf(cfg, c.user, c.now));
  }

  lemma {:induction false} CreateKeepsNewest(cfg: Config, cs: seq<Creation>, st: Store, user: string)
    requires cs != [] && NothingStale(cfg, cs[..|cs| - 1], cs[|cs| - 1].now) && st.next == |cs| - 1
    requires Subset(st.records, Created(cfg, cs[..|cs| - 1]))
    requires HoldsNewest(st.records, Created(cfg, cs[..|cs| - 1]), user, cfg.maxConcurrent)
    requires HoldsNewest(st.records, Created(cfg, cs[..|cs| - 1]), cs[|cs| - 1].user, cfg.maxConcurrent)
    ensures var c := cs[|cs| - 1];
            var t := Step(st, cfg, Create(c.user, c.jti), c.now);
            t.next == |cs| && Subset(t.records, Created(cfg, cs)) &&
            HoldsNewest(t.records, Created(cfg, cs), user, cfg.maxConcurrent)
  {
    var c, before := cs[|cs| - 1], Created(cfg, cs[..|cs| - 1]);
    CreatedFacts(cfg, cs[..|cs| - 1], c.now);
    CreationAdds(cfg, cs, st);
    AdmitAndAdd(cfg, st.records, before, CreatedBy(cfg, c, |cs| - 1), user);
  }

  lemma {:induction false} CreationAdds(cfg: Config, cs: seq<Creation>, st: Store)
    requires cs != [] && st.next == |cs| - 1 && forall r :: r in st.records ==> !Stale(cfg, r, cs[|cs| - 1].now)
    ensures var c, added := cs[|cs| - 1], CreatedBy(cfg, cs[|cs| - 1], |cs| - 1);
            && Step(st, cfg, Create(c.user, c.jti), c.now) == Store(Admit(cfg, st.records, c.user) + [added], |cs|)
            && Created(cfg, cs) == Created(cfg, cs[..|cs| - 1]) + [added]
  {
    CreateWithoutPruning(cfg, st, cs[|cs| - 1]);
  }

  lemma {:induction false} AdmitAndAdd(cfg: Config, s: seq<Record>, all: seq<Record>, added: Record, user: string)
    requires Ascending(all) && Subset(s, all)
    requires HoldsNewest(s, all, user, cfg.maxConcurrent) && HoldsNewest(s, all, added.user, cfg.maxConcurrent)
    ensures Subset(Admit(cfg, s, added.user) + [added], all + [added])
    ensures HoldsNewest(Admit(cfg, s, added.user) + [added], all + [added], user, cfg.maxConcurrent)
  {
    AdmitSubset(cfg, s, added.user);
    AdmitNewest(cfg, s, all, added.user, user);
    AddNewest(Admit(cfg, s, added.user), all, added, cfg.maxConcurrent, user);
  }

  lemma AdmitNewest(cfg: Config, s: seq<Record>, all: seq<Record>, creator: string, user: string)
    requires Ascending(all) && Subset(s, all)
    requires HoldsNewest(s, all, user, cfg.maxConcurrent) && HoldsNewest(s, all, creator, cfg.maxConcurrent)
    ensures HoldsNewest(Admit(cfg, s, creator), all, user,
                        if creator == user then cfg.maxConcurrent - 1 else cfg.maxConcurrent)
  {
    if creator == user {
      AdmitOwn(cfg, s, all, user);
    } else {
      AdmitOther(cfg, s, all, creator, user);
    }
  }

  lemma AddNewest(s: seq<Record>, all: seq<Record>, added: Record, n: pos, user: string)
    requires HoldsNewest(s, all, user, if added.user == user then n - 1 else n)
    ensures HoldsNewest(s + [added], all + [added], user, n)
  {
    KeepLast(s, added, OfUser(user));
    KeepLast(all, added, OfUser(user));
  }

  lemma AdmitSubset(cfg: Config, s: seq<Record>, creator: string)
    ensures Subset(Admit(cfg, s, creator), s)
  {
    var mine := Keep(s, OfUser(creator));
    if mine != [] {
      KeepMembers(s, NotId(mine[OldestIndex(mine)].id));
    }
  }

  /** Making room drops the creator's oldest session... */
  lemma AdmitOwn(cfg: Config, s: seq<Record>, all: seq<Record>, user: string)
    requires Ascending(all) && HoldsNewest(s, all, user, cfg.maxConcurrent)
    ensures HoldsNewest(Admit(cfg, s, user), all, user, cfg.maxConcurrent - 1)
  {
    var mine := Keep(s, OfUser(user));
    KeepPreservesOrder(all, OfUser(user));
    NewestAscending(Keep(all, OfUser(user)), cfg.maxConcurrent);
    if |mine| >= cfg.maxConcurrent {
      NewestTail(Keep(all, OfUser(user)), cfg.maxConcurrent);
      EvictFirst(mine);
      KeepsCommute(s, NotId(mine[0].id), OfUser(user));
    }
  }

  /** ... and nobody else's. */
  lemma AdmitOther(cfg: Config, s: seq<Record>, all: seq<Record>, creator: string, user: string)
    requires Ascending(all) && Subset(s, all) && creator != user && HoldsNewest(s, all, user, cfg.maxConcurrent)
    ensures HoldsNewest(Admit(cfg, s, creator), all, user, cfg.maxConcurrent)
  {
    var mine := Keep(s, OfUser(creator));
    if |mine| >= cfg.maxConcurrent {
      var oldest := mine[OldestIndex(mine)];
      KeepMembers(s, OfUser(creator));
      KeepMembers(s, OfUser(user));
      assert oldest in mine;
      KeepsCommute(s, NotId(oldest.id), OfUser(user));
      forall r | r in Keep(s, OfUser(user)) ensures r.id != oldest.id {
        if r.id == oldest.id {
          SameIdSame(all, r, oldest);
        }
      }
      KeepAll(Keep(s, OfUser(user)), NotId(oldest.id));
    }
  }

  lemma SameIdSame(all: seq<Record>, q: Record, r: Record)
    requires Ascending(all) && q in all && r in all && q.id == r.id
    ensures q == r
  {}
}
