/** The in-memory session backend and its manager as objects, each method a step of the session store. */
module SessionBackend {
  import opened Prelude
  import opened Sessions

  function NotIn(ids: seq<nat>): Record -> bool { (r: Record) => r.id !in ids }

  lemma {:induction false} MapAt(s: seq<Record>, i: nat, f: Record -> Record)
    requires Distinct(s) && i < |s|
    ensures MapId(s, s[i].id, f) == s[i := f(s[i])]
  {
    var init, last := s[..|s| - 1], s[|s| - 1];
    if i == |init| {
      MapAbsent(init, last.id, f);
    } else {
      MapAt(init, i, f);
    }
  }

  lemma {:induction false} MapAbsent(s: seq<Record>, id: nat, f: Record -> Record)
    requires forall r :: r in s ==> r.id != id
    ensures MapId(s, id, f) == s
  {
    if s != [] {
      MapAbsent(s[..|s| - 1], id, f);
    }
  }

  /** A touch that fails leaves the store alone. */
  lemma TouchFails(cfg: Config, s: seq<Record>, id: nat, now: int)
    requires Distinct(s) && (FindId(s, id).None? || Idle(cfg, FindId(s, id).value, now))
    ensures MapId(s, id, TouchRecord(cfg, now)) == s
  {
    FindMember(s, id);
    if FindId(s, id).None? {
      MapAbsent(s, id, TouchRecord(cfg, now));
    } else {
      var i :| 0 <= i < |s| && s[i] == FindId(s, id).value;
      MapAt(s, i, TouchRecord(cfg, now));
    }
  }

  class InMemorySessionBackend {
    const cfg: Config
    var sessions: seq<Record>
    var next: nat

    ghost function S(): Store
      reads this
    {
      Store(sessions, next)
    }

    ghost predicate Valid()
      reads this
    {
      WellFormed(S())
    }

    constructor (cfg: Config)
      ensures Valid() && S() == Store([], 0) && this.cfg == cfg
    {
      this.cfg := cfg;
      sessions, next := [], 0;
    }

    method CreateSession(user: string, jti: string, now: int) returns (id: nat)
      requires Valid()
      modifies this
      ensures Valid() && id == old(next) && next == id + 1
      ensures sessions == old(sessions) + [Fresh(cfg, old(S()), user, jti, now)]
    {
      id := next;
      sessions := sessions + [Record(id, user, jti, now, Some(now + cfg.ttl), None)];
      next := next + 1;
    }

    /** Dict lookup. */
    method Find(id: nat) returns (index: Option<nat>)
      requires Valid()
      ensures index.Some? ==> index.value < |sessions| && sessions[index.value].id == id
      ensures index.None? ==> !HasId(sessions, id)
      ensures FindId(sessions, id) == if index.None? then None else Some(sessions[index.value])
    {
      FindMember(sessions, id);
      for i := 0 to |sessions|
        invariant forall j :: 0 <= j < i ==> sessions[j].id != id
      {
        if sessions[i].id == id {
          FindOnly(sessions, sessions[i]);
          return Some(i);
        }
      }
      return None;
    }

    /** `del self._sessions[id]` */
    method Delete(id: nat)
      requires Valid()
      modifies this`sessions
      ensures Valid() && sessions == Keep(old(sessions), NotId(id))
    {
      KeepDistinct(sessions, NotId(id));
      KeepMembers(sessions, NotId(id));
      sessions := Keep(sessions, NotId(id));
    }

    /** Assigns to a field of the record at index `i`; `f` says what the assignment does. */
    method Assign(i: nat, r: Record, ghost f: Record -> Record)
      requires Valid() && i < |sessions| && r == f(sessions[i]) && r.id == sessions[i].id
      modifies this`sessions
      ensures Valid() && sessions == MapId(old(sessions), r.id, f)
    {
      MapAt(sessions, i, f);
      assert sessions[i] in sessions;
      sessions := sessions[i := r];
    }

    method DeleteAll(ids: seq<nat>)
      requires Valid()
      modifies this`sessions
      ensures Valid() && sessions == Keep(old(sessions), NotIn(ids))
    {
      KeepAll(sessions, NotIn([]));
      for i := 0 to |ids|
        invariant Valid() && sessions == Keep(old(sessions), NotIn(ids[..i]))
      {
        KeepTwice(old(sessions), NotIn(ids[..i]), NotId(ids[i]), NotIn(ids[..i + 1]));
        Delete(ids[i]);
      }
      assert ids[..|ids|] == ids;
    }

    /** Splits a user's records into live ones and the ids of stale ones. */
    method Scan(user: string, now: int) returns (live: seq<Record>, stale: seq<nat>)
      requires Valid()
      ensures live == Keep(Live(cfg, sessions, now), OfUser(user)) == Keep(sessions, LiveOfUser(cfg, user, now))
      ensures forall r :: r in sessions ==> (r.id in stale <==> r.user == user && Stale(cfg, r, now))
    {
      live, stale := [], [];
      for i := 0 to |sessions|
        invariant live == Keep(sessions[..i], LiveOfUser(cfg, user, now))
        invariant forall j :: 0 <= j < i ==>
                    (sessions[j].id in stale <==> sessions[j].user == user && Stale(cfg, sessions[j], now))
        invariant forall id :: id in stale ==> exists j :: 0 <= j < i && sessions[j].id == id
      {
        var r := sessions[i];
        assert sessions[..i + 1][..i] == sessions[..i];
        if r.user == user {
          if Stale(cfg, r, now) {
            stale := stale + [r.id];
          } else {
            live := live + [r];
          }
        }
      }
      assert sessions[..|sessions|] == sessions;
      KeepTwice(sessions, LiveAt(cfg, now), OfUser(user), LiveOfUser(cfg, user, now));
    }

    /** Scans, then deletes what was stale. */
    method ScanAndPrune(user: string, now: int) returns (live: seq<Record>)
      requires Valid()
      modifies this`sessions
      ensures Valid() && live == Keep(Live(cfg, old(sessions), now), OfUser(user))
      ensures live == Keep(old(sessions), LiveOfUser(cfg, user, now))
      ensures sessions == Keep(old(sessions), NotStaleOf(cfg, user, now))
    {
      var stale;
      live, stale := Scan(user, now);
      KeepSame(sessions, NotIn(stale), NotStaleOf(cfg, user, now));
      DeleteAll(stale);
    }

    method ListSessions(user: string, now: int) returns (live: seq<Record>)
      requires Valid()
      modifies this
      ensures Valid() && S() == Step(old(S()), cfg, List(user), now)
      ensures Listed(live) == AnswerTo(old(S()), cfg, List(user), now)
      ensures live == Keep(Live(cfg, old(sessions), now), OfUser(user))
    {
      live := ScanAndPrune(user, now);
    }

    method CountSessions(user: string, now: int) returns (count: nat)
      requires Valid()
      modifies this
      ensures Valid() && S() == Step(old(S()), cfg, Count(user), now)
      ensures Counted(count) == AnswerTo(old(S()), cfg, Count(user), now)
      ensures count == |Keep(Live(cfg, old(sessions), now), OfUser(user))|
    {
      var live := ScanAndPrune(user, now);
      count := |live|;
    }

    /** Deletes the live session created first; `None` if the user has none. */
    method RevokeOldest(user: string, now: int) returns (revoked: Option<nat>)
      requires Valid()
      modifies this
      ensures Valid() && next == old(next)
      ensures var live := Keep(Live(cfg, old(sessions), now), OfUser(user));
              && sessions == Evict(Keep(old(sessions), NotStaleOf(cfg, user, now)), live)
              && revoked == if live == [] then None else Some(live[OldestIndex(live)].id)
    {
      var live := ScanAndPrune(user, now);
      if live == [] {
        return None;
      }
      var oldest := live[OldestIndex(live)];
      Delete(oldest.id);
      return Some(oldest.id);
    }

    method GetSession(id: nat, now: int) returns (found: Option<Record>)
      requires Valid()
      modifies this
      ensures Valid() && S() == Step(old(S()), cfg, Get(id), now)
      ensures Found(found) == AnswerTo(old(S()), cfg, Get(id), now)
      ensures found.Some? <==> HasId(Live(cfg, old(sessions), now), id)
      ensures found.Some? ==>
                found.value in Live(cfg, old(sessions), now) && found.value.id == id && found.value in sessions
    {
      KeepMembers(sessions, LiveAt(cfg, now));
      var index := Find(id);
      if index.None? {
        KeepAll(sessions, NotStaleId(cfg, id, now));
        return None;
      }
      var r := sessions[index.value];
      assert r in sessions;
      if Expired(r, now) || Idle(cfg, r, now) {
        KeepSame(sessions, NotId(id), NotStaleId(cfg, id, now));
        Delete(id);
        return None;
      }
      KeepAll(sessions, NotStaleId(cfg, id, now));
      return Some(r);
    }

    method RevokeSession(id: nat) returns (found: bool)
      requires Valid()
      modifies this
      ensures Valid() && next == old(next)
      ensures found == HasId(old(sessions), id) && sessions == Keep(old(sessions), NotId(id))
    {
      var index := Find(id);
      if index.None? {
        KeepAll(sessions, NotId(id));
        return false;
      }
      assert sessions[index.value] in sessions;
      Delete(id);
      return true;
    }

    method RefreshSession(id: nat, now: int) returns (found: bool)
      requires Valid()
      modifies this
      ensures Valid() && S() == Step(old(S()), cfg, Refresh(id), now)
      ensures Succeeded(found) == AnswerTo(old(S()), cfg, Refresh(id), now)
      ensures found == HasId(old(sessions), id)
    {
      var index := Find(id);
      if index.None? {
        MapAbsent(sessions, id, RefreshRecord(cfg, now));
        return false;
      }
      var i := index.value;
      assert sessions[i] in sessions;
      Assign(i, sessions[i].(expires := Some(now + cfg.ttl)), RefreshRecord(cfg, now));
      return true;
    }

    method AssignActivity(id: nat, now: int) returns (ok: bool)
      requires Valid()
      modifies this`sessions
      ensures Valid() && sessions == MapId(old(sessions), id, TouchRecord(cfg, now))
      ensures var found := FindId(old(sessions), id); ok == (found.Some? && !Idle(cfg, found.value, now))
    {
      var index := Find(id);
      if index.None? || Idle(cfg, sessions[index.value], now) {
        TouchFails(cfg, sessions, id, now);
        return false;
      }
      var i := index.value;
      Assign(i, sessions[i].(lastActivity := Some(now)), TouchRecord(cfg, now));
      return true;
    }

    /** `false` where the source raises `SessionNotFound`. */
    method TouchSession(id: nat, now: int) returns (ok: bool)
      requires Valid()
      modifies this
      ensures Valid() && S() == Step(old(S()), cfg, Touch(id), now)
      ensures Succeeded(ok) == AnswerTo(old(S()), cfg, Touch(id), now)
      ensures ok <==> exists r :: r in old(sessions) && r.id == id && !Idle(cfg, r, now)
    {
      TouchMeans(cfg, sessions, id, now);
      ok := AssignActivity(id, now);
    }

    method CleanupExpired(now: int) returns (removed: nat)
      requires Valid()
      modifies this
      ensures Valid() && S() == Step(old(S()), cfg, Cleanup, now) && removed == |old(sessions)| - |sessions|
      ensures Removed(removed) == AnswerTo(old(S()), cfg, Cleanup, now)
    {
      var stale := CollectStale(now);
      KeepSame(sessions, NotIn(stale), SweepAt(cfg, now));
      DeleteAll(stale);
      removed := |stale|;
    }

    /** The ids of every record the sweep removes, each once. */
    method CollectStale(now: int) returns (stale: seq<nat>)
      requires Valid()
      ensures forall r :: r in sessions ==> (r.id in stale <==> Sweepable(cfg, r, now))
      ensures |stale| + |Keep(sessions, SweepAt(cfg, now))| == |sessions|
    {
      stale := [];
      for i := 0 to |sessions|
        invariant |stale| + |Keep(sessions[..i], SweepAt(cfg, now))| == i
        invariant forall j :: 0 <= j < i ==> (sessions[j].id in stale <==> Sweepable(cfg, sessions[j], now))
        invariant forall id :: id in stale ==> exists j :: 0 <= j < i && sessions[j].id == id
      {
        var r := sessions[i];
        assert sessions[..i + 1][..i] == sessions[..i];
        if (r.expires.Some? && r.expires.value < now) || Idle(cfg, r, now) {
          stale := stale + [r.id];
        }
      }
      assert sessions[..|sessions|] == sessions;
    }
  }

  class SessionManager {
    const backend: InMemorySessionBackend

    constructor (backend: InMemorySessionBackend)
      ensures this.backend == backend
    {
      this.backend := backend;
    }

    method CreateFor(user: string, jti: string, now: int) returns (id: nat)
      requires backend.Valid()
      modifies backend
      ensures backend.Valid() && backend.S() == Step(old(backend.S()), backend.cfg, Create(user, jti), now)
      ensures id == old(backend.next)
    {
      MakeRoom(user, now);
      id := backend.CreateSession(user, jti, now);
    }

    /** Counts the user's live sessions and evicts the oldest if the maximum is reached. */
    method MakeRoom(user: string, now: int)
      requires backend.Valid()
      modifies backend
      ensures backend.Valid() && backend.next == old(backend.next)
      ensures backend.sessions ==
              Admit(backend.cfg, Keep(old(backend.sessions), NotStaleOf(backend.cfg, user, now)), user)
    {
      PruneTwice(backend.cfg, backend.sessions, user, now);
      var count := backend.CountSessions(user, now);
      ghost var pruned := backend.sessions;
      assert count == |Keep(pruned, OfUser(user))|;
      if count >= backend.cfg.maxConcurrent {
        var revoked := backend.RevokeOldest(user, now);
        assert backend.sessions == Evict(pruned, Keep(pruned, OfUser(user)));
      }
    }

    /**
     Blacklists the session's token first; if that fails the session stays.  `blacklist` is `None`
     without a callback, and otherwise says whether calling it succeeds.
     */
    method RevokeById(id: nat, blacklist: Option<bool>, now: int)
      returns (revoked: bool, blacklisted: Option<(string, nat)>)
      requires backend.Valid()
      modifies backend
      ensures backend.Valid()
      ensures backend.S() == Step(old(backend.S()), backend.cfg, Revoke(id, blacklist != Some(false)), now)
      ensures revoked <==> blacklist != Some(false) && HasId(Live(backend.cfg, old(backend.sessions), now), id)
      ensures Succeeded(revoked) == AnswerTo(old(backend.S()), backend.cfg, Revoke(id, blacklist != Some(false)), now)
      ensures blacklisted.Some? <==> revoked && blacklist.Some?
      ensures blacklisted.Some? ==> exists r ::
                r in Live(backend.cfg, old(backend.sessions), now) && r.id == id &&
                blacklisted.value == (r.jti, JtiTtl(r, now))
    {
      blacklisted := None;
      var found := backend.GetSession(id, now);
      assert found == FindLive(backend.cfg, old(backend.sessions), id, now);
      if found.None? {
        GoneAlready(backend.cfg, old(backend.sessions), id, now);
        return false, None;
      }
      if blacklist.Some? {
        if !blacklist.value {
          return false, None;
        }
        blacklisted := Some((found.value.jti, JtiTtl(found.value, now)));
      }
      revoked := backend.RevokeSession(id);
      assert revoked;
    }
  }

  /** How long a revoked session's token stays blacklisted; a zero expiry counts as none. */
  function JtiTtl(r: Record, now: int): nat {
    if r.expires.Some? && r.expires.value != 0 then Max(0, r.expires.value - now) else 3600
  }

  /** Once pruned, a user's records are the live ones, and pruning again changes nothing. */
  lemma PruneTwice(cfg: Config, s: seq<Record>, user: string, now: int)
    ensures var pruned := Keep(s, NotStaleOf(cfg, user, now));
            && Keep(pruned, NotStaleOf(cfg, user, now)) == pruned
            && Keep(Live(cfg, pruned, now), OfUser(user)) == Keep(pruned, OfUser(user))
            && Keep(Live(cfg, s, now), OfUser(user)) == Keep(pruned, OfUser(user))
  {
    var p := NotStaleOf(cfg, user, now);
    KeepTwice(s, p, p, p);
    PrunedOfUser(cfg, s, user, now);
    DroppingStale(cfg, s, p, now);
  }

  lemma GoneAlready(cfg: Config, s: seq<Record>, id: nat, now: int)
    requires !HasId(Live(cfg, s, now), id)
    ensures var looked := Keep(s, NotStaleId(cfg, id, now)); Keep(looked, NotId(id)) == looked
  {
    var looked := Keep(s, NotStaleId(cfg, id, now));
    KeepMembers(s, NotStaleId(cfg, id, now));
    KeepMembers(s, LiveAt(cfg, now));
    forall r | r in looked ensures r.id != id {
      assert r.id == id ==> r in Live(cfg, s, now);
    }
    KeepAll(looked, NotId(id));
  }
}
