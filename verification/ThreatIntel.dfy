/**
 Threat-intelligence feeds: a TTL map keyed by (address, feed), the derived set of addresses seen
 by any feed, and the blocklist kept in step with them by each refresh.

 `excluded` is the exclusion test of the configuration; addresses are opaque strings.
 */
module ThreatIntel {
  import opened Prelude

  type Key = (string, string)
  type TtlMap = map<Key, int>

  /** One successful fetch; recording and evicting each read the clock. */
  datatype Fetch = Fetch(ips: seq<string>, feed: string, ttlSeconds: int, fetchedAt: int, evictedAt: int) {
    function Expiration(): int { fetchedAt + ttlSeconds }
  }

  datatype State = State(ttl: TtlMap, seen: set<string>, blocked: set<string>)

  function Tracked(ttl: TtlMap): set<string> {
    set k | k in ttl :: k.0
  }

  /** `_seen_ips` is exactly the addresses with some entry. */
  ghost predicate SeenExact(ttl: TtlMap, seen: set<string>) {
    seen == Tracked(ttl)
  }

  // ----- Operations on values -------------------------------------------------------------

  function Wanted(excluded: string -> bool, ips: seq<string>): set<string> {
    set ip | ip in ips && !excluded(ip)
  }

  /** Every wanted address gets (or extends) its entry for this feed. */
  function Recorded(ttl: TtlMap, wanted: set<string>, feed: string, expiration: int): TtlMap {
    ttl + map k | k in EntriesOf(wanted, feed) :: expiration
  }

  function Recording(ttl: TtlMap, excluded: string -> bool, f: Fetch): TtlMap {
    Recorded(ttl, Wanted(excluded, f.ips), f.feed, f.Expiration())
  }

  function EntriesOf(wanted: set<string>, feed: string): set<Key> {
    set ip | ip in wanted :: (ip, feed)
  }

  function ExpiredKeys(ttl: TtlMap, now: int): set<Key> {
    set k | k in ttl && ttl[k] <= now
  }

  function IpsOf(keys: set<Key>): set<string> {
    set k | k in keys :: k.0
  }

  /** Recording, blocking what is new, evicting, and unblocking the address of every evicted entry. */
  function Refresh(s: State, excluded: string -> bool, f: Fetch): State {
    var wanted := Wanted(excluded, f.ips);
    var recorded := Recording(s.ttl, excluded, f);
    var expired := ExpiredKeys(recorded, f.evictedAt);
    var kept := recorded - expired;
    State(kept, Tracked(kept), (s.blocked + (wanted - s.seen)) - IpsOf(expired))
  }

  function Purge(s: State): State {
    State(map[], {}, s.blocked - Tracked(s.ttl))
  }

  lemma RecordedTracked(ttl: TtlMap, wanted: set<string>, feed: string, expiration: int)
    ensures Tracked(Recorded(ttl, wanted, feed, expiration)) == Tracked(ttl) + wanted
  {
    var r := Recorded(ttl, wanted, feed, expiration);
    forall ip ensures ip in Tracked(r) <==> ip in Tracked(ttl) + wanted {
      if ip in wanted {
        assert (ip, feed) in r;
      }
      if ip in Tracked(ttl) {
        var k :| k in ttl && k.0 == ip;
        assert k in r;
      }
      if ip in Tracked(r) {
        var k :| k in r && k.0 == ip;
        assert k in ttl || k.0 in wanted;
      }
    }
  }

  /** Every tracked address has a live entry or an expired one (or both). */
  lemma TrackedSplits(ttl: TtlMap, now: int)
    ensures var expired := ExpiredKeys(ttl, now);
            Tracked(ttl) == Tracked(ttl - expired) + IpsOf(expired)
  {
    var expired := ExpiredKeys(ttl, now);
    forall ip ensures ip in Tracked(ttl) <==> ip in Tracked(ttl - expired) + IpsOf(expired) {
      if ip in Tracked(ttl) {
        var k :| k in ttl && k.0 == ip;
        assert k in expired || k in ttl - expired;
      }
      if ip in Tracked(ttl - expired) {
        var k :| k in ttl - expired && k.0 == ip;
        assert k in ttl;
      }
      if ip in IpsOf(expired) {
        var k :| k in expired && k.0 == ip;
        assert k in ttl;
      }
    }
  }

  // ----- What a refresh keeps -------------------------------------------------------------

  /** Only static entries and tracked addresses are blocked, and no feed ever adds an excluded address. */
  lemma RefreshContains(
      s: State, excluded: string -> bool, f: Fetch, fixed: set<string>)
    requires SeenExact(s.ttl, s.seen) && s.blocked <= fixed + s.seen
    ensures var t := Refresh(s, excluded, f);
            && SeenExact(t.ttl, t.seen) && t.blocked <= fixed + t.seen
            && (forall ip :: ip in t.blocked && ip !in s.blocked ==> !excluded(ip))
            && (forall ip :: ip in t.seen && ip !in s.seen ==> !excluded(ip))
  {
    var wanted := Wanted(excluded, f.ips);
    var recorded := Recording(s.ttl, excluded, f);
    RecordedTracked(s.ttl, wanted, f.feed, f.Expiration());
    TrackedSplits(recorded, f.evictedAt);
  }

  function EvictedKeys(s: State, excluded: string -> bool, f: Fetch): set<Key> {
    ExpiredKeys(Recording(s.ttl, excluded, f), f.evictedAt)
  }

  /** The addresses that lose an entry in this refresh. */
  function Evicted(s: State, excluded: string -> bool, f: Fetch): set<string> {
    IpsOf(EvictedKeys(s, excluded, f))
  }

  /** The addresses that keep an entry in this refresh. */
  function Retained(s: State, excluded: string -> bool, f: Fetch): set<string> {
    var recorded := Recording(s.ttl, excluded, f);
    Tracked(recorded - ExpiredKeys(recorded, f.evictedAt))
  }

  /**
   A blocklist that holds exactly the static and the tracked addresses still does after a refresh
   if and only if no evicted entry belongs to a static address, or to one another entry retains.
   */
  lemma RefreshExactIff(
      s: State, excluded: string -> bool, f: Fetch, fixed: set<string>)
    requires SeenExact(s.ttl, s.seen) && s.blocked == fixed + s.seen
    ensures var t := Refresh(s, excluded, f);
            var evicted := Evicted(s, excluded, f);
            var retained := Retained(s, excluded, f);
            t.blocked == fixed + t.seen <==> evicted !! fixed + retained
  {
    var wanted := Wanted(excluded, f.ips);
    var recorded := Recording(s.ttl, excluded, f);
    RecordedTracked(s.ttl, wanted, f.feed, f.Expiration());
    TrackedSplits(recorded, f.evictedAt);
    var t := Refresh(s, excluded, f);
    var evicted := IpsOf(ExpiredKeys(recorded, f.evictedAt));
    assert t.blocked == (fixed + t.seen) - evicted;
  }

  /** With one feed and no static entries the blocklist is always exactly what is tracked. */
  lemma SingleFeedExact(s: State, excluded: string -> bool, f: Fetch)
    requires SeenExact(s.ttl, s.seen) && s.blocked == s.seen && forall k :: k in s.ttl ==> k.1 == f.feed
    ensures var t := Refresh(s, excluded, f);
            SeenExact(t.ttl, t.seen) && t.blocked == t.seen && forall k :: k in t.ttl ==> k.1 == f.feed
  {
    RefreshExactIff(s, excluded, f, {});
    var recorded := Recording(s.ttl, excluded, f);
    var expired := ExpiredKeys(recorded, f.evictedAt);
    forall ip | ip in IpsOf(expired) ensures ip !in Tracked(recorded - expired) {
      assert forall l :: l in recorded && l.0 == ip ==> l == (ip, f.feed);
      assert (ip, f.feed) in expired;
    }
    assert {} + Tracked(recorded - expired) == Tracked(recorded - expired);
  }

  /** An address unblocked while still tracked is not blocked again as long as it stays tracked. */
  lemma LostStaysLost(s: State, excluded: string -> bool, f: Fetch, ip: string)
    requires ip in s.seen && ip !in s.blocked
    ensures ip !in Refresh(s, excluded, f).blocked
  {}

  /** Two feeds list an address; when the shorter entry expires it is unblocked while the other still tracks it. */
  lemma TwoFeedsLoseAnAddress(excluded: string -> bool)
    requires !excluded("a")
    ensures var s1 := Refresh(State(map[], {}, {}), excluded, Fetch(["a"], "short", 10, 0, 0));
            var s2 := Refresh(s1, excluded, Fetch(["a"], "long", 100, 0, 0));
            var s3 := Refresh(s2, excluded, Fetch([], "long", 100, 50, 50));
            "a" in s2.blocked && "a" in s3.seen && "a" !in s3.blocked
  {
    RefreshOfOne(State(map[], {}, {}), excluded, "a", Fetch(["a"], "short", 10, 0, 0));
    var s1 := Refresh(State(map[], {}, {}), excluded, Fetch(["a"], "short", 10, 0, 0));
    assert map[][("a", "short") := 10] == s1.ttl;
    RefreshOfOne(s1, excluded, "a", Fetch(["a"], "long", 100, 0, 0));
    var s2 := Refresh(s1, excluded, Fetch(["a"], "long", 100, 0, 0));
    assert s2.ttl == map[("a", "short") := 10, ("a", "long") := 100];
    MixedEntriesUnblock(s2, excluded, "a", "short", Fetch([], "long", 100, 50, 50));
  }

  /** An address with an expired entry and a live one is unblocked by an empty fetch, yet stays tracked. */
  lemma MixedEntriesUnblock(s: State, excluded: string -> bool, ip: string, gone: string, f: Fetch)
    requires f.ips == []
    requires (ip, gone) in s.ttl && s.ttl[(ip, gone)] <= f.evictedAt
    requires (ip, f.feed) in s.ttl && s.ttl[(ip, f.feed)] > f.evictedAt
    ensures var t := Refresh(s, excluded, f); ip in t.seen && ip !in t.blocked
  {
    assert Wanted(excluded, f.ips) == {} && EntriesOf({}, f.feed) == {};
    assert Recording(s.ttl, excluded, f) == s.ttl;
    assert (ip, gone) in ExpiredKeys(s.ttl, f.evictedAt);
    assert (ip, f.feed) in s.ttl - ExpiredKeys(s.ttl, f.evictedAt);
  }

  /** A fetch of one address, when nothing expires. */
  lemma RefreshOfOne(s: State, excluded: string -> bool, ip: string, f: Fetch)
    requires f.ips == [ip] && !excluded(ip)
    requires f.Expiration() > f.evictedAt && forall k :: k in s.ttl ==> s.ttl[k] > f.evictedAt
    requires ip in s.seen ==> ip in s.blocked
    ensures var t := Refresh(s, excluded, f);
            t.ttl == s.ttl[(ip, f.feed) := f.Expiration()] && ip in t.blocked
  {
    assert Wanted(excluded, f.ips) == {ip} && EntriesOf({ip}, f.feed) == {(ip, f.feed)};
    var recorded := Recording(s.ttl, excluded, f);
    assert recorded == s.ttl[(ip, f.feed) := f.Expiration()];
    assert ExpiredKeys(recorded, f.evictedAt) == {};
    assert recorded - {} == recorded;
  }

  // ----- Runs -----------------------------------------------------------------------------

  datatype Op =
    | RefreshWith(fetch: Fetch)
    | PurgeAll

  function After(s: State, excluded: string -> bool, run: seq<Op>): State {
    if run == [] then s
    else
      var before := After(s, excluded, run[..|run| - 1]);
      match run[|run| - 1]
      case RefreshWith(f) => Refresh(before, excluded, f)
      case PurgeAll => Purge(before)
  }

  /** In every run the blocklist stays within the static entries and the tracked addresses, none of them excluded. */
  lemma {:induction false} RunContains(excluded: string -> bool, run: seq<Op>, fixed: set<string>)
    ensures var s := After(State(map[], {}, fixed), excluded, run);
            && SeenExact(s.ttl, s.seen) && s.blocked <= fixed + s.seen
            && (forall ip :: ip in s.seen ==> !excluded(ip))
  {
    if run == [] {
      assert Tracked(map[]) == {};
    } else {
      RunContains(excluded, run[..|run| - 1], fixed);
      var before := After(State(map[], {}, fixed), excluded, run[..|run| - 1]);
      match run[|run| - 1]
      case RefreshWith(f) =>
        RefreshContains(before, excluded, f, fixed);
      case PurgeAll =>
        assert Tracked(map[]) == {};
    }
  }

  // ----- Runs of one feed, lost addresses, and purges ---------------------------------------

  predicate OfFeed(op: Op, feed: string) {
    op.RefreshWith? ==> op.fetch.feed == feed
  }

  /** With one feed and no static entries the blocklist is what is tracked, in every run. */
  lemma {:induction false} SingleFeedRun(excluded: string -> bool, run: seq<Op>, feed: string)
    requires forall op :: op in run ==> OfFeed(op, feed)
    ensures var s := After(State(map[], {}, {}), excluded, run);
            SeenExact(s.ttl, s.seen) && s.blocked == s.seen && forall k :: k in s.ttl ==> k.1 == feed
  {
    if run == [] {
      assert Tracked(map[]) == {};
    } else {
      var init, last := run[..|run| - 1], run[|run| - 1];
      assert last in run && forall op :: op in init ==> op in run;
      SingleFeedRun(excluded, init, feed);
      match last
      case RefreshWith(f) => SingleFeedExact(After(State(map[], {}, {}), excluded, init), excluded, f);
      case PurgeAll =>
        assert Tracked(map[]) == {};
    }
  }

  /** An address that is tracked but not blocked stays unblocked for as long as it stays tracked. */
  lemma {:induction false} LostThroughout(s: State, excluded: string -> bool, run: seq<Op>, ip: string)
    requires ip !in s.blocked && forall n :: 0 <= n <= |run| ==> ip in After(s, excluded, run[..n]).seen
    ensures ip !in After(s, excluded, run).blocked
  {
    if run != [] {
      var init, last := run[..|run| - 1], run[|run| - 1];
      assert forall n :: 0 <= n <= |init| ==> init[..n] == run[..n];
      LostThroughout(s, excluded, init, ip);
      assert run[..|init|] == init;
      match last
      case RefreshWith(f) => LostStaysLost(After(s, excluded, init), excluded, f, ip);
      case PurgeAll =>
    }
  }

  /** A purge leaves the static entries blocked if and only if no feed has listed one of them. */
  lemma PurgeKeepsStaticIff(s: State, fixed: set<string>)
    requires SeenExact(s.ttl, s.seen) && fixed <= s.blocked
    ensures fixed <= Purge(s).blocked <==> fixed !! s.seen
  {}

  // ----- How long an entry lasts ------------------------------------------------------------

  /** Operation `i` is a fetch of the feed that lists the address, which is not excluded. */
  predicate Lists(excluded: string -> bool, run: seq<Op>, i: nat, ip: string, feed: string)
    requires i < |run|
  {
    run[i].RefreshWith? && run[i].fetch.feed == feed && ip in run[i].fetch.ips && !excluded(ip)
  }

  /** From operation `i` on there is no purge, no other listing, and no eviction once its ttl is over. */
  ghost predicate LastsFrom(excluded: string -> bool, run: seq<Op>, i: nat, ip: string, feed: string)
    requires i < |run|
  {
    && Lists(excluded, run, i, ip, feed)
    && (forall j :: i <= j < |run| ==> run[j].RefreshWith?)
    && (forall j :: i <= j < |run| ==> run[j].fetch.evictedAt < run[i].fetch.fetchedAt + run[i].fetch.ttlSeconds)
    && (forall j :: i < j < |run| ==> !Lists(excluded, run, j, ip, feed))
  }

  ghost predicate Lasts(excluded: string -> bool, run: seq<Op>, ip: string, feed: string, expiration: int) {
    exists i :: 0 <= i < |run| && LastsFrom(excluded, run, i, ip, feed) &&
                run[i].fetch.fetchedAt + run[i].fetch.ttlSeconds == expiration
  }

  /** What one refresh does to an entry. */
  lemma RefreshEntry(s: State, excluded: string -> bool, f: Fetch, key: Key, expiration: int)
    ensures var t, listed := Refresh(s, excluded, f).ttl, f.feed == key.1 && key.0 in f.ips && !excluded(key.0);
            key in t && t[key] == expiration <==>
              && f.evictedAt < expiration
              && if listed then expiration == f.fetchedAt + f.ttlSeconds else key in s.ttl && s.ttl[key] == expiration
  {
    assert key in EntriesOf(Wanted(excluded, f.ips), f.feed) <==>
           f.feed == key.1 && key.0 in f.ips && !excluded(key.0);
  }

  lemma LastsNext(excluded: string -> bool, run: seq<Op>, ip: string, feed: string, expiration: int)
    requires run != []
    ensures var init, last := run[..|run| - 1], |run| - 1;
            Lasts(excluded, run, ip, feed, expiration) <==>
              && run[last].RefreshWith? && run[last].fetch.evictedAt < expiration
              && if Lists(excluded, run, last, ip, feed)
                 then expiration == run[last].fetch.fetchedAt + run[last].fetch.ttlSeconds
                 else Lasts(excluded, init, ip, feed, expiration)
  {
    var init, last := run[..|run| - 1], |run| - 1;
    assert forall i :: 0 <= i < last ==> init[i] == run[i];
    forall i | 0 <= i < last
      ensures LastsFrom(excluded, run, i, ip, feed) <==>
              && LastsFrom(excluded, init, i, ip, feed) && run[last].RefreshWith?
              && run[last].fetch.evictedAt < run[i].fetch.fetchedAt + run[i].fetch.ttlSeconds
              && !Lists(excluded, run, last, ip, feed)
    {
      LastsFromNext(excluded, run, i, ip, feed);
    }
    if Lists(excluded, run, last, ip, feed) && run[last].fetch.evictedAt < expiration &&
       expiration == run[last].fetch.fetchedAt + run[last].fetch.ttlSeconds {
      assert LastsFrom(excluded, run, last, ip, feed);
    }
  }

  lemma LastsFromNext(excluded: string -> bool, run: seq<Op>, i: nat, ip: string, feed: string)
    requires i < |run| - 1
    ensures var init, last := run[..|run| - 1], |run| - 1;
            LastsFrom(excluded, run, i, ip, feed) <==>
              && LastsFrom(excluded, init, i, ip, feed) && run[last].RefreshWith?
              && run[last].fetch.evictedAt < run[i].fetch.fetchedAt + run[i].fetch.ttlSeconds
              && !Lists(excluded, run, last, ip, feed)
  {
    var init, last := run[..|run| - 1], |run| - 1;
    forall j | i <= j < last ensures Lists(excluded, init, j, ip, feed) <==> Lists(excluded, run, j, ip, feed) {}
    assert forall j :: i <= j < |run| ==> j == last || run[j] == init[j];
  }

  /**
   After every run of refreshes and purges, an address is tracked for a feed, until `expiration`, if and
   only if the last fetch of the feed to list it said so, and since then nothing was purged and nothing
   evicted at or after that time.
   */
  lemma {:induction false} TrackedIff(
      excluded: string -> bool, run: seq<Op>, fixed: set<string>, ip: string, feed: string, expiration: int)
    ensures var ttl := After(State(map[], {}, fixed), excluded, run).ttl;
            (ip, feed) in ttl && ttl[(ip, feed)] == expiration <==> Lasts(excluded, run, ip, feed, expiration)
  {
    if run != [] {
      var init := run[..|run| - 1];
      TrackedIff(excluded, init, fixed, ip, feed, expiration);
      LastsNext(excluded, run, ip, feed, expiration);
      match run[|run| - 1]
      case RefreshWith(f) =>
        RefreshEntry(After(State(map[], {}, fixed), excluded, init), excluded, f, (ip, feed), expiration);
      case PurgeAll =>
    }
  }

  // ----- The resolver and the scheduler ---------------------------------------------------

  class IPResolver {
    const excluded: string -> bool
    var ttlMap: TtlMap
    var seen: set<string>

    ghost predicate Valid()
      reads this
    {
      SeenExact(ttlMap, seen)
    }

    constructor (excluded: string -> bool)
      ensures Valid() && ttlMap == map[] && seen == {} && this.excluded == excluded
    {
      this.excluded := excluded;
      ttlMap, seen := map[], {};
    }

    /** Records every address; returns the new ones, each once. */
    method Deduplicate(ips: seq<string>, feed: string, ttlSeconds: int, now: int) returns (newIps: seq<string>)
      requires Valid()
      modifies this
      ensures Valid() && ttlMap == Recorded(old(ttlMap), Wanted(excluded, ips), feed, now + ttlSeconds)
      ensures Adds(newIps, Wanted(excluded, ips), old(seen))
    {
      newIps := [];
      var expiration := now + ttlSeconds;
      for i := 0 to |ips|
        invariant ttlMap == Recorded(old(ttlMap), Wanted(excluded, ips[..i]), feed, expiration)
        invariant seen == old(seen) + Wanted(excluded, ips[..i])
        invariant Adds(newIps, Wanted(excluded, ips[..i]), old(seen))
      {
        var ip := ips[i];
        WantedNext(excluded, ips, i);
        if !excluded(ip) {
          RecordedNext(old(ttlMap), Wanted(excluded, ips[..i]), feed, expiration, ip);
          AddsNext(newIps, Wanted(excluded, ips[..i]), old(seen), ip);
          ttlMap := ttlMap[(ip, feed) := expiration];
          if ip !in seen {
            seen := seen + {ip};
            newIps := newIps + [ip];
          }
        }
      }
      assert ips[..|ips|] == ips;
      RecordedTracked(old(ttlMap), Wanted(excluded, ips), feed, expiration);
    }

    /** Removes expired entries; an address leaves the seen set with its last entry. */
    method EvictExpired(now: int) returns (expired: set<Key>)
      requires Valid()
      modifies this
      ensures Valid() && expired == ExpiredKeys(old(ttlMap), now) && ttlMap == old(ttlMap) - expired
    {
      expired := set k | k in ttlMap && ttlMap[k] <= now;
      var rest := expired;
      while rest != {}
        invariant Valid() && rest <= expired && ttlMap == old(ttlMap) - (expired - rest)
        decreases rest
      {
        var key :| key in rest;
        EvictOne(ttlMap, key);
        assert expired - (rest - {key}) == (expired - rest) + {key};
        ttlMap := ttlMap - {key};
        rest := rest - {key};
        if !(exists k :: k in ttlMap && k.0 == key.0) {
          seen := seen - {key.0};
        }
      }
      assert expired - {} == expired;
    }
  }

  /** `added` lists the wanted addresses not seen before, each once. */
  ghost predicate Adds(added: seq<string>, wanted: set<string>, seen: set<string>) {
    && (forall ip :: ip in added <==> ip in wanted - seen)
    && (forall i, j :: 0 <= i < j < |added| ==> added[i] != added[j])
  }

  lemma AddsNext(added: seq<string>, wanted: set<string>, seen: set<string>, ip: string)
    requires Adds(added, wanted, seen)
    ensures Adds(if ip in seen + wanted then added else added + [ip], wanted + {ip}, seen)
  {
    if ip !in seen + wanted {
      var more := added + [ip];
      assert forall q :: q in more <==> q in added || q == ip;
      assert forall i :: 0 <= i < |added| ==> more[i] == added[i] && added[i] in added;
    }
  }

  function Listed(ips: seq<string>): set<string> {
    set ip | ip in ips
  }

  lemma AddsAll(added: seq<string>, wanted: set<string>, seen: set<string>)
    requires Adds(added, wanted, seen)
    ensures Listed(added) == wanted - seen && |added| == |wanted - seen|
  {
    AddsSize(added, wanted, seen);
  }

  lemma {:induction false} AddsSize(added: seq<string>, wanted: set<string>, seen: set<string>)
    requires Adds(added, wanted, seen)
    ensures |added| == |wanted - seen|
  {
    if added == [] {
      assert wanted - seen == {};
    } else {
      var init, ip := added[..|added| - 1], added[|added| - 1];
      assert ip in added;
      assert forall q :: q in added <==> q in init || q == ip;
      assert (wanted - {ip}) - seen == (wanted - seen) - {ip};
      AddsSize(init, wanted - {ip}, seen);
    }
  }

  lemma WantedNext(excluded: string -> bool, ips: seq<string>, i: nat)
    requires i < |ips|
    ensures Wanted(excluded, ips[..i + 1]) ==
            if excluded(ips[i]) then Wanted(excluded, ips[..i]) else Wanted(excluded, ips[..i]) + {ips[i]}
  {
    assert ips[..i + 1] == ips[..i] + [ips[i]];
  }

  lemma RecordedNext(ttl: TtlMap, wanted: set<string>, feed: string, expiration: int, ip: string)
    ensures Recorded(ttl, wanted + {ip}, feed, expiration) ==
            Recorded(ttl, wanted, feed, expiration)[(ip, feed) := expiration]
  {
    assert EntriesOf(wanted + {ip}, feed) == EntriesOf(wanted, feed) + {(ip, feed)};
  }

  lemma EvictOne(ttl: TtlMap, key: Key)
    requires key in ttl
    ensures Tracked(ttl - {key}) ==
            if exists k :: k in ttl - {key} && k.0 == key.0 then Tracked(ttl) else Tracked(ttl) - {key.0}
  {
    forall ip
      ensures ip in Tracked(ttl - {key}) <==>
              ip in Tracked(ttl) && (ip != key.0 || exists k :: k in ttl - {key} && k.0 == key.0)
    {
      if ip in Tracked(ttl) && ip != key.0 {
        var k :| k in ttl && k.0 == ip;
        assert k in ttl - {key};
      }
    }
  }

  lemma IpsOfOneMore(keys: set<Key>, key: Key)
    ensures IpsOf(keys + {key}) == IpsOf(keys) + {key.0}
  {
    assert key in keys + {key};
  }

  /** `t` is `s` with the fetch recorded and blocked, and then its expired entries removed and unblocked. */
  lemma RefreshIs(s: State, excluded: string -> bool, f: Fetch, recorded: TtlMap, blocked: set<string>, t: State)
    requires recorded == Recorded(s.ttl, Wanted(excluded, f.ips), f.feed, f.fetchedAt + f.ttlSeconds)
    requires t.ttl == recorded - ExpiredKeys(recorded, f.evictedAt) && SeenExact(t.ttl, t.seen)
    requires blocked == s.blocked + (Wanted(excluded, f.ips) - s.seen)
    requires t.blocked == blocked - IpsOf(ExpiredKeys(recorded, f.evictedAt))
    ensures t == Refresh(s, excluded, f) && ExpiredKeys(recorded, f.evictedAt) == EvictedKeys(s, excluded, f)
  {}

  class ThreatIntelScheduler {
    const resolver: IPResolver
    var blocklist: set<string>

    ghost function S(): State
      reads this, resolver
    {
      State(resolver.ttlMap, resolver.seen, blocklist)
    }

    constructor (resolver: IPResolver, fixed: set<string>)
      ensures this.resolver == resolver && blocklist == fixed
    {
      this.resolver := resolver;
      blocklist := fixed;
    }

    /** Any failure to fetch (`None`) changes nothing. */
    method RefreshOne(fetched: Option<Fetch>) returns (added: nat, evicted: nat)
      requires resolver.Valid()
      modifies this, resolver
      ensures resolver.Valid()
      ensures S() == if fetched.None? then old(S()) else Refresh(old(S()), resolver.excluded, fetched.value)
      ensures fetched.Some? ==> added == |Wanted(resolver.excluded, fetched.value.ips) - old(resolver.seen)|
      ensures fetched.Some? ==> evicted == |EvictedKeys(old(S()), resolver.excluded, fetched.value)|
    {
      if fetched.None? {
        return 0, 0;
      }
      var f := fetched.value;
      added := TrackAndBlock(f.ips, f.feed, f.ttlSeconds, f.fetchedAt);
      ghost var recorded, blocked := resolver.ttlMap, blocklist;
      evicted := EvictAndUnblock(f.evictedAt);
      assert recorded == Recorded(old(S()).ttl, Wanted(resolver.excluded, f.ips), f.feed, f.fetchedAt + f.ttlSeconds);
      RefreshIs(old(S()), resolver.excluded, f, recorded, blocked, S());
    }

    method TrackAndBlock(ips: seq<string>, feed: string, ttlSeconds: int, now: int) returns (added: nat)
      requires resolver.Valid()
      modifies this`blocklist, resolver
      ensures resolver.Valid()
      ensures resolver.ttlMap == Recorded(old(resolver.ttlMap), Wanted(resolver.excluded, ips), feed, now + ttlSeconds)
      ensures var newIps := Wanted(resolver.excluded, ips) - old(resolver.seen);
              blocklist == old(blocklist) + newIps && added == |newIps|
    {
      var newIps := resolver.Deduplicate(ips, feed, ttlSeconds, now);
      AddsAll(newIps, Wanted(resolver.excluded, ips), old(resolver.seen));
      BlockAll(newIps);
      added := |newIps|;
    }

    method EvictAndUnblock(now: int) returns (evicted: nat)
      requires resolver.Valid()
      modifies this`blocklist, resolver
      ensures var expired := ExpiredKeys(old(resolver.ttlMap), now);
              && resolver.Valid() && resolver.ttlMap == old(resolver.ttlMap) - expired
              && blocklist == old(blocklist) - IpsOf(expired) && evicted == |expired|
    {
      var expired := resolver.EvictExpired(now);
      evicted := UnblockAll(expired);
    }

    method BlockAll(ips: seq<string>)
      modifies this`blocklist
      ensures blocklist == old(blocklist) + Listed(ips)
    {
      for i := 0 to |ips|
        invariant blocklist == old(blocklist) + Listed(ips[..i])
      {
        assert ips[..i + 1] == ips[..i] + [ips[i]];
        blocklist := blocklist + {ips[i]};
      }
      assert ips[..|ips|] == ips;
    }

    method UnblockAll(keys: set<Key>) returns (count: nat)
      modifies this`blocklist
      ensures blocklist == old(blocklist) - IpsOf(keys) && count == |keys|
    {
      var rest := keys;
      count := 0;
      while rest != {}
        invariant rest <= keys && blocklist == old(blocklist) - IpsOf(keys - rest)
        invariant count + |rest| == |keys|
        decreases rest
      {
        var key :| key in rest;
        IpsOfOneMore(keys - rest, key);
        assert keys - (rest - {key}) == (keys - rest) + {key};
        blocklist := blocklist - {key.0};
        rest := rest - {key};
        count := count + 1;
      }
      assert keys - {} == keys;
    }

    /** Counts entries, not addresses. */
    method PurgeEverything() returns (count: nat)
      requires resolver.Valid()
      modifies this, resolver
      ensures resolver.Valid() && S() == Purge(old(S())) && count == |old(resolver.ttlMap)|
    {
      var rest := resolver.ttlMap.Keys;
      count := 0;
      while rest != {}
        invariant resolver.ttlMap.Keys == rest && rest <= old(resolver.ttlMap.Keys)
        invariant count + |rest| == |old(resolver.ttlMap.Keys)|
        invariant blocklist == old(blocklist) - IpsOf(old(resolver.ttlMap.Keys) - rest)
        decreases rest
      {
        var key :| key in rest;
        assert IpsOf(old(resolver.ttlMap.Keys) - (rest - {key})) == IpsOf(old(resolver.ttlMap.Keys) - rest) + {key.0};
        blocklist := blocklist - {key.0};
        resolver.ttlMap := resolver.ttlMap - {key};
        rest := rest - {key};
        count := count + 1;
      }
      assert IpsOf(old(resolver.ttlMap.Keys) - {}) == Tracked(old(resolver.ttlMap));
      resolver.seen := {};
      assert resolver.ttlMap == map[];
    }
  }
}
