/**
 When following the spreads of a selection set comes to an end: exactly when no fragment that can be
 reached from it can be reached from itself.
 */
module GraphQLCycles {
  import opened Prelude
  import opened GraphQL

  /** The spreads written in `ss`, at every level. */
  function Spreads(ss: Selections): set<string>
    decreases Size(ss)
  {
    if ss == [] then {}
    else
      assert SelectionSize(ss[0]) <= Size(ss);
      var here := match ss[0]
        case Spread(n) => {n}
        case Field(_, _, Set(c)) => Spreads(c)
        case Inline(Set(c)) => Spreads(c)
        case _ => {};
      here + Spreads(ss[1..])
  }

  /** Fragments each of which is spread by the one before, and the first of them by `ss`. */
  predicate Chain(ss: Selections, frags: Fragments, names: seq<string>)
    decreases |names|
  {
    names == [] || (names[0] in Spreads(ss) && names[0] in frags && Chain(frags[names[0]], frags, names[1..]))
  }

  ghost predicate Distinct(names: seq<string>) {
    forall i, j :: 0 <= i < j < |names| ==> names[i] != names[j]
  }

  /** No chain from `ss` comes back to a fragment it has been to. */
  ghost predicate NoCycle(ss: Selections, frags: Fragments) {
    forall names :: Chain(ss, frags, names) ==> Distinct(names)
  }

  // ----- Ending rules out cycles ------------------------------------------------------------

  /** A fragment spread anywhere in `ss` nests less deep than `ss`. */
  lemma {:induction false} SpreadLower(ss: Selections, frags: Fragments, n: string)
    requires Ends(ss, frags) && n in Spreads(ss) && n in frags
    ensures Ends(frags[n], frags) && Height(frags[n], frags) < Height(ss, frags)
    decreases Size(ss)
  {
    Parts(ss, frags);
    if n in Spreads(ss[1..]) {
      SpreadLower(ss[1..], frags, n);
    } else if !ss[0].Spread? {
      SpreadLower(Children(ss[0], frags).items, frags, n);
    }
  }

  lemma {:induction false} ChainLower(ss: Selections, frags: Fragments, names: seq<string>, i: nat)
    requires Ends(ss, frags) && Chain(ss, frags, names) && i < |names|
    ensures names[i] in frags && Ends(frags[names[i]], frags)
    ensures Height(frags[names[i]], frags) < Height(ss, frags)
    decreases i
  {
    SpreadLower(ss, frags, names[0]);
    if i > 0 {
      ChainLower(frags[names[0]], frags, names[1..], i - 1);
    }
  }

  lemma {:induction false} ChainFrom(ss: Selections, frags: Fragments, names: seq<string>, i: nat)
    requires Chain(ss, frags, names) && i < |names|
    ensures names[i] in frags && Chain(frags[names[i]], frags, names[i + 1..])
    decreases i
  {
    if i > 0 {
      ChainFrom(frags[names[0]], frags, names[1..], i - 1);
      assert names[1..][i - 1 + 1..] == names[i + 1..];
    }
  }

  lemma EndsNoCycle(ss: Selections, frags: Fragments)
    requires Ends(ss, frags)
    ensures NoCycle(ss, frags)
  {
    forall names, i, j | Chain(ss, frags, names) && 0 <= i < j < |names| ensures names[i] != names[j] {
      ChainLower(ss, frags, names, i);
      ChainFrom(ss, frags, names, i);
      ChainLower(frags[names[i]], frags, names[i + 1..], j - i - 1);
      assert names[i + 1..][j - i - 1] == names[j];
    }
  }

  // ----- Without cycles it ends -------------------------------------------------------------

  ghost predicate ChainsWithin(ss: Selections, frags: Fragments, k: nat) {
    forall names :: Chain(ss, frags, names) ==> |names| <= k
  }

  lemma {:induction false} ShortChainsEnd(ss: Selections, frags: Fragments, k: nat)
    requires ChainsWithin(ss, frags, k)
    ensures Within(ss, frags, k)
    decreases k, Size(ss)
  {
    if ss != [] {
      FewerSpreads(ss, ss[1..], frags, k);
      ShortChainsEnd(ss[1..], frags, k);
      match Children(ss[0], frags)
      case Absent =>
      case Set(c) =>
        if ss[0].Spread? {
          FollowedChains(ss, frags, ss[0].name, k);
          ShortChainsEnd(c, frags, k - 1);
        } else {
          FewerSpreads(ss, c, frags, k);
          ShortChainsEnd(c, frags, k);
        }
    }
  }

  lemma FewerSpreads(ss: Selections, part: Selections, frags: Fragments, k: nat)
    requires ChainsWithin(ss, frags, k) && Spreads(part) <= Spreads(ss)
    ensures ChainsWithin(part, frags, k)
  {
    forall names | Chain(part, frags, names) ensures |names| <= k {
      assert Chain(ss, frags, names);
    }
  }

  lemma FollowedChains(ss: Selections, frags: Fragments, n: string, k: nat)
    requires ChainsWithin(ss, frags, k) && n in Spreads(ss) && n in frags
    ensures k > 0 && ChainsWithin(frags[n], frags, k - 1)
  {
    assert Chain(ss, frags, [n]);
    forall names | Chain(frags[n], frags, names) ensures |names| <= k - 1 {
      assert ([n] + names)[1..] == names;
      assert Chain(ss, frags, [n] + names);
    }
  }

  lemma {:induction false} DistinctFew(names: seq<string>, all: set<string>)
    requires Distinct(names) && forall n :: n in names ==> n in all
    ensures |names| <= |all|
  {
    if names != [] {
      var init, last := names[..|names| - 1], names[|names| - 1];
      assert last in names && last !in init && forall n :: n in init ==> n in names;
      DistinctFew(init, all - {last});
    }
  }

  lemma {:induction false} NoCycleShort(ss: Selections, frags: Fragments)
    requires NoCycle(ss, frags)
    ensures ChainsWithin(ss, frags, |frags|)
  {
    forall names | Chain(ss, frags, names) ensures |names| <= |frags| {
      forall n | n in names ensures n in frags.Keys {
        var i :| 0 <= i < |names| && names[i] == n;
        ChainFrom(ss, frags, names, i);
      }
      DistinctFew(names, frags.Keys);
    }
  }

  /**
   The recursion of the analyzers comes to an end on a selection set exactly when no chain of spreads
   from it returns to a fragment; then spreads nest no deeper than there are fragments.
   */
  lemma EndsIffNoCycle(ss: Selections, frags: Fragments)
    ensures Ends(ss, frags) <==> NoCycle(ss, frags)
    ensures Ends(ss, frags) ==> Height(ss, frags) <= |frags|
  {
    if Ends(ss, frags) {
      EndsNoCycle(ss, frags);
    }
    if NoCycle(ss, frags) {
      NoCycleShort(ss, frags);
      ShortChainsEnd(ss, frags, |frags|);
    }
  }
}
