/**
 What the analyzers measure, without the measures: depth is the length of the longest chain of nested
 selection sets, breadth the size of the largest selection set in such a chain, cost a weighted count
 of the fields asked for.
 */
module GraphQLMeasures {
  import opened Prelude
  import opened GraphQL

  // ----- Chains of selection sets -----------------------------------------------------------

  /** The selection leads to the selection set `c`, its own or that of the fragment it spreads. */
  predicate Opens(s: Selection, c: Selections, frags: Fragments) {
    match s
    case Field(_, _, sub) => sub == Set(c)
    case Inline(sub) => sub == Set(c)
    case Spread(n) => n in frags && frags[n] == c
  }

  /** The chain starts with `ss`, and each next selection set is led to by a selection of the one before. */
  ghost predicate Chain(ss: Selections, sets: seq<Selections>, frags: Fragments)
    decreases |sets|
  {
    && sets != [] && sets[0] == ss
    && (|sets| == 1 || (Chain(sets[1], sets[1..], frags) && exists s :: s in ss && Opens(s, sets[1], frags)))
  }

  function Last(sets: seq<Selections>): Selections
    requires sets != []
  {
    sets[|sets| - 1]
  }

  lemma ChainLonger(ss: Selections, s: Selection, sets: seq<Selections>, frags: Fragments)
    requires sets != [] && Chain(sets[0], sets, frags) && s in ss && Opens(s, sets[0], frags)
    ensures Chain(ss, [ss] + sets, frags) && Last([ss] + sets) == Last(sets)
  {
    assert ([ss] + sets)[1..] == sets;
  }

  lemma ChainOfTail(ss: Selections, sets: seq<Selections>, frags: Fragments)
    requires ss != [] && |sets| > 1 && Chain(ss[1..], sets, frags)
    ensures Chain(ss, [ss] + sets[1..], frags) && Last([ss] + sets[1..]) == Last(sets)
  {
    var s :| s in ss[1..] && Opens(s, sets[1], frags);
    assert s in ss;
    ChainLonger(ss, s, sets[1..], frags);
  }

  /** A chain of more than one set goes through the first selection, or through the others. */
  lemma ChainSplits(ss: Selections, sets: seq<Selections>, frags: Fragments)
    requires |sets| > 1 && Chain(ss, sets, frags)
    ensures ss != []
    ensures Children(ss[0], frags) == Set(sets[1]) || Chain(ss[1..], [ss[1..]] + sets[1..], frags)
  {
    var s :| s in ss && Opens(s, sets[1], frags);
    assert ss == [ss[0]] + ss[1..];
    if s != ss[0] {
      ChainLonger(ss[1..], s, sets[1..], frags);
    }
  }

  // ----- Depth ------------------------------------------------------------------------------

  lemma {:induction false} DepthAttained(ss: Selections, frags: Fragments, current: nat) returns (sets: seq<Selections>)
    requires Ends(ss, frags)
    ensures Chain(ss, sets, frags) && current + |sets| - 1 == Depth(ss, frags, current)
    decreases Height(ss, frags), Size(ss)
  {
    sets := [ss];
    if ss != [] {
      Parts(ss, frags);
      var rest := DepthAttained(ss[1..], frags, current);
      var c := Children(ss[0], frags);
      if c.Set? {
        var first := DepthAttained(c.items, frags, current + 1);
        if |first| + 1 >= |rest| {
          ChainLonger(ss, ss[0], first, frags);
          return [ss] + first;
        }
      }
      if |rest| > 1 {
        ChainOfTail(ss, rest, frags);
        sets := [ss] + rest[1..];
      }
    }
  }

  lemma {:induction false} DepthBounds(ss: Selections, frags: Fragments, current: nat, sets: seq<Selections>)
    requires Ends(ss, frags) && Chain(ss, sets, frags)
    ensures current + |sets| - 1 <= Depth(ss, frags, current)
    decreases Height(ss, frags), Size(ss)
  {
    if |sets| > 1 {
      ChainSplits(ss, sets, frags);
      Parts(ss, frags);
      if Children(ss[0], frags) == Set(sets[1]) {
        DepthBounds(sets[1], frags, current + 1, sets[1..]);
      } else {
        DepthBounds(ss[1..], frags, current, [ss[1..]] + sets[1..]);
      }
    }
  }

  // ----- Breadth ----------------------------------------------------------------------------

  /** As for `Breadth`, but counting `ss` itself only if it is the whole set. */
  lemma {:induction false} BreadthAttained(ss: Selections, frags: Fragments) returns (sets: seq<Selections>)
    requires Ends(ss, frags)
    ensures Chain(ss, sets, frags) && |Last(sets)| == Breadth(ss, frags)
    decreases Height(ss, frags), Size(ss), 1
  {
    sets := [ss];
    if ChildBreadth(ss, frags) > |ss| {
      sets := ChildBreadthAttained(ss, frags);
    }
  }

  lemma {:induction false} ChildBreadthAttained(ss: Selections, frags: Fragments) returns (sets: seq<Selections>)
    requires Ends(ss, frags) && ChildBreadth(ss, frags) > 0
    ensures |sets| > 1 && Chain(ss, sets, frags) && |Last(sets)| == ChildBreadth(ss, frags)
    decreases Height(ss, frags), Size(ss), 0
  {
    Parts(ss, frags);
    var c := Children(ss[0], frags);
    if c.Set? && Breadth(c.items, frags) == ChildBreadth(ss, frags) {
      var first := BreadthAttained(c.items, frags);
      ChainLonger(ss, ss[0], first, frags);
      sets := [ss] + first;
    } else {
      var rest := ChildBreadthAttained(ss[1..], frags);
      ChainOfTail(ss, rest, frags);
      sets := [ss] + rest[1..];
    }
  }

  lemma {:induction false} BreadthBounds(ss: Selections, frags: Fragments, sets: seq<Selections>)
    requires Ends(ss, frags) && Chain(ss, sets, frags)
    ensures |Last(sets)| <= Breadth(ss, frags)
    ensures |sets| > 1 ==> |Last(sets)| <= ChildBreadth(ss, frags)
    decreases Height(ss, frags), Size(ss)
  {
    if |sets| > 1 {
      ChainSplits(ss, sets, frags);
      Parts(ss, frags);
      if Children(ss[0], frags) == Set(sets[1]) {
        BreadthBounds(sets[1], frags, sets[1..]);
      } else {
        BreadthBounds(ss[1..], frags, [ss[1..]] + sets[1..]);
      }
    }
  }

  // ----- Documents --------------------------------------------------------------------------

  /** A chain that starts with the body of an operation. */
  ghost predicate Reached(doc: Document, sets: seq<Selections>, frags: Fragments) {
    exists i :: 0 <= i < |doc| && doc[i].Operation? && Chain(doc[i].body, sets, frags)
  }

  /** The depth of a document is the length of its longest chain; the breadth, its largest selection set. */
  lemma {:induction false} DepthBreadthBound(doc: Document, frags: Fragments, sets: seq<Selections>)
    requires OperationsEnd(doc, frags) && Reached(doc, sets, frags)
    ensures |sets| <= DepthOf(doc, frags) && sets != [] && |Last(sets)| <= BreadthOf(doc, frags)
  {
    var i :| 0 <= i < |doc| && doc[i].Operation? && Chain(doc[i].body, sets, frags);
    var init := doc[..|doc| - 1];
    if i < |init| {
      assert init[i] == doc[i];
      DepthBreadthBound(init, frags, sets);
    } else {
      DepthBounds(doc[i].body, frags, 1, sets);
      BreadthBounds(doc[i].body, frags, sets);
    }
  }

  lemma {:induction false} DocDepthAttained(doc: Document, frags: Fragments) returns (sets: seq<Selections>)
    requires OperationsEnd(doc, frags) && DepthOf(doc, frags) > 0
    ensures Reached(doc, sets, frags) && |sets| == DepthOf(doc, frags)
  {
    var init, last := doc[..|doc| - 1], doc[|doc| - 1];
    if last.Operation? && Depth(last.body, frags, 1) == DepthOf(doc, frags) {
      sets := DepthAttained(last.body, frags, 1);
    } else {
      sets := DocDepthAttained(init, frags);
      ReachedInMore(doc, sets, frags);
    }
  }

  lemma {:induction false} DocBreadthAttained(doc: Document, frags: Fragments) returns (sets: seq<Selections>)
    requires OperationsEnd(doc, frags) && BreadthOf(doc, frags) > 0
    ensures Reached(doc, sets, frags) && sets != [] && |Last(sets)| == BreadthOf(doc, frags)
  {
    var init, last := doc[..|doc| - 1], doc[|doc| - 1];
    if last.Operation? && Breadth(last.body, frags) == BreadthOf(doc, frags) {
      sets := BreadthAttained(last.body, frags);
    } else {
      sets := DocBreadthAttained(init, frags);
      ReachedInMore(doc, sets, frags);
    }
  }

  lemma ReachedInMore(doc: Document, sets: seq<Selections>, frags: Fragments)
    requires doc != [] && Reached(doc[..|doc| - 1], sets, frags)
    ensures Reached(doc, sets, frags)
  {
    var init := doc[..|doc| - 1];
    var i :| 0 <= i < |init| && init[i].Operation? && Chain(init[i].body, sets, frags);
    assert doc[i] == init[i];
  }

  // ----- The fields a document writes and asks for ------------------------------------------

  /** `f` is a field of a selection set nested in `ss`, spreads not followed. */
  ghost predicate Writes(ss: Selections, f: Selection) {
    f.Field? && exists sets :: sets != [] && Chain(ss, sets, map[]) && f in Last(sets)
  }

  lemma WrittenInTail(ss: Selections, f: Selection)
    requires ss != [] && Writes(ss[1..], f)
    ensures Writes(ss, f)
  {
    var sets :| sets != [] && Chain(ss[1..], sets, map[]) && f in Last(sets);
    if |sets| > 1 {
      ChainOfTail(ss, sets, map[]);
    } else {
      WrittenHere(ss, f);
    }
  }

  lemma WrittenHere(ss: Selections, f: Selection)
    requires f in ss && f.Field?
    ensures Writes(ss, f)
  {
    assert Chain(ss, [ss], map[]) && Last([ss]) == ss;
  }

  lemma WrittenInside(ss: Selections, f: Selection)
    requires ss != [] && !ss[0].Spread? && ss[0].sub.Set? && Writes(ss[0].sub.items, f)
    ensures Writes(ss, f)
  {
    var sets :| sets != [] && Chain(ss[0].sub.items, sets, map[]) && f in Last(sets);
    ChainLonger(ss, ss[0], sets, map[]);
  }

  lemma {:induction false} ListedFieldWritten(ss: Selections, f: Selection)
    requires f in IterFields(ss)
    ensures Writes(ss, f)
    decreases Size(ss)
  {
    if f in IterFields(ss[1..]) {
      ListedFieldWritten(ss[1..], f);
      WrittenInTail(ss, f);
    } else if ss[0].Field? && f == ss[0] {
      WrittenHere(ss, f);
    } else {
      assert SelectionSize(ss[0]) <= Size(ss);
      ListedFieldWritten(ss[0].sub.items, f);
      WrittenInside(ss, f);
    }
  }

  lemma {:induction false} WrittenFieldListed(ss: Selections, f: Selection, sets: seq<Selections>)
    requires f.Field? && sets != [] && Chain(ss, sets, map[]) && f in Last(sets)
    ensures f in IterFields(ss)
    decreases Size(ss)
  {
    if |sets| > 1 {
      ChainSplits(ss, sets, map[]);
      if Children(ss[0], map[]) == Set(sets[1]) {
        WrittenFieldListed(sets[1], f, sets[1..]);
      } else {
        WrittenFieldListed(ss[1..], f, [ss[1..]] + sets[1..]);
      }
    } else if f != ss[0] {
      assert f in ss[1..] && Chain(ss[1..], [ss[1..]], map[]) && Last([ss[1..]]) == ss[1..];
      WrittenFieldListed(ss[1..], f, [ss[1..]]);
    }
  }

  /** Some definition, fragment or operation, writes a field whose name starts with two underscores. */
  ghost predicate WritesMeta(doc: Document) {
    exists i, f :: 0 <= i < |doc| && !doc[i].Other? && Writes(doc[i].body, f) && StartsWithUnderscores(f.name)
  }

  predicate StartsWithUnderscores(name: string) {
    |name| >= 2 && name[0] == '_' && name[1] == '_'
  }

  lemma IntrospectsIff(doc: Document)
    ensures Introspects(doc) <==> WritesMeta(doc)
  {
    if Introspects(doc) {
      var i :| 0 <= i < |doc| && !doc[i].Other? && AsksMeta(doc[i].body);
      var f :| f in IterFields(doc[i].body) && Meta(f);
      ListedFieldWritten(doc[i].body, f);
      assert StartsWithUnderscores(f.name);
    }
    if WritesMeta(doc) {
      var i, f :| 0 <= i < |doc| && !doc[i].Other? && Writes(doc[i].body, f) && StartsWithUnderscores(f.name);
      var sets :| sets != [] && Chain(doc[i].body, sets, map[]) && f in Last(sets);
      WrittenFieldListed(doc[i].body, f, sets);
      assert Meta(f);
    }
  }

  // ----- Cost -------------------------------------------------------------------------------

  const LISTS := {"edges", "nodes", "items", "results"}
  const WRAPPERS := {"node", "data"}

  function Named(fields: seq<Selection>, names: set<string>): nat {
    if fields == [] then 0
    else (if fields[0].Field? && fields[0].name in names then 1 else 0) + Named(fields[1..], names)
  }

  /** Arguments of the fields that go by no special name. */
  function PlainArguments(fields: seq<Selection>): nat {
    if fields == [] then 0
    else (if fields[0].Field? && fields[0].name !in LISTS + WRAPPERS then fields[0].args else 0) +
         PlainArguments(fields[1..])
  }

  /** Five units for a list, two for a wrapper, one for any other field, and half a unit for each of its arguments. */
  function Halves(fields: seq<Selection>): int {
    var lists, wrappers := Named(fields, LISTS), Named(fields, WRAPPERS);
    10 * lists + 4 * wrappers + 2 * (|fields| - lists - wrappers) + PlainArguments(fields)
  }

  lemma {:induction false} HalvesSplit(some: seq<Selection>, more: seq<Selection>)
    ensures Halves(some + more) == Halves(some) + Halves(more)
  {
    if some == [] {
      assert some + more == more;
    } else {
      assert (some + more)[1..] == some[1..] + more;
      HalvesSplit(some[1..], more);
    }
  }

  /** A selection set without spreads costs what its fields weigh. */
  lemma {:induction false} CostOfFields(ss: Selections)
    requires NoSpreads(ss)
    ensures Cost(ss, NoFragments()) == Halves(IterFields(ss))
    decreases Size(ss)
  {
    if ss != [] {
      Parts(ss, NoFragments());
      CostOfFields(ss[1..]);
      var s := ss[0];
      var here := if s.Field? then [s] else [];
      var inside := if s.sub.Set? then IterFields(s.sub.items) else [];
      if s.sub.Set? {
        CostOfFields(s.sub.items);
      }
      OwnHalves(s);
      HalvesSplit(here, inside);
      HalvesSplit(here + inside, IterFields(ss[1..]));
      assert IterFields(ss) == here + inside + IterFields(ss[1..]);
    }
  }

  lemma OwnHalves(s: Selection)
    ensures Halves(if s.Field? then [s] else []) == OwnCost(s)
  {
    if s.Field? {
      var one := [s];
      assert one[0] == s && one[1..] == [];
      assert Named(one, LISTS) == if s.name in LISTS then 1 else 0;
      assert Named(one, WRAPPERS) == if s.name in WRAPPERS then 1 else 0;
      assert PlainArguments(one) == if s.name in LISTS + WRAPPERS then 0 else s.args;
      assert s.name in LISTS <==> s.name in ["edges", "nodes", "items", "results"];
      assert s.name in WRAPPERS <==> s.name in ["node", "data"];
    }
  }

  /** All fields of the operations, in the order written. */
  function FieldsOfOperations(doc: Document): seq<Selection> {
    if doc == [] then []
    else
      FieldsOfOperations(doc[..|doc| - 1]) +
      if doc[|doc| - 1].Operation? then IterFields(doc[|doc| - 1].body) else []
  }

  lemma {:induction false} CostOfOperations(doc: Document)
    requires OperationsEndInTurn(doc) && forall op :: op in doc ==> op.Operation? && NoSpreads(op.body)
    ensures CostOf(doc) == Halves(FieldsOfOperations(doc)) && FragmentsOf(doc) == map[]
  {
    var none := NoFragments();
    if doc != [] {
      var init, last := doc[..|doc| - 1], doc[|doc| - 1];
      PrefixEndsInTurn(doc, |init|);
      CostOfOperations(init);
      assert last in doc;
      CostOfFields(last.body);
      HalvesSplit(FieldsOfOperations(init), IterFields(last.body));
    }
  }

  /** The fields a document asks for, with the fragments in force where each operation is written. */
  ghost function AskedFor(doc: Document): seq<Selection>
    requires OperationsEndInTurn(doc)
  {
    FieldsOfOperations(InlinedInTurn(doc))
  }

  /** The cost of a document is the weight of the fields it asks for. */
  lemma CostIsWeight(doc: Document)
    requires OperationsEndInTurn(doc)
    ensures CostOf(doc) == Halves(AskedFor(doc))
  {
    CostInTurn(doc);
    CostOfOperations(InlinedInTurn(doc));
  }

  // ----- The verdict ------------------------------------------------------------------------

  /** A chain of nested selection sets longer than the limit. */
  ghost predicate NestsDeeper(doc: Document, limit: nat) {
    exists sets :: Reached(doc, sets, FragmentsOf(doc)) && |sets| > limit
  }

  /** A selection set that an operation reaches is larger than the limit. */
  ghost predicate SelectsMore(doc: Document, limit: nat) {
    exists sets :: Reached(doc, sets, FragmentsOf(doc)) && sets != [] && |Last(sets)| > limit
  }

  lemma DeeperIff(doc: Document, limit: nat)
    requires OperationsEnd(doc, FragmentsOf(doc))
    ensures NestsDeeper(doc, limit) <==> DepthOf(doc, FragmentsOf(doc)) > limit
  {
    var frags := FragmentsOf(doc);
    if DepthOf(doc, frags) > limit {
      var sets := DocDepthAttained(doc, frags);
    }
    if NestsDeeper(doc, limit) {
      var sets :| Reached(doc, sets, frags) && |sets| > limit;
      DepthBreadthBound(doc, frags, sets);
    }
  }

  lemma BroaderIff(doc: Document, limit: nat)
    requires OperationsEnd(doc, FragmentsOf(doc))
    ensures SelectsMore(doc, limit) <==> BreadthOf(doc, FragmentsOf(doc)) > limit
  {
    var frags := FragmentsOf(doc);
    if BreadthOf(doc, frags) > limit {
      var sets := DocBreadthAttained(doc, frags);
    }
    if SelectsMore(doc, limit) {
      var sets :| Reached(doc, sets, frags) && sets != [] && |Last(sets)| > limit;
      DepthBreadthBound(doc, frags, sets);
    }
  }

  /**
   The verdict without the measures: the first of the four objections that applies, with the value that
   is too large.
   */
  lemma VerdictMeans(config: Config, doc: Document)
    requires Analyzable(config, doc)
    ensures var verdict := Decide(config, doc);
            if NestsDeeper(doc, config.depthLimit) then
              verdict.TooDeep? && forall n: nat :: verdict.depth > n <==> NestsDeeper(doc, n)
            else if SelectsMore(doc, config.breadthLimit) then
              verdict.TooBroad? && forall n: nat :: verdict.breadth > n <==> SelectsMore(doc, n)
            else
              && OperationsEndInTurn(doc)
              && verdict == if Halves(AskedFor(doc)) > config.costLimitHalves then TooCostly(Halves(AskedFor(doc)))
                            else if !config.introspectionEnabled && WritesMeta(doc) then IntrospectionDisabled
                            else Forwarded
  {
    forall n: nat ensures NestsDeeper(doc, n) <==> DepthOf(doc, FragmentsOf(doc)) > n {
      DeeperIff(doc, n);
    }
    forall n: nat ensures SelectsMore(doc, n) <==> BreadthOf(doc, FragmentsOf(doc)) > n {
      BroaderIff(doc, n);
    }
    if !NestsDeeper(doc, config.depthLimit) && !SelectsMore(doc, config.breadthLimit) {
      CostIsWeight(doc);
      IntrospectsIff(doc);
    }
  }
}
