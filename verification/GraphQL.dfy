/**
 The GraphQL query analyzers: depth, breadth, cost and introspection of a parsed document.

 All three measures follow fragment spreads, and come to an end only where spreads nest to a bounded
 depth (`Ends`): exactly where no cycle of fragments can be reached.  Costs are counted in halves
 (every weight in the source is a multiple of one half).
 */
module GraphQL {
  import opened Prelude

  /** `selection_set` of a node: absent, or a list of selections. */
  datatype SelectionSet = Absent | Set(items: Selections)

  datatype Selection =
    | Field(name: string, args: nat, sub: SelectionSet)
    | Spread(name: string)
    | Inline(sub: SelectionSet)

  type Selections = seq<Selection>
  type Fragments = map<string, Selections>

  datatype Definition =
    | FragmentDef(name: string, body: Selections)
    | Operation(body: Selections)
    | Other

  type Document = seq<Definition>

  // ----- Following spreads ----------------------------------------------------------------

  /** All selections, at every level, not following spreads. */
  function Size(ss: Selections): nat {
    if ss == [] then 0 else SelectionSize(ss[0]) + Size(ss[1..])
  }

  function SelectionSize(s: Selection): (n: nat)
    ensures n >= 1
  {
    match s
    case Field(_, _, Set(c)) => 1 + Size(c)
    case Inline(Set(c)) => 1 + Size(c)
    case _ => 1
  }

  /** The selection set a selection leads to. */
  function Children(s: Selection, frags: Fragments): (sub: SelectionSet)
    ensures !s.Spread? && sub.Set? ==> Size(sub.items) < SelectionSize(s)
  {
    match s
    case Field(_, _, sub) => sub
    case Inline(sub) => sub
    case Spread(n) => if n in frags then Set(frags[n]) else Absent
  }

  /** No more than `k` spreads nest in one another from `ss` on. */
  ghost predicate Within(ss: Selections, frags: Fragments, k: nat)
    decreases k, Size(ss)
  {
    ss == [] || (
      && Within(ss[1..], frags, k)
      && match Children(ss[0], frags)
         case Absent => true
         case Set(c) => if ss[0].Spread? then k > 0 && Within(c, frags, k - 1) else Within(c, frags, k)
    )
  }

  lemma {:induction false} WithinMore(ss: Selections, frags: Fragments, k: nat, more: nat)
    requires Within(ss, frags, k) && k <= more
    ensures Within(ss, frags, more)
    decreases k, Size(ss)
  {
    if ss != [] {
      WithinMore(ss[1..], frags, k, more);
      match Children(ss[0], frags)
      case Absent =>
      case Set(c) =>
        if ss[0].Spread? {
          WithinMore(c, frags, k - 1, more - 1);
        } else {
          WithinMore(c, frags, k, more);
        }
    }
  }

  /** Following every spread from `ss` on comes to an end. */
  ghost predicate Ends(ss: Selections, frags: Fragments) {
    exists k :: Within(ss, frags, k)
  }

  ghost function Least(ss: Selections, frags: Fragments, k: nat): (h: nat)
    requires Within(ss, frags, k)
    ensures Within(ss, frags, h) && h <= k && (h > 0 ==> !Within(ss, frags, h - 1))
  {
    if k > 0 && Within(ss, frags, k - 1) then Least(ss, frags, k - 1) else k
  }

  /** How deep spreads nest. */
  ghost function Height(ss: Selections, frags: Fragments): (h: nat)
    requires Ends(ss, frags)
    ensures Within(ss, frags, h) && forall k: nat :: Within(ss, frags, k) ==> h <= k
  {
    var k: nat :| Within(ss, frags, k);
    var h := Least(ss, frags, k);
    assert forall j: nat :: Within(ss, frags, j) ==> h <= j by {
      forall j: nat | Within(ss, frags, j) ensures h <= j {
        if j < h {
          WithinMore(ss, frags, j, h - 1);
        }
      }
    }
    h
  }

  /**
   What is left after the first selection nests no deeper; neither does what that selection leads to,
   and following a spread there lowers the height, entering a field or inline fragment the size.
   */
  lemma Parts(ss: Selections, frags: Fragments)
    requires Ends(ss, frags) && ss != []
    ensures Ends(ss[1..], frags) && Height(ss[1..], frags) <= Height(ss, frags) && Size(ss[1..]) < Size(ss)
    ensures Children(ss[0], frags).Set? ==> Lower(ss, ss[0], frags)
  {
    var k := Height(ss, frags);
    assert Within(ss[1..], frags, k);
    if Children(ss[0], frags).Set? {
      assert Within(Children(ss[0], frags).items, frags, if ss[0].Spread? then k - 1 else k);
    }
  }

  /** The children of a selection in `ss` come before `ss`. */
  ghost predicate Lower(ss: Selections, s: Selection, frags: Fragments)
    requires Ends(ss, frags) && Children(s, frags).Set?
  {
    var c := Children(s, frags).items;
    && Ends(c, frags)
    && if s.Spread? then Height(c, frags) < Height(ss, frags)
       else Height(c, frags) <= Height(ss, frags) && Size(c) < Size(ss)
  }

  lemma {:induction false} Descends(ss: Selections, i: nat, frags: Fragments)
    requires Ends(ss, frags) && i < |ss|
    ensures Ends(ss[i..], frags) && Ends([ss[i]], frags)
    ensures Height([ss[i]], frags) <= Height(ss, frags) && Size([ss[i]]) <= Size(ss)
    ensures Children(ss[i], frags).Set? ==> Lower(ss, ss[i], frags)
  {
    Parts(ss, frags);
    if i > 0 {
      Descends(ss[1..], i - 1, frags);
      assert ss[1..][i - 1..] == ss[i..];
    } else {
      assert ss[0..] == ss;
      assert Within([ss[0]], frags, Height(ss, frags));
    }
  }

  // ----- The three measures -------------------------------------------------------------

  ghost function Depth(ss: Selections, frags: Fragments, current: nat): (d: nat)
    requires Ends(ss, frags)
    ensures d >= current
    decreases Height(ss, frags), Size(ss)
  {
    if ss == [] then current
    else
      Parts(ss, frags);
      var rest := Depth(ss[1..], frags, current);
      match Children(ss[0], frags)
      case Absent => rest
      case Set(c) => Max(Depth(c, frags, current + 1), rest)
  }

  ghost function Breadth(ss: Selections, frags: Fragments): nat
    requires Ends(ss, frags)
    decreases Height(ss, frags), Size(ss), 1
  {
    Max(|ss|, ChildBreadth(ss, frags))
  }

  ghost function ChildBreadth(ss: Selections, frags: Fragments): nat
    requires Ends(ss, frags)
    decreases Height(ss, frags), Size(ss), 0
  {
    if ss == [] then 0
    else
      Parts(ss, frags);
      var rest := ChildBreadth(ss[1..], frags);
      match Children(ss[0], frags)
      case Absent => rest
      case Set(c) => Max(Breadth(c, frags), rest)
  }

  function FieldCost(name: string, args: nat): (halves: nat)
    ensures halves >= 2
  {
    if name in ["edges", "nodes", "items", "results"] then 10
    else if name in ["node", "data"] then 4
    else 2 + args
  }

  ghost function OwnCost(s: Selection): nat {
    if s.Field? then FieldCost(s.name, s.args) else 0
  }

  ghost function Cost(ss: Selections, frags: Fragments): nat
    requires Ends(ss, frags)
    decreases Height(ss, frags), Size(ss)
  {
    if ss == [] then 0
    else
      Parts(ss, frags);
      var rest := Cost(ss[1..], frags);
      match Children(ss[0], frags)
      case Absent => OwnCost(ss[0]) + rest
      case Set(c) => OwnCost(ss[0]) + Cost(c, frags) + rest
  }

  /** One turn of the depth loop. */
  lemma DepthFrom(ss: Selections, i: nat, frags: Fragments, current: nat)
    requires Ends(ss, frags) && i < |ss|
    ensures Ends(ss[i..], frags) && Ends(ss[i + 1..], frags)
    ensures var c, rest := Children(ss[i], frags), Depth(ss[i + 1..], frags, current);
            && (c.Set? ==> Ends(c.items, frags))
            && Depth(ss[i..], frags, current) ==
               if c.Set? then Max(Depth(c.items, frags, current + 1), rest) else rest
  {
    Descends(ss, i, frags);
    Parts(ss[i..], frags);
    assert ss[i..][1..] == ss[i + 1..];
  }

  method CalcDepth(ss: Selections, frags: Fragments, current: nat) returns (maxChild: nat)
    requires Ends(ss, frags)
    ensures maxChild == Depth(ss, frags, current)
    decreases Height(ss, frags), Size(ss), 1
  {
    maxChild := current;
    for i := 0 to |ss|
      invariant current <= maxChild
      invariant Ends(ss[i..], frags)
      invariant Max(maxChild, Depth(ss[i..], frags, current)) == Depth(ss, frags, current)
    {
      DepthFrom(ss, i, frags, current);
      Descends(ss, i, frags);
      var childDepth := ChildDepth(ss[i], frags, current);
      maxChild := Max(maxChild, childDepth);
    }
  }

  /** The body of the depth loop: `current` where the selection leads nowhere. */
  method ChildDepth(s: Selection, frags: Fragments, current: nat) returns (childDepth: nat)
    requires Ends([s], frags)
    ensures var c := Children(s, frags);
            && (c.Set? ==> Ends(c.items, frags))
            && childDepth == if c.Set? then Depth(c.items, frags, current + 1) else current
    decreases Height([s], frags), Size([s]), 0
  {
    Parts([s], frags);
    childDepth := current;
    match s {
      case Field(_, _, sub) =>
        if sub.Set? {
          childDepth := CalcDepth(sub.items, frags, current + 1);
        }
      case Spread(name) =>
        if name in frags {
          childDepth := CalcDepth(frags[name], frags, current + 1);
        }
      case Inline(sub) =>
        if sub.Set? {
          childDepth := CalcDepth(sub.items, frags, current + 1);
        }
    }
  }

  method CalcBreadth(ss: Selections, frags: Fragments) returns (breadth: nat)
    requires Ends(ss, frags)
    ensures breadth == Breadth(ss, frags)
    decreases Height(ss, frags), Size(ss)
  {
    var maxChild: nat := 0;
    for i := 0 to |ss|
      invariant Ends(ss[i..], frags)
      invariant Max(maxChild, ChildBreadth(ss[i..], frags)) == ChildBreadth(ss, frags)
    {
      Descends(ss, i, frags);
      Parts(ss[i..], frags);
      assert ss[i..][1..] == ss[i + 1..];
      if !ss[i].Spread? && ss[i].sub.Set? {
        var childBreadth := CalcBreadth(ss[i].sub.items, frags);
        maxChild := Max(maxChild, childBreadth);
      } else if ss[i].Spread? {
        if ss[i].name in frags {
          var childBreadth := CalcBreadth(frags[ss[i].name], frags);
          maxChild := Max(maxChild, childBreadth);
        }
      }
    }
    breadth := Max(|ss|, maxChild);
  }

  /** The nesting depth that the source also passes along is never used here. */
  method CostForSelectionSet(ss: Selections, frags: Fragments) returns (cost: nat)
    requires Ends(ss, frags)
    ensures cost == Cost(ss, frags)
    decreases Height(ss, frags), Size(ss)
  {
    cost := 0;
    for i := 0 to |ss|
      invariant Ends(ss[i..], frags)
      invariant cost + Cost(ss[i..], frags) == Cost(ss, frags)
    {
      Descends(ss, i, frags);
      Parts(ss[i..], frags);
      assert ss[i..][1..] == ss[i + 1..];
      match ss[i] {
        case Field(name, args, sub) =>
          var fieldCost := FieldCost(name, args);
          if sub.Set? {
            var inner := CostForSelectionSet(sub.items, frags);
            fieldCost := fieldCost + inner;
          }
          cost := cost + fieldCost;
        case Spread(name) =>
          if name in frags {
            var inner := CostForSelectionSet(frags[name], frags);
            cost := cost + inner;
          }
        case Inline(sub) =>
          if sub.Set? {
            var inner := CostForSelectionSet(sub.items, frags);
            cost := cost + inner;
          }
      }
    }
  }

  function Power(b: real, n: nat): real {
    if n == 0 then 1.0 else b * Power(b, n - 1)
  }

  /** The depth multiplier applies to whole operations, at the depth they are called with. */
  method CostForOperation(body: Selections, frags: Fragments, depthMultiplier: real, depth: nat) returns (cost: real)
    requires Ends(body, frags)
    ensures cost == Scaled(Cost(body, frags), Power(depthMultiplier, depth))
    ensures depth == 0 ==> cost == Cost(body, frags) as real
  {
    var multiplier := Power(depthMultiplier, depth);
    var inner := CostForSelectionSet(body, frags);
    cost := Scaled(inner, multiplier);
    ScaledOnce(inner);
  }

  function Scaled(cost: nat, multiplier: real): real {
    cost as real * multiplier
  }

  lemma ScaledOnce(cost: nat)
    ensures Scaled(cost, 1.0) == cost as real
  {}

  // ----- Inlining preserves the measures ------------------------------------------------

  /** Every spread becomes an inline fragment holding the inlined body; an undefined one, an empty one. */
  ghost function Inlined(ss: Selections, frags: Fragments): Selections
    requires Ends(ss, frags)
    decreases Height(ss, frags), Size(ss)
  {
    if ss == [] then []
    else
      Parts(ss, frags);
      var children := Children(ss[0], frags);
      var sub := if children.Set? then Set(Inlined(children.items, frags)) else Absent;
      var head := if ss[0].Field? then Field(ss[0].name, ss[0].args, sub) else Inline(sub);
      [head] + Inlined(ss[1..], frags)
  }

  predicate NoSpreads(ss: Selections) {
    ss == [] || (SpreadFree(ss[0]) && NoSpreads(ss[1..]))
  }

  predicate SpreadFree(s: Selection) {
    match s
    case Spread(_) => false
    case Field(_, _, Set(c)) => NoSpreads(c)
    case Inline(Set(c)) => NoSpreads(c)
    case _ => true
  }

  /** What is in force in a document without fragments. */
  ghost function NoFragments(): (frags: Fragments)
    ensures frags == map[] && forall ss :: Ends(ss, frags)
  {
    forall ss ensures Ends(ss, map[]) {
      NothingToFollow(ss);
    }
    map[]
  }

  lemma {:induction false} NothingToFollow(ss: Selections)
    ensures Within(ss, map[], 0)
    decreases Size(ss)
  {
    if ss != [] {
      NothingToFollow(ss[1..]);
      match Children(ss[0], map[])
      case Absent =>
      case Set(c) => NothingToFollow(c);
    }
  }

  lemma InlinedParts(ss: Selections, frags: Fragments)
    requires Ends(ss, frags) && ss != []
    ensures Ends(ss[1..], frags) && (Children(ss[0], frags).Set? ==> Ends(Children(ss[0], frags).items, frags))
    ensures var r, c := Inlined(ss, frags), Children(ss[0], frags);
            && r != [] && r[1..] == Inlined(ss[1..], frags)
            && !r[0].Spread? && OwnCost(r[0]) == OwnCost(ss[0]) && r[0].Field? == ss[0].Field?
            && Children(r[0], map[]) == if c.Set? then Set(Inlined(c.items, frags)) else Absent
  {
    Parts(ss, frags);
  }

  lemma {:induction false} InlinedHasNoSpreads(ss: Selections, frags: Fragments)
    requires Ends(ss, frags)
    ensures NoSpreads(Inlined(ss, frags)) && |Inlined(ss, frags)| == |ss|
    decreases Height(ss, frags), Size(ss)
  {
    if ss != [] {
      Parts(ss, frags);
      InlinedParts(ss, frags);
      InlinedHasNoSpreads(ss[1..], frags);
      match Children(ss[0], frags)
      case Absent =>
      case Set(c) => InlinedHasNoSpreads(c, frags);
    }
  }

  lemma {:induction false} InliningPreservesDepth(ss: Selections, frags: Fragments, current: nat)
    requires Ends(ss, frags)
    ensures Depth(Inlined(ss, frags), NoFragments(), current) == Depth(ss, frags, current)
    decreases Height(ss, frags), Size(ss)
  {
    if ss != [] {
      Parts(ss, frags);
      InlinedParts(ss, frags);
      InliningPreservesDepth(ss[1..], frags, current);
      match Children(ss[0], frags)
      case Absent =>
      case Set(c) => InliningPreservesDepth(c, frags, current + 1);
    }
  }

  lemma {:induction false} InliningPreservesBreadth(ss: Selections, frags: Fragments)
    requires Ends(ss, frags)
    ensures ChildBreadth(Inlined(ss, frags), NoFragments()) == ChildBreadth(ss, frags)
    ensures Breadth(Inlined(ss, frags), NoFragments()) == Breadth(ss, frags)
    decreases Height(ss, frags), Size(ss)
  {
    InlinedHasNoSpreads(ss, frags);
    if ss != [] {
      Parts(ss, frags);
      InlinedParts(ss, frags);
      InliningPreservesBreadth(ss[1..], frags);
      match Children(ss[0], frags)
      case Absent =>
      case Set(c) => InliningPreservesBreadth(c, frags);
    }
  }

  /** Cost and field count are those of the inlined selection set. */
  lemma {:induction false} InliningPreservesCost(ss: Selections, frags: Fragments)
    requires Ends(ss, frags)
    ensures Cost(Inlined(ss, frags), NoFragments()) == Cost(ss, frags)
    ensures Fields(Inlined(ss, frags), NoFragments()) == Fields(ss, frags)
    decreases Height(ss, frags), Size(ss)
  {
    if ss != [] {
      Parts(ss, frags);
      InlinedParts(ss, frags);
      InliningPreservesCost(ss[1..], frags);
      match Children(ss[0], frags)
      case Absent =>
      case Set(c) => InliningPreservesCost(c, frags);
    }
  }

  // ----- What the limits bound ----------------------------------------------------------

  /** b + b^2 + ... + b^d */
  function Geometric(b: nat, d: nat): nat {
    if d == 0 then 0 else b + b * Geometric(b, d - 1)
  }

  /** Depth at most d and breadth at most b leave at most b + b^2 + ... + b^d selections. */
  lemma {:induction false} SizeBound(ss: Selections, current: nat, b: nat, d: nat)
    requires NoSpreads(ss)
    requires Depth(ss, NoFragments(), current) < current + d && Breadth(ss, NoFragments()) <= b
    ensures Size(ss) <= Geometric(b, d)
    decreases Size(ss), 1
  {
    SizeByWidth(ss, current, b, d);
    MulMono(|ss|, b, Geometric(b, d - 1));
  }

  lemma AddOneWidth(n: nat, g: nat)
    ensures (n + 1) * g == n * g + g
  {}

  lemma MulMono(x: nat, y: nat, z: nat)
    requires x <= y
    ensures x * z <= y * z
  {}

  lemma {:induction false} SizeByWidth(ss: Selections, current: nat, b: nat, d: nat)
    requires NoSpreads(ss)
    requires Depth(ss, NoFragments(), current) < current + d && ChildBreadth(ss, NoFragments()) <= b
    ensures d > 0 && Size(ss) <= |ss| + |ss| * Geometric(b, d - 1)
    decreases Size(ss), 0
  {
    if ss != [] {
      Parts(ss, NoFragments());
      SizeByWidth(ss[1..], current, b, d);
      if Children(ss[0], NoFragments()).Set? {
        SizeBound(Children(ss[0], NoFragments()).items, current + 1, b, d - 1);
      }
      AddOneWidth(|ss[1..]|, Geometric(b, d - 1));
      assert SelectionSize(ss[0]) <= 1 + Geometric(b, d - 1);
    }
  }

  /** Fields selected, counting a fragment's fields once for every spread of it. */
  ghost function Fields(ss: Selections, frags: Fragments): nat
    requires Ends(ss, frags)
    decreases Height(ss, frags), Size(ss)
  {
    if ss == [] then 0
    else
      Parts(ss, frags);
      var own := if ss[0].Field? then 1 else 0;
      var rest := Fields(ss[1..], frags);
      match Children(ss[0], frags)
      case Absent => own + rest
      case Set(c) => own + Fields(c, frags) + rest
  }

  /** Every field costs at least one unit, and only fields cost anything. */
  lemma {:induction false} CostCountsFields(ss: Selections, frags: Fragments)
    requires Ends(ss, frags)
    ensures Cost(ss, frags) >= 2 * Fields(ss, frags)
    ensures Cost(ss, frags) == 0 <==> Fields(ss, frags) == 0
    decreases Height(ss, frags), Size(ss)
  {
    if ss != [] {
      Parts(ss, frags);
      CostCountsFields(ss[1..], frags);
      match Children(ss[0], frags)
      case Absent =>
      case Set(c) => CostCountsFields(c, frags);
    }
  }

  // ----- Documents ----------------------------------------------------------------------

  /** The fragments dict after the definitions of `doc`; a later definition of a name wins. */
  ghost function FragmentsOf(doc: Document): Fragments {
    if doc == [] then map[]
    else
      var before := FragmentsOf(doc[..|doc| - 1]);
      match doc[|doc| - 1]
      case FragmentDef(n, body) => before[n := body]
      case _ => before
  }

  /** What the operations of `doc` spread comes to an end. */
  ghost predicate OperationsEnd(doc: Document, frags: Fragments) {
    forall i :: 0 <= i < |doc| && doc[i].Operation? ==> Ends(doc[i].body, frags)
  }

  ghost function DepthOf(doc: Document, frags: Fragments): nat
    requires OperationsEnd(doc, frags)
  {
    if doc == [] then 0
    else
      var before := DepthOf(doc[..|doc| - 1], frags);
      match doc[|doc| - 1]
      case Operation(body) => Max(before, Depth(body, frags, 1))
      case _ => before
  }

  ghost function BreadthOf(doc: Document, frags: Fragments): nat
    requires OperationsEnd(doc, frags)
  {
    if doc == [] then 0
    else
      var before := BreadthOf(doc[..|doc| - 1], frags);
      match doc[|doc| - 1]
      case Operation(body) => Max(before, Breadth(body, frags))
      case _ => before
  }

  /** The cost loop resolves an operation's spreads with the fragments seen so far. */
  ghost predicate OperationsEndInTurn(doc: Document) {
    forall i :: 0 <= i < |doc| && doc[i].Operation? ==> Ends(doc[i].body, FragmentsOf(doc[..i]))
  }

  lemma PrefixEndsInTurn(doc: Document, n: nat)
    requires OperationsEndInTurn(doc) && n <= |doc|
    ensures OperationsEndInTurn(doc[..n])
    ensures n < |doc| && doc[n].Operation? ==> Ends(doc[n].body, FragmentsOf(doc[..n]))
  {
    var init := doc[..n];
    forall i | 0 <= i < n && init[i].Operation? ensures Ends(init[i].body, FragmentsOf(init[..i])) {
      assert init[..i] == doc[..i];
    }
  }

  ghost function CostOf(doc: Document): nat
    requires OperationsEndInTurn(doc)
  {
    if doc == [] then 0
    else
      PrefixEndsInTurn(doc, |doc| - 1);
      var init := doc[..|doc| - 1];
      match doc[|doc| - 1]
      case Operation(body) => CostOf(init) + Cost(body, FragmentsOf(init))
      case _ => CostOf(init)
  }

  method CollectFragments(doc: Document) returns (frags: Fragments)
    ensures frags == FragmentsOf(doc)
  {
    frags := map[];
    for i := 0 to |doc|
      invariant frags == FragmentsOf(doc[..i])
    {
      assert doc[..i + 1][..i] == doc[..i];
      if doc[i].FragmentDef? {
        frags := frags[doc[i].name := doc[i].body];
      }
    }
    assert doc[..|doc|] == doc;
  }

  method QueryDepth(doc: Document) returns (maxDepth: nat)
    requires OperationsEnd(doc, FragmentsOf(doc))
    ensures maxDepth == DepthOf(doc, FragmentsOf(doc))
  {
    var frags := CollectFragments(doc);
    maxDepth := 0;
    for i := 0 to |doc|
      invariant maxDepth == DepthOf(doc[..i], frags)
    {
      assert doc[..i + 1][..i] == doc[..i];
      if doc[i].Operation? {
        var depth := CalcDepth(doc[i].body, frags, 1);
        maxDepth := Max(maxDepth, depth);
      }
    }
    assert doc[..|doc|] == doc;
  }

  method QueryBreadth(doc: Document) returns (maxBreadth: nat)
    requires OperationsEnd(doc, FragmentsOf(doc))
    ensures maxBreadth == BreadthOf(doc, FragmentsOf(doc))
  {
    var frags := CollectFragments(doc);
    maxBreadth := 0;
    for i := 0 to |doc|
      invariant maxBreadth == BreadthOf(doc[..i], frags)
    {
      assert doc[..i + 1][..i] == doc[..i];
      if doc[i].Operation? {
        var breadth := CalcBreadth(doc[i].body, frags);
        maxBreadth := Max(maxBreadth, breadth);
      }
    }
    assert doc[..|doc|] == doc;
  }

  /** Operations are costed at depth 0, so the result is the same for every multiplier. */
  method CalculateCost(doc: Document, depthMultiplier: real) returns (total: real)
    requires OperationsEndInTurn(doc)
    ensures total == CostOf(doc) as real
  {
    var frags: Fragments := map[];
    total := 0.0;
    for i := 0 to |doc|
      invariant frags == FragmentsOf(doc[..i])
      invariant OperationsEndInTurn(doc[..i]) && total == CostOf(doc[..i]) as real
    {
      assert doc[..i + 1][..i] == doc[..i];
      PrefixEndsInTurn(doc, i);
      PrefixEndsInTurn(doc, i + 1);
      match doc[i] {
        case FragmentDef(n, body) => frags := frags[n := body];
        case Operation(body) =>
          var cost := CostForOperation(body, frags, depthMultiplier, 0);
          total := total + cost;
        case Other =>
      }
    }
    assert doc[..|doc|] == doc;
  }

  /** The operations alone, every spread replaced by what it stands for in the whole document. */
  ghost function InlinedDoc(doc: Document, frags: Fragments): Document
    requires OperationsEnd(doc, frags)
  {
    if doc == [] then []
    else
      var before := InlinedDoc(doc[..|doc| - 1], frags);
      match doc[|doc| - 1]
      case Operation(body) => before + [Operation(Inlined(body, frags))]
      case _ => before
  }

  lemma {:induction false} OnlyOperations(doc: Document)
    requires forall op :: op in doc ==> op.Operation?
    ensures FragmentsOf(doc) == map[] && OperationsEndInTurn(doc)
  {
    var none := NoFragments();
    if doc != [] {
      var init := doc[..|doc| - 1];
      OnlyOperations(init);
      forall i | 0 <= i < |doc| ensures Ends(doc[i].body, FragmentsOf(doc[..i])) {
        assert doc[i] in doc && doc[..i] == if i < |init| then init[..i] else init;
      }
      assert doc[|doc| - 1] in doc;
    }
  }

  lemma {:induction false} InlinedDocOperations(doc: Document, frags: Fragments)
    requires OperationsEnd(doc, frags)
    ensures forall op :: op in InlinedDoc(doc, frags) ==> op.Operation? && NoSpreads(op.body)
    ensures FragmentsOf(InlinedDoc(doc, frags)) == map[]
    ensures OperationsEndInTurn(InlinedDoc(doc, frags))
  {
    if doc != [] {
      InlinedDocOperations(doc[..|doc| - 1], frags);
      match doc[|doc| - 1]
      case Operation(body) => InlinedHasNoSpreads(body, frags);
      case _ =>
    }
    OnlyOperations(InlinedDoc(doc, frags));
  }

  /** A document and its inlined form have the same depth and breadth, however it is ordered. */
  lemma {:induction false} InlinedDocPreserves(doc: Document, frags: Fragments)
    requires OperationsEnd(doc, frags)
    ensures DepthOf(InlinedDoc(doc, frags), NoFragments()) == DepthOf(doc, frags)
    ensures BreadthOf(InlinedDoc(doc, frags), NoFragments()) == BreadthOf(doc, frags)
  {
    if doc != [] {
      var init := doc[..|doc| - 1];
      InlinedDocPreserves(init, frags);
      match doc[|doc| - 1]
      case Operation(body) =>
        InliningPreservesDepth(body, frags, 1);
        InliningPreservesBreadth(body, frags);
        var r := InlinedDoc(doc, frags);
        assert r[..|r| - 1] == InlinedDoc(init, frags);
      case _ =>
    }
  }

  lemma CostAppends(doc: Document, body: Selections)
    requires forall op :: op in doc ==> op.Operation?
    ensures OperationsEndInTurn(doc) && OperationsEndInTurn(doc + [Operation(body)])
    ensures CostOf(doc + [Operation(body)]) == CostOf(doc) + Cost(body, NoFragments())
  {
    var more := doc + [Operation(body)];
    OnlyOperations(doc);
    OnlyOperations(more);
    assert more[..|more| - 1] == doc;
  }

  /** The operations alone, every spread replaced by what it stands for where the operation is written. */
  ghost function InlinedInTurn(doc: Document): (r: Document)
    requires OperationsEndInTurn(doc)
    ensures forall op :: op in r ==> op.Operation? && NoSpreads(op.body)
  {
    if doc == [] then []
    else
      var init := doc[..|doc| - 1];
      PrefixEndsInTurn(doc, |init|);
      match doc[|doc| - 1]
      case Operation(body) =>
        InlinedHasNoSpreads(body, FragmentsOf(init));
        InlinedInTurn(init) + [Operation(Inlined(body, FragmentsOf(init)))]
      case _ => InlinedInTurn(init)
  }

  /** Whatever the order of its definitions, a document is charged for each operation as written there. */
  lemma {:induction false} CostInTurn(doc: Document)
    requires OperationsEndInTurn(doc)
    ensures OperationsEndInTurn(InlinedInTurn(doc)) && CostOf(InlinedInTurn(doc)) == CostOf(doc)
  {
    OnlyOperations(InlinedInTurn(doc));
    if doc != [] {
      var init := doc[..|doc| - 1];
      PrefixEndsInTurn(doc, |init|);
      CostInTurn(init);
      if doc[|doc| - 1].Operation? {
        var body := doc[|doc| - 1].body;
        InliningPreservesCost(body, FragmentsOf(init));
        CostAppends(InlinedInTurn(init), Inlined(body, FragmentsOf(init)));
      }
    }
  }

  // ----- When the cost of a document is the cost of what it asks for ---------------------

  ghost predicate Extends(part: Fragments, whole: Fragments) {
    forall n :: n in part ==> n in whole && whole[n] == part[n]
  }

  lemma {:induction false} ExtendsWithin(ss: Selections, part: Fragments, whole: Fragments, k: nat)
    requires Extends(part, whole) && Within(ss, whole, k)
    ensures Within(ss, part, k)
    decreases k, Size(ss)
  {
    if ss != [] {
      ExtendsWithin(ss[1..], part, whole, k);
      match Children(ss[0], part)
      case Absent =>
      case Set(c) =>
        assert Children(ss[0], whole) == Set(c);
        ExtendsWithin(c, part, whole, if ss[0].Spread? then k - 1 else k);
    }
  }

  lemma ExtendsEnds(ss: Selections, part: Fragments, whole: Fragments)
    requires Extends(part, whole) && Ends(ss, whole)
    ensures Ends(ss, part)
  {
    ExtendsWithin(ss, part, whole, Height(ss, whole));
  }

  /**
   Every spread met while `part` is in force is defined in `part`, or stands for no field at all
   in the whole document.
   */
  ghost predicate Resolved(ss: Selections, part: Fragments, whole: Fragments)
    requires Extends(part, whole) && Ends(ss, whole)
    decreases Height(ss, whole), Size(ss)
  {
    if ss == [] then true
    else
      Parts(ss, whole);
      Resolved(ss[1..], part, whole) &&
      match Children(ss[0], whole)
      case Absent => true
      case Set(c) => if ss[0].Spread? && ss[0].name !in part then Fields(c, whole) == 0 else Resolved(c, part, whole)
  }

  lemma {:induction false} CostWithPart(ss: Selections, part: Fragments, whole: Fragments)
    requires Extends(part, whole) && Ends(ss, whole)
    ensures Ends(ss, part) && Cost(ss, part) <= Cost(ss, whole)
    ensures Cost(ss, part) == Cost(ss, whole) <==> Resolved(ss, part, whole)
    decreases Height(ss, whole), Size(ss)
  {
    ExtendsEnds(ss, part, whole);
    if ss != [] {
      Parts(ss, whole);
      CostWithPart(ss[1..], part, whole);
      match Children(ss[0], whole)
      case Absent =>
      case Set(c) =>
        if ss[0].Spread? && ss[0].name !in part {
          CostCountsFields(c, whole);
        } else {
          CostWithPart(c, part, whole);
        }
    }
  }

  /** At each operation, the fragments already seen mean what they mean in `whole`. */
  ghost predicate SeenAgree(doc: Document, whole: Fragments) {
    forall i :: 0 <= i < |doc| && doc[i].Operation? ==> Extends(FragmentsOf(doc[..i]), whole)
  }

  lemma SeenAgreeParts(doc: Document, whole: Fragments)
    requires SeenAgree(doc, whole) && doc != []
    ensures var init, last := doc[..|doc| - 1], doc[|doc| - 1];
            SeenAgree(init, whole) && (last.Operation? ==> Extends(FragmentsOf(init), whole))
  {
    var init := doc[..|doc| - 1];
    forall i | 0 <= i < |init| && init[i].Operation? ensures Extends(FragmentsOf(init[..i]), whole) {
      assert init[..i] == doc[..i];
    }
  }

  lemma SeenAgreeEnds(doc: Document, whole: Fragments)
    requires OperationsEnd(doc, whole) && SeenAgree(doc, whole)
    ensures OperationsEndInTurn(doc)
  {
    forall i | 0 <= i < |doc| && doc[i].Operation? ensures Ends(doc[i].body, FragmentsOf(doc[..i])) {
      ExtendsEnds(doc[i].body, FragmentsOf(doc[..i]), whole);
    }
  }

  ghost predicate ResolvedDoc(doc: Document, whole: Fragments)
    requires OperationsEnd(doc, whole) && SeenAgree(doc, whole)
  {
    if doc == [] then true
    else
      SeenAgreeParts(doc, whole);
      var init := doc[..|doc| - 1];
      ResolvedDoc(init, whole) &&
      (doc[|doc| - 1].Operation? ==> Resolved(doc[|doc| - 1].body, FragmentsOf(init), whole))
  }

  lemma {:induction false} CostOfInlined(doc: Document, whole: Fragments)
    requires OperationsEnd(doc, whole) && SeenAgree(doc, whole) && OperationsEndInTurn(doc)
    requires OperationsEndInTurn(InlinedDoc(doc, whole))
    ensures CostOf(doc) <= CostOf(InlinedDoc(doc, whole))
    ensures CostOf(doc) == CostOf(InlinedDoc(doc, whole)) <==> ResolvedDoc(doc, whole)
  {
    if doc != [] {
      var init := doc[..|doc| - 1];
      SeenAgreeParts(doc, whole);
      PrefixEndsInTurn(doc, |init|);
      InlinedDocOperations(init, whole);
      CostOfInlined(init, whole);
      if doc[|doc| - 1].Operation? {
        var body := doc[|doc| - 1].body;
        CostWithPart(body, FragmentsOf(init), whole);
        InliningPreservesCost(body, whole);
        CostAppends(InlinedDoc(init, whole), Inlined(body, whole));
      }
    }
  }

  ghost predicate UniqueNames(doc: Document) {
    forall i, j :: 0 <= i < j < |doc| && doc[i].FragmentDef? && doc[j].FragmentDef? ==> doc[i].name != doc[j].name
  }

  lemma {:induction false} FragmentsDefined(doc: Document, n: string) returns (i: nat)
    requires n in FragmentsOf(doc)
    ensures i < |doc| && doc[i] == FragmentDef(n, FragmentsOf(doc)[n])
  {
    var last := |doc| - 1;
    if doc[last].FragmentDef? && doc[last].name == n {
      i := last;
    } else {
      i := FragmentsDefined(doc[..last], n);
    }
  }

  lemma {:induction false} PrefixFragments(doc: Document, i: nat)
    requires i <= |doc|
    requires UniqueNames(doc) || forall j :: i <= j < |doc| ==> !doc[j].FragmentDef?
    ensures Extends(FragmentsOf(doc[..i]), FragmentsOf(doc))
    ensures (forall j :: i <= j < |doc| ==> !doc[j].FragmentDef?) ==> FragmentsOf(doc[..i]) == FragmentsOf(doc)
  {
    if i == |doc| {
      assert doc[..i] == doc;
    } else {
      var init := doc[..|doc| - 1];
      PrefixFragments(init, i);
      assert init[..i] == doc[..i];
      if doc[|doc| - 1].FragmentDef? {
        forall n | n in FragmentsOf(init) ensures n != doc[|doc| - 1].name {
          var j := FragmentsDefined(init, n);
          assert doc[j] == init[j];
        }
      }
    }
  }

  /** Distinct names, as a valid document has, or fragments defined first: either way no fragment is replaced later. */
  lemma NoneReplaced(doc: Document)
    requires UniqueNames(doc) || FragmentsFirst(doc)
    ensures SeenAgree(doc, FragmentsOf(doc))
  {
    forall i | 0 <= i < |doc| && doc[i].Operation? ensures Extends(FragmentsOf(doc[..i]), FragmentsOf(doc)) {
      PrefixFragments(doc, i);
    }
  }

  /**
   If no fragment is replaced after an operation has seen it, the cost loop never charges more than
   the document asks for, and charges exactly that if and only if no operation spreads (directly or
   through other fragments) a fragment with fields that is defined after it.
   */
  lemma CostExactIff(doc: Document)
    requires OperationsEnd(doc, FragmentsOf(doc)) && SeenAgree(doc, FragmentsOf(doc))
    ensures var whole := FragmentsOf(doc);
            && OperationsEndInTurn(doc) && OperationsEndInTurn(InlinedDoc(doc, whole))
            && CostOf(doc) <= CostOf(InlinedDoc(doc, whole))
            && (CostOf(doc) == CostOf(InlinedDoc(doc, whole)) <==> ResolvedDoc(doc, whole))
  {
    var whole := FragmentsOf(doc);
    SeenAgreeEnds(doc, whole);
    InlinedDocOperations(doc, whole);
    CostOfInlined(doc, whole);
  }

  /** A fragment replaced after an operation spread it is charged as it was then, here for a field nobody asks for. */
  lemma CostChargesReplacedFragment()
    ensures var body := [Field("id", 0, Absent)];
            var doc := [FragmentDef("f", body), Operation([Spread("f")]), FragmentDef("f", [])];
            && OperationsEndInTurn(doc) && CostOf(doc) == 2
            && OperationsEnd(doc, FragmentsOf(doc)) && Fields(doc[1].body, FragmentsOf(doc)) == 0
  {
    var body := [Field("id", 0, Absent)];
    var first, spread, second := FragmentDef("f", body), Operation([Spread("f")]), FragmentDef("f", []);
    var doc := [first, spread, second];
    assert doc[..0] == [] && doc[..1] == [first] && doc[..2] == [first, spread];
    assert [first][..0] == [] && [first, spread][..1] == [first];
    assert FragmentsOf([first][..0]) == map[];
    assert FragmentsOf([first]) == map["f" := body];
    assert FragmentsOf([first, spread]) == FragmentsOf([first, spread][..1]);
    assert FragmentsOf(doc) == FragmentsOf(doc[..2])["f" := []];
    assert FragmentsOf(doc) == map["f" := []];
    var one, spreads := map["f" := body], [Spread("f")];
    assert Within(body, one, 0) && Within(spreads[1..], one, 1) && Within(spreads, one, 1);
    assert Within([], map["f" := []], 0) && Within(spreads[1..], map["f" := []], 1);
    assert Within(spreads, map["f" := []], 1);
    assert OperationsEndInTurn(doc) && OperationsEndInTurn(doc[..2]) && OperationsEndInTurn(doc[..1]);
    assert body[1..] == [] && Children(body[0], one) == Absent && OwnCost(body[0]) == FieldCost("id", 0) == 2;
    assert Cost(body[1..], one) == 0 && Cost(body, one) == 2;
    assert spreads[1..] == [] && Children(spreads[0], one) == Set(body);
    assert Cost(spreads[1..], one) == 0 && Cost(spreads, one) == 2;
    assert CostOf([first][..0]) == 0 && CostOf([first]) == 0;
    assert CostOf([first, spread]) == 2;
    assert Fields([], FragmentsOf(doc)) == 0;
  }

  ghost predicate FragmentsFirst(doc: Document) {
    forall i, j :: 0 <= i < j < |doc| && doc[i].Operation? ==> !doc[j].FragmentDef?
  }

  lemma {:induction false} ResolvedByItself(ss: Selections, whole: Fragments)
    requires Ends(ss, whole)
    ensures Resolved(ss, whole, whole)
    decreases Height(ss, whole), Size(ss)
  {
    if ss != [] {
      Parts(ss, whole);
      ResolvedByItself(ss[1..], whole);
      match Children(ss[0], whole)
      case Absent =>
      case Set(c) => ResolvedByItself(c, whole);
    }
  }

  lemma {:induction false} AllSeenResolved(doc: Document, whole: Fragments)
    requires OperationsEnd(doc, whole) && SeenAgree(doc, whole)
    requires forall i :: 0 <= i < |doc| && doc[i].Operation? ==> FragmentsOf(doc[..i]) == whole
    ensures ResolvedDoc(doc, whole)
  {
    if doc != [] {
      var init := doc[..|doc| - 1];
      SeenAgreeParts(doc, whole);
      forall i | 0 <= i < |init| && init[i].Operation? ensures FragmentsOf(init[..i]) == whole {
        assert init[..i] == doc[..i];
      }
      AllSeenResolved(init, whole);
      if doc[|doc| - 1].Operation? {
        ResolvedByItself(doc[|doc| - 1].body, whole);
      }
    }
  }

  /** With fragments defined first (even twice), the cost is that of the inlined document. */
  lemma CostExactFragmentsFirst(doc: Document)
    requires FragmentsFirst(doc) && OperationsEnd(doc, FragmentsOf(doc))
    ensures var whole := FragmentsOf(doc);
            && OperationsEndInTurn(doc) && OperationsEndInTurn(InlinedDoc(doc, whole))
            && CostOf(doc) == CostOf(InlinedDoc(doc, whole))
  {
    var whole := FragmentsOf(doc);
    forall i | 0 <= i < |doc| && doc[i].Operation? ensures FragmentsOf(doc[..i]) == whole {
      PrefixFragments(doc, i);
    }
    CostExactIff(doc);
    AllSeenResolved(doc, whole);
  }

  /** An operation written before the fragment it spreads is charged nothing for it. */
  lemma CostMissesLaterFragment()
    ensures var doc := [Operation([Spread("f")]), FragmentDef("f", [Field("id", 0, Absent)])];
            && OperationsEndInTurn(doc) && CostOf(doc) == 0
            && OperationsEnd(doc, FragmentsOf(doc)) && Fields(doc[0].body, FragmentsOf(doc)) == 1
  {
    var body := [Field("id", 0, Absent)];
    var doc, none := [Operation([Spread("f")]), FragmentDef("f", body)], NoFragments();
    assert doc[..0] == [];
    assert doc[..1] == [doc[0]];
    assert FragmentsOf(doc[..1]) == map[];
    assert FragmentsOf(doc) == map["f" := body];
    assert Within(body, FragmentsOf(doc), 0) && Within(doc[0].body[1..], FragmentsOf(doc), 1);
    assert Within(doc[0].body, FragmentsOf(doc), 1);
    assert OperationsEndInTurn(doc) && OperationsEndInTurn(doc[..1]) && OperationsEndInTurn(doc[..0]);
    assert Cost([Spread("f")], map[]) == 0;
    assert CostOf(doc[..1][..0]) == 0;
    assert Fields(body, FragmentsOf(doc)) == 1;
  }

  // ----- Introspection ------------------------------------------------------------------

  function IterFields(ss: Selections): seq<Selection>
    decreases Size(ss)
  {
    if ss == [] then []
    else
      var s := ss[0];
      assert SelectionSize(s) <= Size(ss);
      var here := if s.Field? then [s] else [];
      var inside := if !s.Spread? && s.sub.Set? then IterFields(s.sub.items) else [];
      here + inside + IterFields(ss[1..])
  }

  /** `name.startswith("__")` */
  predicate Meta(s: Selection) {
    s.Field? && "__" <= s.name
  }

  ghost predicate AsksMeta(ss: Selections) {
    exists f :: f in IterFields(ss) && Meta(f)
  }

  ghost predicate Introspects(doc: Document) {
    exists i :: 0 <= i < |doc| && !doc[i].Other? && AsksMeta(doc[i].body)
  }

  method IsIntrospection(doc: Document) returns (found: bool)
    ensures found <==> Introspects(doc)
  {
    for i := 0 to |doc|
      invariant forall k :: 0 <= k < i && !doc[k].Other? ==> !AsksMeta(doc[k].body)
    {
      if !doc[i].Other? {
        var fields := IterFields(doc[i].body);
        for j := 0 to |fields|
          invariant forall k :: 0 <= k < j ==> !Meta(fields[k])
        {
          if Meta(fields[j]) {
            return true;
          }
        }
      }
    }
    return false;
  }

  /** A meta field of the inlined selection set is written in it, or in some fragment. */
  lemma {:induction false} InlinedMeta(ss: Selections, frags: Fragments)
    requires Ends(ss, frags) && AsksMeta(Inlined(ss, frags))
    ensures AsksMeta(ss) || exists n :: n in frags && AsksMeta(frags[n])
    decreases Height(ss, frags), Size(ss)
  {
    if ss != [] {
      Parts(ss, frags);
      InlinedParts(ss, frags);
      var r := Inlined(ss, frags);
      var f :| f in IterFields(r) && Meta(f);
      var c := Children(ss[0], frags);
      if f in IterFields(r[1..]) {
        InlinedMeta(ss[1..], frags);
        if AsksMeta(ss[1..]) {
          var g :| g in IterFields(ss[1..]) && Meta(g);
          assert g in IterFields(ss);
        }
      } else if f == r[0] {
        assert ss[0] in IterFields(ss) && Meta(ss[0]);
      } else {
        assert r[0].sub == Children(r[0], map[]);
        assert c.Set? && f in IterFields(Inlined(c.items, frags));
        InlinedMeta(c.items, frags);
        if AsksMeta(c.items) {
          var g :| g in IterFields(c.items) && Meta(g);
          assert !ss[0].Spread? ==> g in IterFields(ss);
        }
      }
    }
  }

  /** Definitions are scanned without following spreads, yet no inlined operation escapes the scan. */
  lemma {:induction false} IntrospectionSeesInlined(doc: Document, part: Document, frags: Fragments)
    requires OperationsEnd(part, frags) && frags == FragmentsOf(doc)
    requires forall i :: 0 <= i < |part| ==> part[i] in doc
    requires Introspects(InlinedDoc(part, frags))
    ensures Introspects(doc)
    decreases |part|
  {
    var r := InlinedDoc(part, frags);
    var i :| 0 <= i < |r| && !r[i].Other? && AsksMeta(r[i].body);
    var init, last := part[..|part| - 1], part[|part| - 1];
    var s := InlinedDoc(init, frags);
    if i < |s| {
      assert r[i] == s[i];
      IntrospectionSeesInlined(doc, init, frags);
    } else {
      assert last.Operation?;
      InlinedMeta(last.body, frags);
      if !AsksMeta(last.body) {
        var n :| n in frags && AsksMeta(frags[n]);
        var k := FragmentsDefined(doc, n);
      }
    }
  }

  // ----- The validation pipeline --------------------------------------------------------

  datatype Config = Config(depthLimit: nat, breadthLimit: nat, costLimitHalves: nat, introspectionEnabled: bool)

  const DEPTH_MULTIPLIER := 1.5

  datatype Verdict =
    | TooDeep(depth: nat)
    | TooBroad(breadth: nat)
    | TooCostly(halves: nat)
    | IntrospectionDisabled
    | Forwarded

  /** Every analyzer that gets to see the document comes to an end. */
  ghost predicate Analyzable(config: Config, doc: Document) {
    var frags := FragmentsOf(doc);
    && OperationsEnd(doc, frags)
    && (DepthOf(doc, frags) <= config.depthLimit && BreadthOf(doc, frags) <= config.breadthLimit ==>
          OperationsEndInTurn(doc))
  }

  ghost function Decide(config: Config, doc: Document): Verdict
    requires Analyzable(config, doc)
  {
    var frags := FragmentsOf(doc);
    if DepthOf(doc, frags) > config.depthLimit then TooDeep(DepthOf(doc, frags))
    else if BreadthOf(doc, frags) > config.breadthLimit then TooBroad(BreadthOf(doc, frags))
    else if CostOf(doc) > config.costLimitHalves then TooCostly(CostOf(doc))
    else if !config.introspectionEnabled && Introspects(doc) then IntrospectionDisabled
    else Forwarded
  }

  method Validate(config: Config, doc: Document) returns (verdict: Verdict)
    requires Analyzable(config, doc)
    ensures verdict == Decide(config, doc)
    ensures verdict.Forwarded? <==>
              && DepthOf(doc, FragmentsOf(doc)) <= config.depthLimit
              && BreadthOf(doc, FragmentsOf(doc)) <= config.breadthLimit
              && CostOf(doc) <= config.costLimitHalves
              && (config.introspectionEnabled || !Introspects(doc))
    ensures verdict.TooCostly? ==> OperationsEndInTurn(doc) && config.costLimitHalves < verdict.halves == CostOf(doc)
    ensures verdict.TooBroad? ==> config.breadthLimit < verdict.breadth == BreadthOf(doc, FragmentsOf(doc))
    ensures verdict.TooDeep? ==> config.depthLimit < verdict.depth == DepthOf(doc, FragmentsOf(doc))
  {
    var depth := QueryDepth(doc);
    if depth > config.depthLimit {
      return TooDeep(depth);
    }
    var breadth := QueryBreadth(doc);
    if breadth > config.breadthLimit {
      return TooBroad(breadth);
    }
    var cost := CalculateCost(doc, DEPTH_MULTIPLIER);
    if cost > config.costLimitHalves as real {
      return TooCostly(cost.Floor);
    }
    if !config.introspectionEnabled {
      var introspects := IsIntrospection(doc);
      if introspects {
        return IntrospectionDisabled;
      }
    }
    return Forwarded;
  }

  lemma {:induction false} OperationWithinDocument(doc: Document, i: nat)
    requires i < |doc| && doc[i].Operation?
    ensures OperationsEnd(doc, NoFragments())
    ensures Depth(doc[i].body, NoFragments(), 1) <= DepthOf(doc, NoFragments())
    ensures Breadth(doc[i].body, NoFragments()) <= BreadthOf(doc, NoFragments())
  {
    if i < |doc| - 1 {
      OperationWithinDocument(doc[..|doc| - 1], i);
    }
  }

  /** A forwarded document asks, once inlined, for at most b + ... + b^d selections per operation. */
  lemma ForwardedSize(config: Config, doc: Document)
    requires Analyzable(config, doc) && Decide(config, doc).Forwarded?
    ensures forall op :: op in InlinedDoc(doc, FragmentsOf(doc)) ==>
              op.Operation? && Size(op.body) <= Geometric(config.breadthLimit, config.depthLimit)
    ensures !config.introspectionEnabled ==> !Introspects(InlinedDoc(doc, FragmentsOf(doc)))
  {
    var frags := FragmentsOf(doc);
    var inlined := InlinedDoc(doc, frags);
    InlinedDocPreserves(doc, frags);
    InlinedDocOperations(doc, frags);
    forall op | op in inlined ensures Size(op.body) <= Geometric(config.breadthLimit, config.depthLimit) {
      var i :| 0 <= i < |inlined| && inlined[i] == op;
      OperationWithinDocument(inlined, i);
      SizeBound(op.body, 1, config.breadthLimit, config.depthLimit);
    }
    if Introspects(inlined) {
      IntrospectionSeesInlined(doc, doc, frags);
    }
  }

  ghost function FieldsOf(doc: Document): nat
  {
    if doc == [] then 0
    else
      var before := FieldsOf(doc[..|doc| - 1]);
      match doc[|doc| - 1]
      case Operation(body) => before + Fields(body, NoFragments())
      case _ => before
  }

  lemma {:induction false} CostOfCountsFields(doc: Document)
    requires OperationsEndInTurn(doc) && forall op :: op in doc ==> op.Operation?
    ensures CostOf(doc) >= 2 * FieldsOf(doc) && FragmentsOf(doc) == map[]
  {
    var none := NoFragments();
    if doc != [] {
      PrefixEndsInTurn(doc, |doc| - 1);
      CostOfCountsFields(doc[..|doc| - 1]);
      CostCountsFields(doc[|doc| - 1].body, NoFragments());
    }
  }

  /** The cost limit bounds the fields asked for with the fragments in force at each operation. */
  lemma ForwardedFieldsInTurn(config: Config, doc: Document)
    requires Analyzable(config, doc) && Decide(config, doc).Forwarded?
    ensures OperationsEndInTurn(doc) && 2 * FieldsOf(InlinedInTurn(doc)) <= config.costLimitHalves
  {
    CostInTurn(doc);
    CostOfCountsFields(InlinedInTurn(doc));
  }

  /** With every needed fragment defined in time, the cost limit bounds the fields asked for. */
  lemma ForwardedFields(config: Config, doc: Document)
    requires Analyzable(config, doc)
    requires FragmentsFirst(doc) || (SeenAgree(doc, FragmentsOf(doc)) && ResolvedDoc(doc, FragmentsOf(doc)))
    requires Decide(config, doc).Forwarded?
    ensures 2 * FieldsOf(InlinedDoc(doc, FragmentsOf(doc))) <= config.costLimitHalves
  {
    var inlined := InlinedDoc(doc, FragmentsOf(doc));
    if FragmentsFirst(doc) {
      CostExactFragmentsFirst(doc);
    } else {
      CostExactIff(doc);
    }
    InlinedDocOperations(doc, FragmentsOf(doc));
    CostOfCountsFields(inlined);
  }
}
