/**
 Role-based access control: roles inherit from one another over a graph that may contain
 cycles, and the engine caches every role's expanded permission set.

 `Expand` is the depth-first walk with copied visited sets; `Granted` is plain graph
 reachability.  The file proves the two agree on every graph, and then says exactly when
 the cache agrees with the graph after roles are added and removed.
 */
module Rbac {

  /** The two dicts that define the hierarchy: direct permissions and ordered parents. */
  datatype Graph = Graph(direct: map<string, set<string>>, inherits: map<string, seq<string>>)
  {
    function Direct(role: string): set<string> {
      if role in direct then direct[role] else {}
    }

    function Parents(role: string): seq<string> {
      if role in inherits then inherits[role] else []
    }

    function Define(role: string, permissions: set<string>, parents: seq<string>): Graph {
      Graph(direct[role := permissions], inherits[role := parents])
    }
  }

  datatype RoleDef = RoleDef(name: string, permissions: set<string>, inherits: seq<string>)

  // ----- The walk ---------------------------------------------------------------------

  /** The set the recursive walk collects from `role`, never entering `visited`. */
  ghost function Expand(g: Graph, role: string, visited: set<string>): set<string>
    decreases g.inherits.Keys - visited, 1
  {
    if role in visited then {}
    else g.Direct(role) + ExpandAll(g, g.Parents(role), visited + {role})
  }

  ghost function ExpandAll(g: Graph, parents: seq<string>, visited: set<string>): set<string>
    decreases g.inherits.Keys - visited, 2 * |parents|
  {
    if parents == [] then {}
    else Expand(g, parents[0], visited) + ExpandAll(g, parents[1..], visited)
  }

  // ----- Reachability -----------------------------------------------------------------

  /** `p` walks from `a` to `b` along inheritance edges and never enters `avoid`. */
  ghost predicate Walk(g: Graph, p: seq<string>, a: string, b: string, avoid: set<string>)
    decreases |p|
  {
    && p != []
    && p[0] == a
    && a !in avoid
    && if |p| == 1 then a == b else p[1] in g.Parents(a) && Walk(g, p[1..], p[1], b, avoid)
  }

  ghost predicate Reaches(g: Graph, a: string, b: string, avoid: set<string>) {
    exists p :: Walk(g, p, a, b, avoid)
  }

  /** Some role reachable from `a` outside `avoid` holds `perm` directly. */
  ghost predicate Granted(g: Graph, a: string, perm: string, avoid: set<string>) {
    exists b :: Reaches(g, a, b, avoid) && perm in g.Direct(b)
  }

  lemma WalkStep(g: Graph, a: string, m: string, b: string, p: seq<string>, avoid: set<string>)
    requires a !in avoid && m in g.Parents(a) && Walk(g, p, m, b, avoid)
    ensures Walk(g, [a] + p, a, b, avoid)
  {
    assert ([a] + p)[1..] == p;
  }

  lemma {:induction false} WalkSuffix(g: Graph, p: seq<string>, a: string, b: string, avoid: set<string>, j: nat)
    requires Walk(g, p, a, b, avoid) && j < |p|
    ensures Walk(g, p[j..], p[j], b, avoid)
  {
    if j > 0 {
      WalkSuffix(g, p[1..], p[1], b, avoid, j - 1);
      assert p[1..][j - 1..] == p[j..];
    }
  }

  lemma {:induction false} WalkAvoidsMore(
      g: Graph, p: seq<string>, a: string, b: string, avoid: set<string>, extra: string)
    requires Walk(g, p, a, b, avoid) && extra !in p
    ensures Walk(g, p, a, b, avoid + {extra})
    decreases |p|
  {
    if |p| > 1 {
      WalkAvoidsMore(g, p[1..], p[1], b, avoid, extra);
    }
  }

  lemma {:induction false} WalkConcat(g: Graph, p: seq<string>, a: string, m: string, q: seq<string>, b: string)
    requires Walk(g, p, a, m, {}) && Walk(g, q, m, b, {})
    ensures Reaches(g, a, b, {})
    decreases |p|
  {
    if |p| > 1 {
      WalkConcat(g, p[1..], p[1], m, q, b);
      var r :| Walk(g, r, p[1], b, {});
      WalkStep(g, a, p[1], b, r, {});
    }
  }

  lemma {:induction false} ExpandAllHas(g: Graph, parents: seq<string>, visited: set<string>, parent: string)
    requires parent in parents
    ensures Expand(g, parent, visited) <= ExpandAll(g, parents, visited)
    decreases |parents|
  {
    if parents[0] != parent {
      ExpandAllHas(g, parents[1..], visited, parent);
    }
  }

  /** Every walk is found: a walk that returns to its start is first cut down to a shorter one. */
  lemma {:induction false} ExpandComplete(
      g: Graph, p: seq<string>, a: string, b: string, visited: set<string>, perm: string)
    requires Walk(g, p, a, b, visited) && perm in g.Direct(b)
    ensures perm in Expand(g, a, visited)
    decreases |p|
  {
    if |p| > 1 {
      if a in p[1..] {
        var j :| 1 <= j < |p| && p[j] == a;
        WalkSuffix(g, p, a, b, visited, j);
        ExpandComplete(g, p[j..], a, b, visited, perm);
      } else {
        WalkAvoidsMore(g, p[1..], p[1], b, visited, a);
        ExpandComplete(g, p[1..], p[1], b, visited + {a}, perm);
        ExpandAllHas(g, g.Parents(a), visited + {a}, p[1]);
      }
    }
  }

  /** Nothing else is found: each collected permission comes with the walk that led to it. */
  lemma {:induction false} ExpandSound(g: Graph, a: string, visited: set<string>, perm: string)
    returns (p: seq<string>, b: string)
    requires perm in Expand(g, a, visited)
    ensures Walk(g, p, a, b, visited) && perm in g.Direct(b)
    decreases g.inherits.Keys - visited, 1
  {
    if perm in g.Direct(a) {
      p, b := [a], a;
    } else {
      p, b := ExpandAllSound(g, a, g.Parents(a), visited, perm);
    }
  }

  lemma {:induction false} ExpandAllSound(
      g: Graph, a: string, parents: seq<string>, visited: set<string>, perm: string)
    returns (p: seq<string>, b: string)
    requires a !in visited && perm in ExpandAll(g, parents, visited + {a})
    requires forall q :: q in parents ==> q in g.Parents(a)
    ensures Walk(g, p, a, b, visited) && perm in g.Direct(b)
    decreases g.inherits.Keys - (visited + {a}), 2 * |parents|
  {
    if perm in Expand(g, parents[0], visited + {a}) {
      var q;
      q, b := ExpandSound(g, parents[0], visited + {a}, perm);
      WalkShrinkAvoid(g, q, parents[0], b, visited, a);
      WalkStep(g, a, parents[0], b, q, visited);
      p := [a] + q;
    } else {
      p, b := ExpandAllSound(g, a, parents[1..], visited, perm);
    }
  }

  lemma {:induction false} WalkShrinkAvoid(
      g: Graph, p: seq<string>, a: string, b: string, avoid: set<string>, extra: string)
    requires Walk(g, p, a, b, avoid + {extra})
    ensures Walk(g, p, a, b, avoid)
    decreases |p|
  {
    if |p| > 1 {
      WalkShrinkAvoid(g, p[1..], p[1], b, avoid, extra);
    }
  }

  /** The naive recursion is exactly reachability, on every graph and for every visited set. */
  lemma ExpandIsReachability(g: Graph, role: string, avoid: set<string>, perm: string)
    ensures perm in Expand(g, role, avoid) <==> Granted(g, role, perm, avoid)
  {
    if perm in Expand(g, role, avoid) {
      var p, b := ExpandSound(g, role, avoid, perm);
    }
    if Granted(g, role, perm, avoid) {
      var b :| Reaches(g, role, b, avoid) && perm in g.Direct(b);
      var p :| Walk(g, p, role, b, avoid);
      ExpandComplete(g, p, role, b, avoid, perm);
    }
  }

  // ----- Removing a role ----------------------------------------------------------------

  /** Python's `list.remove`: only the first occurrence goes. */
  function RemoveFirst(s: seq<string>, x: string): (r: seq<string>)
    ensures x !in s ==> r == s
  {
    if s == [] then []
    else if s[0] == x then s[1..]
    else
      assert s == [s[0]] + s[1..];
      [s[0]] + RemoveFirst(s[1..], x)
  }

  lemma {:induction false} RemoveFirstKeeps(s: seq<string>, x: string, y: string)
    requires x != y
    ensures y in RemoveFirst(s, x) <==> y in s
  {
    if s != [] {
      assert s == [s[0]] + s[1..];
      if s[0] != x {
        RemoveFirstKeeps(s[1..], x, y);
      }
    }
  }

  /** `h` is `g` without the role `name`; edges that still point at `name` are allowed. */
  ghost predicate Drops(g: Graph, h: Graph, name: string) {
    && h.direct == g.direct - {name}
    && h.inherits.Keys == g.inherits.Keys - {name}
    && forall r, q :: r != name && q != name ==> (q in h.Parents(r) <==> q in g.Parents(r))
  }

  lemma {:induction false} WalkDropped(g: Graph, h: Graph, name: string, p: seq<string>, a: string, b: string)
    requires Drops(g, h, name) && b != name
    ensures Walk(g, p, a, b, {name}) <==> Walk(h, p, a, b, {})
    decreases |p|
  {
    if |p| > 1 {
      WalkDropped(g, h, name, p[1..], p[1], b);
      if p[1] == name {
        assert !Walk(g, p[1..], p[1], b, {name});
        assert !Walk(h, p[1..], p[1], b, {});
      }
    }
  }

  /**
   Whatever edges to a removed role remain, expansion gives what is reachable in the old graph
   without passing through that role.  So the order in which `remove_role` re-expands roles,
   while later ones still list the removed parent, cannot matter.
   */
  lemma ExpandDropped(g: Graph, h: Graph, name: string, role: string)
    requires Drops(g, h, name)
    ensures Expand(h, role, {}) == Expand(g, role, {name})
  {
    forall perm ensures perm in Expand(h, role, {}) <==> perm in Expand(g, role, {name}) {
      ExpandIsReachability(h, role, {}, perm);
      ExpandIsReachability(g, role, {name}, perm);
      if Granted(h, role, perm, {}) {
        var b :| Reaches(h, role, b, {}) && perm in h.Direct(b);
        var p :| Walk(h, p, role, b, {});
        assert b != name && h.Direct(b) == g.Direct(b);
        WalkDropped(g, h, name, p, role, b);
      }
      if Granted(g, role, perm, {name}) {
        var b :| Reaches(g, role, b, {name}) && perm in g.Direct(b);
        var p :| Walk(g, p, role, b, {name});
        WalkEnd(g, p, role, b, {name});
        assert h.Direct(b) == g.Direct(b);
        WalkDropped(g, h, name, p, role, b);
      }
    }
  }

  /** The graph while `remove_role` runs: the roles in `todo` still list all their old parents. */
  ghost function Pruned(g: Graph, name: string, todo: set<string>): Graph {
    Graph(g.direct - {name},
          map r | r in g.inherits && r != name ::
            if r in todo then g.inherits[r] else RemoveFirst(g.inherits[r], name))
  }

  lemma PrunedDrops(g: Graph, name: string, todo: set<string>)
    ensures Drops(g, Pruned(g, name, todo), name)
  {
    var h := Pruned(g, name, todo);
    assert h.inherits.Keys == g.inherits.Keys - {name};
    forall r, q | r != name && q != name ensures q in h.Parents(r) <==> q in g.Parents(r) {
      if r in g.inherits {
        RemoveFirstKeeps(g.inherits[r], name, q);
      }
    }
  }

  lemma PrunedStart(g: Graph, name: string)
    ensures Pruned(g, name, (g.inherits - {name}).Keys) == Graph(g.direct - {name}, g.inherits - {name})
  {}

  lemma PrunedStep(g: Graph, name: string, todo: set<string>, other: string)
    requires other in todo && other in g.inherits && other != name
    ensures var h := Pruned(g, name, todo);
            Pruned(g, name, todo - {other}) ==
            Graph(h.direct, h.inherits[other := RemoveFirst(h.inherits[other], name)])
  {}

  lemma {:induction false} WalkEnd(g: Graph, p: seq<string>, a: string, b: string, avoid: set<string>)
    requires Walk(g, p, a, b, avoid)
    ensures b !in avoid
    decreases |p|
  {
    if |p| > 1 {
      WalkEnd(g, p[1..], p[1], b, avoid);
    }
  }

  /** The roles not in `todo` are cached with what they reach without `name`. */
  ghost predicate Reexpanded(g: Graph, name: string, roles: map<string, set<string>>, todo: set<string>) {
    forall r :: r in roles && r !in todo ==> roles[r] == Expand(g, r, {name})
  }

  lemma ReexpandedMore(g: Graph, name: string, roles: map<string, set<string>>, todo: set<string>, other: string)
    requires Reexpanded(g, name, roles, todo)
    ensures Reexpanded(g, name, roles[other := Expand(g, other, {name})], todo - {other})
  {}

  lemma ReexpandedCoherent(g: Graph, name: string, roles: map<string, set<string>>)
    requires Reexpanded(g, name, roles, {})
    requires var h := Pruned(g, name, {}); roles.Keys == h.direct.Keys == h.inherits.Keys
    ensures CacheCoherent(Pruned(g, name, {}), roles)
  {
    var h := Pruned(g, name, {});
    PrunedDrops(g, name, {});
    forall r | r in roles ensures roles[r] == Expand(h, r, {}) {
      ExpandDropped(g, h, name, r);
    }
  }

  // ----- Defining a role ----------------------------------------------------------------

  /** The cache holds exactly the defined roles, each with its expansion over `g`. */
  ghost predicate CacheCoherent(g: Graph, roles: map<string, set<string>>) {
    && roles.Keys == g.direct.Keys == g.inherits.Keys
    && forall r :: r in roles ==> roles[r] == Expand(g, r, {})
  }

  /** The graphs differ at most in the definition of `name`. */
  ghost predicate SameElsewhere(g: Graph, h: Graph, name: string) {
    forall r :: r != name ==> g.Direct(r) == h.Direct(r) && g.Parents(r) == h.Parents(r)
  }

  lemma {:induction false} WalkAvoidingSame(g: Graph, h: Graph, name: string, p: seq<string>, a: string, b: string)
    requires SameElsewhere(g, h, name) && Walk(g, p, a, b, {name})
    ensures Walk(h, p, a, b, {}) && b != name
    decreases |p|
  {
    if |p| > 1 {
      WalkAvoidingSame(g, h, name, p[1..], p[1], b);
    }
  }

  /** The part of a walk up to its first visit to `name` uses no edge of `name`. */
  lemma {:induction false} ReachesSame(g: Graph, h: Graph, name: string, p: seq<string>, a: string)
    requires SameElsewhere(g, h, name) && Walk(g, p, a, name, {})
    ensures Reaches(h, a, name, {})
    decreases |p|
  {
    if a == name {
      assert Walk(h, [name], name, name, {});
    } else {
      ReachesSame(g, h, name, p[1..], p[1]);
      var q :| Walk(h, q, p[1], name, {});
      WalkStep(h, a, p[1], name, q, {});
    }
  }

  /** A walk in the new graph either avoids `name`, or passes through it. */
  lemma {:induction false} WalkSplits(g: Graph, h: Graph, name: string, p: seq<string>, a: string, b: string)
    requires SameElsewhere(g, h, name) && Walk(h, p, a, b, {})
    ensures Reaches(g, a, b, {name}) || (Reaches(g, a, name, {}) && Reaches(h, name, b, {}))
    decreases |p|
  {
    if a == name {
      assert Walk(g, [name], name, name, {});
    } else if |p| == 1 {
      assert Walk(g, p, a, b, {name});
    } else {
      WalkSplits(g, h, name, p[1..], p[1], b);
      if Reaches(g, p[1], b, {name}) {
        var q :| Walk(g, q, p[1], b, {name});
        WalkStep(g, a, p[1], b, q, {name});
      } else {
        var q :| Walk(g, q, p[1], name, {});
        WalkStep(g, a, p[1], name, q, {});
      }
    }
  }

  lemma ExpandRedefined(g: Graph, h: Graph, name: string, role: string)
    requires SameElsewhere(g, h, name) && role != name
    ensures Expand(h, role, {}) == Expand(g, role, {name}) +
              (if Reaches(g, role, name, {}) then Expand(h, name, {}) else {})
  {
    var via := if Reaches(g, role, name, {}) then Expand(h, name, {}) else {};
    forall perm ensures perm in Expand(h, role, {}) <==> perm in Expand(g, role, {name}) + via {
      ExpandIsReachability(h, role, {}, perm);
      ExpandIsReachability(g, role, {name}, perm);
      ExpandIsReachability(h, name, {}, perm);
      if Granted(h, role, perm, {}) {
        var b :| Reaches(h, role, b, {}) && perm in h.Direct(b);
        var p :| Walk(h, p, role, b, {});
        WalkSplits(g, h, name, p, role, b);
        if Reaches(g, role, b, {name}) {
          var q :| Walk(g, q, role, b, {name});
          WalkEnd(g, q, role, b, {name});
        }
      }
      if Granted(g, role, perm, {name}) {
        var b :| Reaches(g, role, b, {name}) && perm in g.Direct(b);
        var p :| Walk(g, p, role, b, {name});
        WalkAvoidingSame(g, h, name, p, role, b);
      }
      if Reaches(g, role, name, {}) && Granted(h, name, perm, {}) {
        var b :| Reaches(h, name, b, {}) && perm in h.Direct(b);
        var p :| Walk(g, p, role, name, {});
        ReachesSame(g, h, name, p, role);
        var q :| Walk(h, q, role, name, {});
        var r :| Walk(h, r, name, b, {});
        WalkConcat(h, q, role, name, r, b);
      }
    }
  }

  /** What `add_role` leaves in the cache: only the entry of `name` is recomputed. */
  ghost function CacheAfterAdd(roles: map<string, set<string>>, h: Graph, name: string): map<string, set<string>> {
    roles[name := Expand(h, name, {})]
  }

  /**
   Every role that already reaches `name` was cached with just the permissions it has without
   `name`, plus those `name` now brings.
   */
  ghost predicate NoStaleHeir(g: Graph, roles: map<string, set<string>>, h: Graph, name: string) {
    forall r :: r in roles && r != name && Reaches(g, r, name, {}) ==>
      roles[r] == Expand(g, r, {name}) + Expand(h, name, {})
  }

  /** `add_role` recomputes one entry only; this says exactly when that is enough. */
  lemma AddRoleCoherentIff(
      g: Graph, roles: map<string, set<string>>, name: string, permissions: set<string>, parents: seq<string>)
    requires CacheCoherent(g, roles)
    ensures var h := g.Define(name, permissions, parents);
            CacheCoherent(h, CacheAfterAdd(roles, h, name)) <==> NoStaleHeir(g, roles, h, name)
  {
    var h := g.Define(name, permissions, parents);
    DefineElsewhere(g, name, permissions, parents);
    if CacheCoherent(h, CacheAfterAdd(roles, h, name)) {
      CoherentNoStaleHeir(g, roles, h, name);
    }
    if NoStaleHeir(g, roles, h, name) {
      NoStaleHeirCoherent(g, roles, h, name);
    }
  }

  lemma DefineElsewhere(g: Graph, name: string, permissions: set<string>, parents: seq<string>)
    ensures var h := g.Define(name, permissions, parents);
            && SameElsewhere(g, h, name)
            && h.direct.Keys == g.direct.Keys + {name} && h.inherits.Keys == g.inherits.Keys + {name}
  {}

  lemma CoherentNoStaleHeir(g: Graph, roles: map<string, set<string>>, h: Graph, name: string)
    requires CacheCoherent(g, roles) && SameElsewhere(g, h, name)
    requires CacheCoherent(h, CacheAfterAdd(roles, h, name))
    ensures NoStaleHeir(g, roles, h, name)
  {
    forall r | r in roles && r != name && Reaches(g, r, name, {})
      ensures roles[r] == Expand(g, r, {name}) + Expand(h, name, {})
    {
      assert CacheAfterAdd(roles, h, name)[r] == roles[r];
      HeirAfterAdd(g, roles, h, name, r);
    }
  }

  lemma NoStaleHeirCoherent(g: Graph, roles: map<string, set<string>>, h: Graph, name: string)
    requires CacheCoherent(g, roles) && SameElsewhere(g, h, name) && NoStaleHeir(g, roles, h, name)
    requires h.direct.Keys == h.inherits.Keys == roles.Keys + {name}
    ensures CacheCoherent(h, CacheAfterAdd(roles, h, name))
  {
    forall r | r in roles && r != name ensures roles[r] == Expand(h, r, {}) {
      HeirAfterAdd(g, roles, h, name, r);
    }
  }

  lemma HeirAfterAdd(g: Graph, roles: map<string, set<string>>, h: Graph, name: string, r: string)
    requires CacheCoherent(g, roles) && SameElsewhere(g, h, name) && r in roles && r != name
    ensures roles[r] == Expand(h, r, {}) <==>
            (Reaches(g, r, name, {}) ==> roles[r] == Expand(g, r, {name}) + Expand(h, name, {}))
  {
    ExpandRedefined(g, h, name, r);
    ExpandRedefined(g, g, name, r);
  }

  /** For a name not yet defined, the condition is that no heir misses a permission `name` brings. */
  lemma AddFreshRoleCoherentIff(
      g: Graph, roles: map<string, set<string>>, name: string, permissions: set<string>, parents: seq<string>)
    requires CacheCoherent(g, roles) && name !in roles
    ensures var h := g.Define(name, permissions, parents);
            CacheCoherent(h, CacheAfterAdd(roles, h, name)) <==>
            forall r :: r in roles && Reaches(g, r, name, {}) ==> Expand(h, name, {}) <= roles[r]
  {
    var h := g.Define(name, permissions, parents);
    AddRoleCoherentIff(g, roles, name, permissions, parents);
    FreshRoleAddsNothing(g, roles, name);
    var brings := Expand(h, name, {});
    assert forall r :: r in roles ==> (roles[r] == roles[r] + brings <==> brings <= roles[r]);
  }

  lemma FreshRoleAddsNothing(g: Graph, roles: map<string, set<string>>, name: string)
    requires CacheCoherent(g, roles) && name !in roles
    ensures forall r :: r in roles ==> roles[r] == Expand(g, r, {name})
  {
    assert Expand(g, name, {}) == {};
    forall r | r in roles ensures roles[r] == Expand(g, r, {name}) {
      ExpandRedefined(g, g, name, r);
    }
  }

  /** A role defined before its parent keeps a cache entry without the parent's permissions. */
  lemma AddParentLateIsStale()
    ensures var g := Graph(map["editor" := {}], map["editor" := ["viewer"]]);
            var roles := map["editor" := {}];
            var h := g.Define("viewer", {"articles:read"}, []);
            && CacheCoherent(g, roles)
            && !CacheCoherent(h, CacheAfterAdd(roles, h, "viewer"))
  {
    var g := Graph(map["editor" := {}], map["editor" := ["viewer"]]);
    var roles: map<string, set<string>> := map["editor" := {}];
    var h := g.Define("viewer", {"articles:read"}, []);
    forall perm ensures perm !in Expand(g, "editor", {}) {
      if perm in Expand(g, "editor", {}) {
        var p, b := ExpandSound(g, "editor", {}, perm);
      }
    }
    assert Expand(g, "editor", {}) == {};
    assert Walk(h, ["editor", "viewer"][1..], "viewer", "viewer", {});
    assert Walk(h, ["editor", "viewer"], "editor", "viewer", {});
    ExpandComplete(h, ["editor", "viewer"], "editor", "viewer", {}, "articles:read");
    assert CacheAfterAdd(roles, h, "viewer")["editor"] == {};
  }

  /** If no defined role lists `name` as a parent, no other role reaches it. */
  lemma {:induction false} UnlistedUnreached(g: Graph, name: string, p: seq<string>, a: string)
    requires forall r :: r in g.inherits ==> name !in g.inherits[r]
    requires Walk(g, p, a, name, {})
    ensures a == name
    decreases |p|
  {
    if |p| > 1 {
      UnlistedUnreached(g, name, p[1..], p[1]);
    }
  }

  /** The definitions, each replacing an earlier one of the same name. */
  ghost function GraphOf(defs: seq<RoleDef>): Graph {
    if defs == [] then Graph(map[], map[])
    else
      var last := defs[|defs| - 1];
      GraphOf(defs[..|defs| - 1]).Define(last.name, last.permissions, last.inherits)
  }

  /** No definition lists a role that is defined only later. */
  ghost predicate ParentsFirst(defs: seq<RoleDef>) {
    forall i, j :: 0 <= i < j < |defs| ==> defs[j].name !in defs[i].inherits
  }

  lemma {:induction false} GraphOfLists(defs: seq<RoleDef>, name: string)
    requires forall i :: 0 <= i < |defs| ==> name !in defs[i].inherits
    ensures forall r :: r in GraphOf(defs).inherits ==> name !in GraphOf(defs).inherits[r]
  {
    if defs != [] {
      GraphOfLists(defs[..|defs| - 1], name);
    }
  }

  lemma LaterRoleHasNoHeir(defs: seq<RoleDef>, n: nat, roles: map<string, set<string>>)
    requires ParentsFirst(defs) && n < |defs|
    ensures forall h :: NoStaleHeir(GraphOf(defs[..n]), roles, h, defs[n].name)
  {
    var g, name := GraphOf(defs[..n]), defs[n].name;
    GraphOfLists(defs[..n], name);
    forall r | r != name ensures !Reaches(g, r, name, {}) {
      if Reaches(g, r, name, {}) {
        var p :| Walk(g, p, r, name, {});
        UnlistedUnreached(g, name, p, r);
      }
    }
  }

  // ----- Matching -----------------------------------------------------------------------

  /** `required.partition(":")[0]` */
  function Resource(s: string): (r: string)
    ensures r <= s && ':' !in r
    ensures r == s || (|r| < |s| && s[|r|] == ':')
  {
    if s == "" || s[0] == ':' then "" else [s[0]] + Resource(s[1..])
  }

  predicate Match(granted: set<string>, required: string) {
    "*" in granted || required in granted || Resource(required) + ":*" in granted
  }

  /** `q` is the permission itself, or everything, or everything on the permission's resource. */
  ghost predicate Covers(q: string, required: string) {
    q == "*" || q == required || exists resource :: q == resource + ":*" && OnResource(required, resource)
  }

  /** `required` is the resource, or something that follows it after a colon. */
  predicate OnResource(required: string, resource: string) {
    ':' !in resource && (required == resource || resource + ":" <= required)
  }

  ghost predicate Covered(granted: set<string>, required: string) {
    exists q :: q in granted && Covers(q, required)
  }

  /** Some listed role reaches a role whose own permissions cover `required`. */
  ghost predicate Allowed(g: Graph, names: seq<string>, required: string) {
    exists role, b, q :: role in names && Reaches(g, role, b, {}) && q in g.Direct(b) && Covers(q, required)
  }

  ghost predicate CacheAllows(roles: map<string, set<string>>, names: seq<string>, required: string) {
    exists role :: role in names && role in roles && Covered(roles[role], required)
  }

  lemma {:induction false} ResourceOf(required: string, resource: string)
    ensures OnResource(required, resource) <==> resource == Resource(required)
  {
    if required != "" && required[0] != ':' {
      assert required == [required[0]] + required[1..];
      if resource != "" {
        assert resource == [resource[0]] + resource[1..];
        ResourceOf(required[1..], resource[1..]);
        assert (resource + ":")[1..] == resource[1..] + ":";
        assert resource + ":" <= required <==> resource[0] == required[0] && resource[1..] + ":" <= required[1..];
      }
    }
  }

  /** The three lookups find a covering permission if there is one. */
  lemma MatchIffCovered(granted: set<string>, required: string)
    ensures Match(granted, required) <==> Covered(granted, required)
  {
    ResourceOf(required, Resource(required));
    if Match(granted, required) {
      var q := if "*" in granted then "*" else if required in granted then required else Resource(required) + ":*";
      assert q in granted && Covers(q, required);
    }
    forall q | q in granted && Covers(q, required) ensures Match(granted, required) {
      if q != "*" && q != required {
        var resource :| q == resource + ":*" && OnResource(required, resource);
        ResourceOf(required, resource);
      }
    }
  }

  lemma MatchExpansion(g: Graph, role: string, required: string)
    ensures Match(Expand(g, role, {}), required) <==>
            exists b, q :: Reaches(g, role, b, {}) && q in g.Direct(b) && Covers(q, required)
  {
    MatchIffCovered(Expand(g, role, {}), required);
    forall q {
      ExpandIsReachability(g, role, {}, q);
    }
  }

  /** In a coherent engine a cache lookup answers reachability in the role graph. */
  lemma CacheAnswersReachability(g: Graph, roles: map<string, set<string>>, names: seq<string>, required: string)
    requires CacheCoherent(g, roles)
    ensures CacheAllows(roles, names, required) <==> Allowed(g, names, required)
  {
    forall role, q {
      ExpandIsReachability(g, role, {}, q);
    }
    if Allowed(g, names, required) {
      var role, b, q :| role in names && Reaches(g, role, b, {}) && q in g.Direct(b) && Covers(q, required);
      assert q in Expand(g, role, {});
      assert role !in roles ==> Expand(g, role, {}) == {};
    }
  }

  // ----- The engine ---------------------------------------------------------------------

  class RBACEngine {
    var roles: map<string, set<string>>
    var direct: map<string, set<string>>
    var inherits: map<string, seq<string>>

    ghost function G(): Graph
      reads this
    {
      Graph(direct, inherits)
    }

    ghost predicate Valid()
      reads this
    {
      roles.Keys == direct.Keys == inherits.Keys
    }

    ghost predicate Coherent()
      reads this
    {
      CacheCoherent(G(), roles)
    }

    /** Defining parents before the roles that list them gives a coherent engine. */
    constructor (defs: seq<RoleDef>)
      ensures Valid() && G() == GraphOf(defs)
      ensures ParentsFirst(defs) ==> Coherent()
    {
      roles, direct, inherits := map[], map[], map[];
      new;
      for n := 0 to |defs|
        invariant Valid() && G() == GraphOf(defs[..n])
        invariant ParentsFirst(defs) ==> Coherent()
      {
        if ParentsFirst(defs) {
          LaterRoleHasNoHeir(defs, n, roles);
        }
        AddRole(defs[n].name, defs[n].permissions, defs[n].inherits);
        assert defs[..n + 1][..n] == defs[..n];
      }
      assert defs[..|defs|] == defs;
    }

    method AddRole(name: string, permissions: set<string>, parents: seq<string>)
      requires Valid()
      modifies this
      ensures Valid() && G() == old(G()).Define(name, permissions, parents)
      ensures roles == CacheAfterAdd(old(roles), G(), name)
      ensures old(Coherent()) ==> (Coherent() <==> NoStaleHeir(old(G()), old(roles), G(), name))
    {
      if Coherent() {
        AddRoleCoherentIff(G(), roles, name, permissions, parents);
      }
      direct := direct[name := permissions];
      inherits := inherits[name := parents];
      var expanded := ExpandRole(name, {});
      roles := roles[name := expanded];
    }

    /** Always repairs the cache, whatever state it was in. */
    method RemoveRole(name: string)
      requires Valid()
      modifies this
      ensures Valid() && Coherent() && G() == Pruned(old(G()), name, {})
      ensures forall r :: r in roles ==> roles[r] == Expand(old(G()), r, {name})
    {
      ghost var before := G();
      roles := roles - {name};
      direct := direct - {name};
      inherits := inherits - {name};
      var todo := inherits.Keys;
      PrunedStart(before, name);
      while todo != {}
        invariant Valid() && todo <= roles.Keys
        invariant G() == Pruned(before, name, todo)
        invariant Reexpanded(before, name, roles, todo)
        decreases todo
      {
        var other :| other in todo;
        ReexpandedMore(before, name, roles, todo, other);
        ReexpandWithout(other, name, before, todo);
        todo := todo - {other};
      }
      ReexpandedCoherent(before, name, roles);
    }

    /** One iteration of the loop in `remove_role`. */
    method ReexpandWithout(other: string, name: string, ghost before: Graph, ghost todo: set<string>)
      requires Valid() && other in todo && other in roles && G() == Pruned(before, name, todo)
      modifies this
      ensures G() == Pruned(before, name, todo - {other})
      ensures roles == old(roles)[other := Expand(before, other, {name})]
      ensures Valid() && roles.Keys == old(roles.Keys)
    {
      PrunedStep(before, name, todo, other);
      if name in inherits[other] {
        inherits := inherits[other := RemoveFirst(inherits[other], name)];
      }
      var expanded := ExpandRole(other, {});
      PrunedDrops(before, name, todo - {other});
      ExpandDropped(before, G(), name, other);
      roles := roles[other := expanded];
    }

    method GetRolePermissions(role: string) returns (permissions: set<string>)
      requires Valid()
      ensures Coherent() ==> forall perm :: perm in permissions <==> Granted(G(), role, perm, {})
      ensures permissions == if role in roles then roles[role] else {}
    {
      permissions := if role in roles then roles[role] else {};
      if Coherent() {
        assert role !in roles ==> Expand(G(), role, {}) == {};
        forall perm ensures perm in permissions <==> Granted(G(), role, perm, {}) {
          ExpandIsReachability(G(), role, {}, perm);
        }
      }
    }

    method HasPermission(names: seq<string>, permission: string) returns (allowed: bool)
      requires Valid()
      ensures allowed <==> CacheAllows(roles, names, permission)
      ensures Coherent() ==> (allowed <==> Allowed(G(), names, permission))
    {
      if Coherent() {
        CacheAnswersReachability(G(), roles, names, permission);
      }
      for i := 0 to |names|
        invariant !CacheAllows(roles, names[..i], permission)
      {
        var perms := if names[i] in roles then roles[names[i]] else {};
        MatchIffCovered(perms, permission);
        if Match(perms, permission) {
          return true;
        }
        assert names[..i + 1] == names[..i] + [names[i]];
      }
      assert names[..|names|] == names;
      return false;
    }

    method HasAnyPermission(names: seq<string>, permissions: seq<string>) returns (allowed: bool)
      requires Valid()
      ensures allowed <==> exists perm :: perm in permissions && CacheAllows(roles, names, perm)
      ensures Coherent() ==>
                (allowed <==> exists perm :: perm in permissions && Allowed(G(), names, perm))
    {
      if Coherent() {
        forall perm { CacheAnswersReachability(G(), roles, names, perm); }
      }
      for i := 0 to |names|
        invariant forall perm :: perm in permissions ==> !CacheAllows(roles, names[..i], perm)
      {
        var perms := if names[i] in roles then roles[names[i]] else {};
        for j := 0 to |permissions|
          invariant forall perm :: perm in permissions[..j] ==> !Covered(perms, perm)
        {
          MatchIffCovered(perms, permissions[j]);
          if Match(perms, permissions[j]) {
            assert CacheAllows(roles, names, permissions[j]);
            return true;
          }
        }
        assert names[..i + 1] == names[..i] + [names[i]];
      }
      assert names[..|names|] == names;
      return false;
    }

    method HasAllPermissions(names: seq<string>, permissions: seq<string>) returns (allowed: bool)
      requires Valid()
      ensures allowed <==> forall perm :: perm in permissions ==> CacheAllows(roles, names, perm)
      ensures Coherent() ==>
                (allowed <==> forall perm :: perm in permissions ==> Allowed(G(), names, perm))
    {
      if Coherent() {
        forall perm { CacheAnswersReachability(G(), roles, names, perm); }
      }
      for i := 0 to |permissions|
        invariant forall perm :: perm in permissions[..i] ==> CacheAllows(roles, names, perm)
      {
        var ok := HasPermission(names, permissions[i]);
        if !ok {
          return false;
        }
      }
      return true;
    }

    method ExpandRole(name: string, visited: set<string>) returns (expanded: set<string>)
      ensures expanded == Expand(G(), name, visited)
      decreases inherits.Keys - visited, 1
    {
      if name in visited {
        return {};
      }
      var seen := visited + {name};
      expanded := if name in direct then direct[name] else {};
      var parents := if name in inherits then inherits[name] else [];
      for i := 0 to |parents|
        invariant expanded + ExpandAll(G(), parents[i..], seen) == Expand(G(), name, visited)
      {
        var fromParent := ExpandRole(parents[i], seen);
        expanded := expanded + fromParent;
      }
    }
  }
}
