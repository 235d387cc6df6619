// Cutting crates out of the dependency graph (scripts/dep-sim.py): the worklist
// walk, and how cuts combine.
module DepCuts {
  import opened Prelude
  import opened DepGraph

  /** Whether the walk refuses the edge `u -> v`. */
  predicate Severed(u: Crate, v: Crate, root: Crate, cut: set<string>, globalCut: bool) {
    v.name in cut && (globalCut || u == root)
  }

  function Cut(g: Graph<Crate>, root: Crate, cut: set<string>, globalCut: bool): Graph<Crate> {
    map u | u in g :: set v | v in g[u] && !Severed(u, v, root, cut, globalCut)
  }

  /** The crates joined to the root by a path of permitted edges. */
  ghost function Survivors(g: Graph<Crate>, root: Crate, cut: set<string>, globalCut: bool): set<Crate> {
    if root.name in cut then {} else ReachSet(Cut(g, root, cut, globalCut), root)
  }

  method Reachable(root: Crate, children: Graph<Crate>, cut: set<string>, globalCut: bool) returns (seen: set<Crate>)
    ensures seen == Survivors(children, root, cut, globalCut)
    ensures seen == {} <==> root.name in cut
  {
    if root.name in cut {
      return {};
    }
    seen := {root};
    var stack := [root];
    ghost var h := Cut(children, root, cut, globalCut);
    ghost var universe := Mentioned(children) + {root};
    ReachSelf(h, root);
    while stack != []
      invariant root in seen && seen <= universe
      invariant forall x | x in stack :: x in seen
      invariant forall x | x in seen :: Reach(h, root, x)
      invariant forall u, v :: u in seen && u !in stack && HasEdge(h, u, v) ==> v in seen
      decreases universe - seen, |stack|
    {
      var cur := stack[|stack| - 1];
      assert stack == stack[..|stack| - 1] + [cur];
      stack := stack[..|stack| - 1];
      var atRoot := cur == root;
      var todo := if cur in children then children[cur] else {};
      ghost var seen0, stack0 := seen, stack;
      while todo != {}
        invariant seen0 <= seen <= universe && cur in seen0
        invariant todo <= ChildrenOf(children, cur)
        invariant forall x | x in stack :: x in seen
        invariant forall x | x in seen :: Reach(h, root, x)
        invariant forall u, v :: u in seen && u !in stack && u != cur && HasEdge(h, u, v) ==> v in seen
        invariant forall v :: HasEdge(h, cur, v) && v !in todo ==> v in seen
        invariant seen == seen0 ==> stack == stack0
        decreases todo
      {
        var child :| child in todo;
        todo := todo - {child};
        if child.name in cut && (globalCut || atRoot) {
          continue;
        }
        if child in seen {
          continue;
        }
        ReachStep(h, root, cur, child);
        assert child in universe - seen;
        seen := seen + {child};
        stack := stack + [child];
      }
    }
    ReachSetIs(h, root, seen);
  }

  // ------------------------------------------------------------------
  // How cuts combine
  // ------------------------------------------------------------------

  ghost function Lost(g: Graph<Crate>, root: Crate, cut: set<string>, globalCut: bool): set<Crate> {
    Survivors(g, root, {}, false) - Survivors(g, root, cut, globalCut)
  }

  /** The root is kept, whatever else is, unless it is cut itself; then nothing is. */
  lemma RootDecides(g: Graph<Crate>, root: Crate, cut: set<string>, globalCut: bool)
    ensures root.name in cut ==> Survivors(g, root, cut, globalCut) == {}
    ensures root.name !in cut ==> root in Survivors(g, root, cut, globalCut)
  {
    ReachSelf(Cut(g, root, cut, globalCut), root);
  }

  /** A global cut never keeps more than the same gate, and neither more than the baseline. */
  lemma ModesNest(g: Graph<Crate>, root: Crate, cut: set<string>)
    ensures Survivors(g, root, cut, true) <= Survivors(g, root, cut, false) <= Survivors(g, root, {}, false)
  {
    if root.name !in cut {
      ReachMonotone(Cut(g, root, cut, true), Cut(g, root, cut, false), root);
      ReachMonotone(Cut(g, root, cut, false), Cut(g, root, {}, false), root);
    }
  }

  lemma CutsAntitone(g: Graph<Crate>, root: Crate, a: set<string>, b: set<string>, globalCut: bool)
    requires a <= b
    ensures Survivors(g, root, b, globalCut) <= Survivors(g, root, a, globalCut)
  {
    if root.name !in b {
      ReachMonotone(Cut(g, root, b, globalCut), Cut(g, root, a, globalCut), root);
    }
  }

  /** Cutting a cohort together never loses less than its parts. */
  lemma CohortLosesParts(g: Graph<Crate>, root: Crate, a: set<string>, b: set<string>, globalCut: bool)
    ensures Lost(g, root, a, globalCut) + Lost(g, root, b, globalCut) <= Lost(g, root, a + b, globalCut)
  {
    CutsAntitone(g, root, a, a + b, globalCut);
    CutsAntitone(g, root, b, a + b, globalCut);
  }

  /** The graph with every edge back into the root removed. */
  function NoReturn<T(==)>(g: Graph<T>, root: T): Graph<T> {
    map u | u in g :: g[u] - {root}
  }

  /** The root's child `d` leads to `c` without passing the root again. */
  ghost predicate Enters<T(!new)>(g: Graph<T>, root: T, d: T, c: T) {
    HasEdge(g, root, d) && d != root && Reach(NoReturn(g, root), d, c)
  }

  lemma EnteredIsNotRoot<T(!new)>(g: Graph<T>, root: T, d: T, c: T)
    requires Enters(g, root, d, c)
    ensures c != root
  {
    var p :| PathTo(NoReturn(g, root), d, c, p);
    if |p| > 1 {
      assert HasEdge(NoReturn(g, root), p[|p| - 2], c);
    }
  }

  /**
   * Of a graph, remove some of the root's own edges and nothing else that the
   * root reaches: what it still reaches is what its other children lead to.
   */
  lemma RootEdgesOnly<T(!new)>(g: Graph<T>, h: Graph<T>, root: T, doors: set<T>, c: T)
    requires SubGraph(h, g)
    requires forall u, v :: u in ReachSet(g, root) && HasEdge(g, u, v) ==>
      (HasEdge(h, u, v) <==> u != root || v in doors)
    ensures c in ReachSet(h, root) <==> c == root || exists d :: d in doors && Enters(g, root, d, c)
  {
    ReachSetProperties(g, root);
    ReachSetProperties(h, root);
    ReachMonotone(h, g, root);
    if d :| d in doors && Enters(g, root, d, c) {
      EnteredIsReached(g, h, root, doors, d, c);
    }
    if c in ReachSet(h, root) {
      ReachedIsEntered(g, h, root, doors, c);
    }
  }

  lemma EnteredIsReached<T(!new)>(g: Graph<T>, h: Graph<T>, root: T, doors: set<T>, d: T, c: T)
    requires forall u, v :: u in ReachSet(g, root) && HasEdge(g, u, v) ==>
      (HasEdge(h, u, v) <==> u != root || v in doors)
    requires ReachSet(h, root) <= ReachSet(g, root) && Closed(h, ReachSet(h, root)) && root in ReachSet(h, root)
    requires d in doors && Enters(g, root, d, c)
    ensures c in ReachSet(h, root)
  {
    var n := NoReturn(g, root);
    var s := ReachSet(h, root) - {root};
    var p :| PathTo(n, d, c, p);
    assert HasEdge(h, root, d);
    forall u, v | u in s && HasEdge(n, u, v) ensures v in s {
      assert HasEdge(g, u, v);
    }
    PathStays(n, s, p);
  }

  lemma ReachedIsEntered<T(!new)>(g: Graph<T>, h: Graph<T>, root: T, doors: set<T>, c: T)
    requires SubGraph(h, g) && c in ReachSet(h, root)
    requires forall v :: HasEdge(h, root, v) ==> v in doors
    ensures c == root || exists d :: d in doors && Enters(g, root, d, c)
  {
    var n := NoReturn(g, root);
    var s := set x | x in ReachSet(h, root) && (x == root || exists d :: d in doors && Enters(g, root, d, x));
    forall u, v | u in s && HasEdge(h, u, v) ensures v in s {
      ReachStep(h, root, u, v);
      if v != root {
        if u == root {
          ReachSelf(n, v);
          assert Enters(g, root, v, v);
        } else {
          var d :| d in doors && Enters(g, root, d, u);
          ReachStep(n, d, u, v);
          assert Enters(g, root, d, v);
        }
      }
    }
    ReachSelf(h, root);
    var p :| PathTo(h, root, c, p);
    PathStays(h, s, p);
  }

  /**
   * A gate keeps a crate exactly when some dependency the root still names
   * leads to it without passing the root again, whatever its own name.
   */
  lemma GateKeepsExactly(g: Graph<Crate>, root: Crate, cut: set<string>, c: Crate)
    requires root.name !in cut
    ensures c in Survivors(g, root, cut, false) <==>
      c == root || exists d: Crate :: d.name !in cut && Enters(g, root, d, c)
  {
    var doors := set d | d in ChildrenOf(g, root) && d.name !in cut;
    RootEdgesOnly(g, Cut(g, root, cut, false), root, doors, c);
    assert forall d | Enters(g, root, d, c) :: d in doors <==> d.name !in cut;
  }

  lemma LostBehind(g: Graph<Crate>, root: Crate, a: set<string>, d: Crate, c: Crate)
    requires root.name !in a && c in Lost(g, root, a, false) && Enters(g, root, d, c)
    ensures d.name in a
  {
    GateKeepsExactly(g, root, a, c);
  }

  /**
   * For disjoint gates the losses are disjoint, so measuring dependencies one at
   * a time and adding up never counts a crate twice and never says too much.
   */
  lemma DisjointGatesAdd(g: Graph<Crate>, root: Crate, a: set<string>, b: set<string>)
    requires a !! b && root.name !in a + b
    ensures Lost(g, root, a, false) !! Lost(g, root, b, false)
    ensures |Lost(g, root, a, false)| + |Lost(g, root, b, false)| <= |Lost(g, root, a + b, false)|
  {
    var la, lb, lab := Lost(g, root, a, false), Lost(g, root, b, false), Lost(g, root, a + b, false);
    forall c | c in la ensures c !in lb {
      if c in lb {
        GateKeepsExactly(g, root, {}, c);
        ReachSelf(Cut(g, root, a, false), root);
        var d :| Enters(g, root, d, c);
        LostBehind(g, root, a, d, c);
        LostBehind(g, root, b, d, c);
      }
    }
    CohortLosesParts(g, root, a, b, false);
    assert la + lb + (lab - (la + lb)) == lab;
    assert |la + lb| == |la| + |lb|;
  }

  /** A gate cohort can lose a crate that neither part loses. */
  lemma CohortCanLoseMore() returns (g: Graph<Crate>, root: Crate, a: string, b: string, c: Crate)
    ensures root.name !in {a, b} && a != b
    ensures c in Lost(g, root, {a, b}, false)
    ensures c !in Lost(g, root, {a}, false) && c !in Lost(g, root, {b}, false)
  {
    var x, y;
    root, x, y, c := Crate("root", "1"), Crate("x", "1"), Crate("y", "1"), Crate("c", "1");
    a, b := "x", "y";
    g := map[root := {x, y}, x := {c}, y := {c}];
    ForkKeeps(g, root, y, c, {a});
    ForkKeeps(g, root, x, c, {b});
    ForkKeeps(g, root, x, c, {});
    ReachSelf(Cut(g, root, {a, b}, false), root);
    ReachSetIs(Cut(g, root, {a, b}, false), root, {root});
  }

  lemma ForkKeeps(g: Graph<Crate>, root: Crate, d: Crate, c: Crate, cut: set<string>)
    requires HasEdge(g, root, d) && HasEdge(g, d, c) && d != root && c != root
    requires root.name !in cut && d.name !in cut
    ensures c in Survivors(g, root, cut, false)
  {
    var n := NoReturn(g, root);
    assert HasEdge(n, d, c);
    ReachSelf(n, d);
    ReachStep(n, d, d, c);
    assert Enters(g, root, d, c);
    GateKeepsExactly(g, root, cut, c);
  }

  /** Adding up global cuts one at a time can count a shared subtree twice. */
  lemma GlobalSumsOverCount() returns (g: Graph<Crate>, root: Crate, a: string, b: string)
    ensures root.name !in {a, b} && a != b
    ensures |Lost(g, root, {a}, true)| + |Lost(g, root, {b}, true)| > |Lost(g, root, {a, b}, true)|
  {
    var x, y;
    root, x, y := Crate("root", "1"), Crate("x", "1"), Crate("y", "1");
    a, b := "x", "y";
    g := Chain(root, x, y);
    ChainLost(root, x, y, {a});
    ChainLost(root, x, y, {b});
    ChainLost(root, x, y, {a, b});
  }

  function Chain(r: Crate, x: Crate, y: Crate): Graph<Crate> {
    map[r := {x}, x := {y}]
  }

  lemma ChainLost(r: Crate, x: Crate, y: Crate, cut: set<string>)
    requires r != x && r != y && x != y && r.name !in cut
    ensures |Lost(Chain(r, x, y), r, cut, true)| == if x.name in cut then 2 else if y.name in cut then 1 else 0
  {
    ChainSurvivors(r, x, y, {}, false);
    ChainSurvivors(r, x, y, cut, true);
    assert Lost(Chain(r, x, y), r, cut, true) == if x.name in cut then {x, y} else if y.name in cut then {y} else {};
  }

  lemma ChainSurvivors(r: Crate, x: Crate, y: Crate, cut: set<string>, globalCut: bool)
    requires r != x && r != y && x != y && r.name !in cut && (globalCut || cut == {})
    ensures Survivors(Chain(r, x, y), r, cut, globalCut) ==
      if x.name in cut then {r} else if y.name in cut then {r, x} else {r, x, y}
  {
    var h := Cut(Chain(r, x, y), r, cut, globalCut);
    ReachSelf(h, r);
    if x.name !in cut {
      assert HasEdge(h, r, x);
      ReachStep(h, r, r, x);
      if y.name !in cut {
        assert HasEdge(h, x, y);
        ReachStep(h, r, x, y);
      }
    }
    ReachSetIs(h, r, if x.name in cut then {r} else if y.name in cut then {r, x} else {r, x, y});
  }
}
