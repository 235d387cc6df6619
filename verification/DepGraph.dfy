// The dependency-floor simulator of scripts/dep-sim.py: rebuilding a graph from
// a de-duplicated depth listing, and walking it with some crates cut.
module DepGraph {
  import opened Prelude

  datatype Crate = Crate(name: string, version: string)

  /** One matched line of `cargo tree --prefix depth`. */
  datatype Line = Line(depth: nat, node: Crate)

  /** Each node with its children; the `children` dictionary is one over crates. */
  type Graph<T> = map<T, set<T>>

  ghost predicate HasEdge<T>(g: Graph<T>, u: T, v: T) {
    u in g && v in g[u]
  }

  // ------------------------------------------------------------------
  // build_graph
  // ------------------------------------------------------------------

  datatype Builder = Builder(stack: map<nat, Crate>, children: Graph<Crate>, root: Option<Crate>)

  const EMPTY := Builder(map[], map[], None)

  function ChildrenOf(g: Graph<Crate>, u: Crate): set<Crate> {
    if u in g then g[u] else {}
  }

  function AddLine(b: Builder, line: Line): Builder {
    var stack := b.stack[line.depth := line.node];
    var known := b.children[line.node := ChildrenOf(b.children, line.node)];
    if line.depth == 0 then
      Builder(stack, known, if b.root.None? then Some(line.node) else b.root)
    else if line.depth - 1 in stack then
      var parent := stack[line.depth - 1];
      Builder(stack, known[parent := ChildrenOf(known, parent) + {line.node}], b.root)
    else
      Builder(stack, known, b.root)
  }

  function AddLines(b: Builder, lines: seq<Line>): Builder {
    if lines == [] then b
    else AddLine(AddLines(b, lines[..|lines| - 1]), lines[|lines| - 1])
  }

  datatype Resolved = Resolved(root: Crate, children: Graph<Crate>)

  function Build(lines: seq<Line>): Option<Resolved> {
    var b := AddLines(EMPTY, lines);
    if b.root.None? then None else Some(Resolved(b.root.value, b.children))
  }

  /** The line loop; `None` stands for the exit when no root line was seen. */
  method BuildGraph(lines: seq<Line>) returns (r: Option<Resolved>)
    ensures r == Build(lines)
  {
    var children: Graph<Crate> := map[];
    var stack: map<nat, Crate> := map[];
    var root: Option<Crate> := None;
    for i := 0 to |lines|
      invariant Builder(stack, children, root) == AddLines(EMPTY, lines[..i])
      invariant forall d | d in stack :: stack[d] in children
    {
      assert lines[..i + 1][..i] == lines[..i];
      var depth, node := lines[i].depth, lines[i].node;
      stack := stack[depth := node];
      if node !in children {
        children := children[node := {}];
      }
      ghost var before := AddLines(EMPTY, lines[..i]).children;
      assert children == before[node := ChildrenOf(before, node)];
      if depth == 0 {
        if root.None? {
          root := Some(node);
        }
      } else if depth - 1 in stack {
        var parent := stack[depth - 1];
        children := children[parent := children[parent] + {node}];
      }
    }
    assert lines[..|lines|] == lines;
    r := if root.None? then None else Some(Resolved(root.value, children));
  }

  /** Line `i` is the most recent line one level above line `j`. */
  ghost predicate ParentLine(lines: seq<Line>, i: int, j: int) {
    && 0 <= i < j < |lines|
    && lines[i].depth + 1 == lines[j].depth
    && forall k | i < k < j :: lines[k].depth != lines[i].depth
  }

  ghost predicate LastAt(lines: seq<Line>, d: int, i: int) {
    0 <= i < |lines| && lines[i].depth == d && forall k | i < k < |lines| :: lines[k].depth != d
  }

  lemma {:induction false} StackIsMostRecent(lines: seq<Line>, d: int)
    ensures var stack := AddLines(EMPTY, lines).stack;
      && (d in stack ==> exists i :: LastAt(lines, d, i))
      && (forall i :: LastAt(lines, d, i) ==> d in stack && stack[d] == lines[i].node)
  {
    if lines == [] {
    } else {
      var n := |lines| - 1;
      var front := lines[..n];
      StackIsMostRecent(front, d);
      if lines[n].depth == d {
        assert LastAt(lines, d, n);
      } else {
        assert forall i :: LastAt(lines, d, i) <==> LastAt(front, d, i);
      }
    }
  }

  ghost predicate EdgeLines(lines: seq<Line>, u: Crate, v: Crate, i: int, j: int) {
    ParentLine(lines, i, j) && lines[i].node == u && lines[j].node == v
  }

  /**
   * On any listing at all, well nested or not, an edge is recorded exactly when
   * some line for the child has, as its most recent line one level up, a line
   * for the parent.
   */
  lemma {:induction false} BuildEdges(lines: seq<Line>, u: Crate, v: Crate)
    ensures HasEdge(AddLines(EMPTY, lines).children, u, v) <==> exists i, j :: EdgeLines(lines, u, v, i, j)
  {
    if lines == [] {
    } else {
      var n := |lines| - 1;
      var front, last := lines[..n], lines[n];
      var b := AddLines(EMPTY, front);
      BuildEdges(front, u, v);
      StackIsMostRecent(front, last.depth - 1);
      NewEdge(b, last, u, v);
      EdgeLinesSnoc(lines, u, v);
      if last.depth > 0 && last.depth - 1 in b.stack {
        var i :| LastAt(front, last.depth - 1, i);
        assert lines[i] == front[i];
      }
    }
  }

  /** The last line adds one edge, from the most recent line above it, and disturbs no other. */
  lemma EdgeLinesSnoc(lines: seq<Line>, u: Crate, v: Crate)
    requires lines != []
    ensures var n := |lines| - 1;
      (exists i, j :: EdgeLines(lines, u, v, i, j)) <==>
        || (exists i, j :: EdgeLines(lines[..n], u, v, i, j))
        || (lines[n].depth > 0 && v == lines[n].node
            && exists i :: LastAt(lines[..n], lines[n].depth - 1, i) && lines[i].node == u)
  {
    var n := |lines| - 1;
    var front := lines[..n];
    forall i, j | EdgeLines(front, u, v, i, j) ensures EdgeLines(lines, u, v, i, j) {
    }
    forall i | lines[n].depth > 0 && LastAt(front, lines[n].depth - 1, i) && lines[i].node == u && v == lines[n].node
      ensures EdgeLines(lines, u, v, i, n)
    {
    }
    forall i, j | EdgeLines(lines, u, v, i, j)
      ensures if j < n then EdgeLines(front, u, v, i, j)
              else v == lines[n].node && lines[n].depth > 0 && LastAt(front, lines[n].depth - 1, i)
    {
    }
  }

  lemma {:induction false} BuildKeys(lines: seq<Line>)
    ensures var b := AddLines(EMPTY, lines);
      b.children.Keys == (set l | l in lines :: l.node) && forall d | d in b.stack :: b.stack[d] in b.children
  {
    if lines == [] {
    } else {
      hide AddLine;
      var n := |lines| - 1;
      assert lines == lines[..n] + [lines[n]];
      BuildKeys(lines[..n]);
      AddLineKeys(AddLines(EMPTY, lines[..n]), lines[n]);
    }
  }

  ghost predicate FirstRoot(lines: seq<Line>, i: int) {
    0 <= i < |lines| && lines[i].depth == 0 && forall k | 0 <= k < i :: lines[k].depth != 0
  }

  lemma {:induction false} BuildRoot(lines: seq<Line>)
    ensures var root := AddLines(EMPTY, lines).root;
      && (root.None? <==> forall i | 0 <= i < |lines| :: lines[i].depth != 0)
      && (forall i | FirstRoot(lines, i) :: root == Some(lines[i].node))
  {
    if lines == [] {
    } else {
      var n := |lines| - 1;
      BuildRoot(lines[..n]);
      forall i | FirstRoot(lines, i) ensures AddLines(EMPTY, lines).root == Some(lines[i].node) {
        assert i < n ==> FirstRoot(lines[..n], i);
      }
    }
  }

  /** Every listed crate is a key, and nothing else; the root is the first line at depth 0. */
  lemma BuildKeysAndRoot(lines: seq<Line>)
    ensures var b := AddLines(EMPTY, lines);
      && b.children.Keys == (set l | l in lines :: l.node)
      && (b.root.None? <==> forall i | 0 <= i < |lines| :: lines[i].depth != 0)
      && (forall i | FirstRoot(lines, i) :: b.root == Some(lines[i].node))
  {
    BuildKeys(lines);
    BuildRoot(lines);
  }

  lemma AddLineKeys(b: Builder, line: Line)
    requires forall d | d in b.stack :: b.stack[d] in b.children
    ensures var b' := AddLine(b, line);
      && b'.children.Keys == b.children.Keys + {line.node}
      && (forall d | d in b'.stack :: b'.stack[d] in b'.children)
      && b'.root == if b.root.None? && line.depth == 0 then Some(line.node) else b.root
  {
  }

  lemma NewEdge(b: Builder, line: Line, u: Crate, v: Crate)
    ensures HasEdge(AddLine(b, line).children, u, v) <==>
      || HasEdge(b.children, u, v)
      || (line.depth > 0 && line.depth - 1 in b.stack && u == b.stack[line.depth - 1] && v == line.node)
  {
  }

  // ------------------------------------------------------------------
  // Reachability
  // ------------------------------------------------------------------

  ghost predicate IsPath<T(!new)>(g: Graph<T>, p: seq<T>) {
    |p| > 0 && forall i | 0 < i < |p| :: HasEdge(g, p[i - 1], p[i])
  }

  ghost predicate PathTo<T(!new)>(g: Graph<T>, a: T, b: T, p: seq<T>) {
    IsPath(g, p) && p[0] == a && p[|p| - 1] == b
  }

  ghost predicate Reach<T(!new)>(g: Graph<T>, a: T, b: T) {
    exists p :: PathTo(g, a, b, p)
  }

  ghost function Mentioned<T(!new)>(g: Graph<T>): set<T> {
    g.Keys + set u, v | u in g && v in g[u] :: v
  }

  ghost function ReachSet<T(!new)>(g: Graph<T>, a: T): set<T> {
    set b | b in Mentioned(g) + {a} && Reach(g, a, b)
  }

  lemma ReachSelf<T(!new)>(g: Graph<T>, a: T)
    ensures Reach(g, a, a) && a in ReachSet(g, a)
  {
    assert PathTo(g, a, a, [a]);
  }

  lemma ReachStep<T(!new)>(g: Graph<T>, a: T, b: T, c: T)
    requires Reach(g, a, b) && HasEdge(g, b, c)
    ensures Reach(g, a, c) && c in ReachSet(g, a)
  {
    var p :| PathTo(g, a, b, p);
    assert PathTo(g, a, c, p + [c]);
  }

  ghost predicate Closed<T(!new)>(g: Graph<T>, s: set<T>) {
    forall u, v :: u in s && HasEdge(g, u, v) ==> v in s
  }

  lemma PathStays<T(!new)>(g: Graph<T>, s: set<T>, p: seq<T>)
    requires Closed(g, s) && IsPath(g, p) && p[0] in s
    ensures p[|p| - 1] in s
  {
    var i := 0;
    while i < |p| - 1
      invariant 0 <= i < |p| && p[i] in s
    {
      i := i + 1;
      assert HasEdge(g, p[i - 1], p[i]);
    }
  }

  /** A closed set of reachable crates holding the start is the reach set. */
  lemma ReachSetIs<T(!new)>(g: Graph<T>, a: T, s: set<T>)
    requires a in s && Closed(g, s) && forall b | b in s :: Reach(g, a, b)
    ensures ReachSet(g, a) == s
  {
    forall b | Reach(g, a, b) ensures b in s {
      var p :| PathTo(g, a, b, p);
      PathStays(g, s, p);
    }
    forall b | b in s ensures b in Mentioned(g) + {a} {
      var p :| PathTo(g, a, b, p);
      if |p| > 1 {
        assert HasEdge(g, p[|p| - 2], p[|p| - 1]);
      }
    }
  }

  lemma ReachSetProperties<T(!new)>(g: Graph<T>, a: T)
    ensures a in ReachSet(g, a) && Closed(g, ReachSet(g, a))
    ensures forall b :: b in ReachSet(g, a) <==> Reach(g, a, b)
  {
    ReachSelf(g, a);
    forall u, v | u in ReachSet(g, a) && HasEdge(g, u, v) ensures v in ReachSet(g, a) {
      ReachStep(g, a, u, v);
    }
    forall b | Reach(g, a, b) ensures b in ReachSet(g, a) {
      var p :| PathTo(g, a, b, p);
      PathStays(g, ReachSet(g, a), p);
    }
  }

  ghost predicate SubGraph<T(!new)>(g: Graph<T>, h: Graph<T>) {
    forall u, v :: HasEdge(g, u, v) ==> HasEdge(h, u, v)
  }

  lemma ReachMonotone<T(!new)>(g: Graph<T>, h: Graph<T>, a: T)
    requires SubGraph(g, h)
    ensures ReachSet(g, a) <= ReachSet(h, a)
  {
    ReachSetProperties(g, a);
    ReachSetProperties(h, a);
    forall b | Reach(g, a, b) ensures Reach(h, a, b) {
      var p :| PathTo(g, a, b, p);
      assert PathTo(h, a, b, p);
    }
  }

  // ------------------------------------------------------------------
  // The de-duplicated preorder listing, and what build_graph makes of it
  // ------------------------------------------------------------------

  /** One node of the resolver's graph: a crate, for one of the feature sets or targets it is resolved for. */
  datatype Package = Package(crate: Crate, variant: nat)

  /** The resolver's own table: each package with its dependencies in print order. */
  type Table = map<Package, seq<Package>>

  ghost predicate Complete(t: Table) {
    forall u, v :: u in t && v in t[u] ==> v in t
  }

  function Dependencies(t: Table): Graph<Package> {
    map u | u in t :: set v | v in t[u]
  }

  /** The crates a set of packages is printed as. */
  ghost function Crates(ps: set<Package>): set<Crate> {
    set p | p in ps :: p.crate
  }

  /**
   * The subtree of `n` printed at depth `d` when the packages in `seen` were
   * expanded before: a package seen already prints one line and no subtree. A
   * line shows the crate only. Also returns the packages expanded by the time
   * it is printed.
   */
  ghost function Tree(t: Table, n: Package, d: nat, seen: set<Package>): (r: (seq<Line>, set<Package>))
    requires Complete(t) && n in t
    ensures seen <= r.1
    decreases t.Keys - seen, 0, 0
  {
    if n in seen then ([Line(d, n.crate)], seen)
    else
      var below := Forest(t, t[n], d + 1, seen + {n});
      ([Line(d, n.crate)] + below.0, below.1)
  }

  ghost function Forest(t: Table, ns: seq<Package>, d: nat, seen: set<Package>): (r: (seq<Line>, set<Package>))
    requires Complete(t) && forall n | n in ns :: n in t
    ensures seen <= r.1
    decreases t.Keys - seen, 1, |ns|
  {
    if ns == [] then ([], seen)
    else
      var first := Tree(t, ns[0], d, seen);
      var rest := Forest(t, ns[1..], d, first.1);
      (first.0 + rest.0, rest.1)
  }

  ghost function Listing(t: Table, root: Package): seq<Line>
    requires Complete(t) && root in t
  {
    Tree(t, root, 0, {}).0
  }

  lemma {:induction false} AddLinesAppend(b: Builder, x: seq<Line>, y: seq<Line>)
    ensures AddLines(b, x + y) == AddLines(AddLines(b, x), y)
  {
    if y == [] {
      assert x + y == x;
    } else {
      AddLinesAppend(b, x, y[..|y| - 1]);
      assert (x + y)[..|x + y| - 1] == x + y[..|y| - 1];
    }
  }

  /** Some expanded package printed as `u` depends on one printed as `v`. */
  ghost predicate Shows(t: Table, expanded: set<Package>, u: Crate, v: Crate) {
    exists p, q :: p in expanded && p in t && q in t[p] && p.crate == u && q.crate == v
  }

  lemma ShowsUnion(t: Table, a: set<Package>, b: set<Package>, u: Crate, v: Crate)
    ensures Shows(t, a + b, u, v) <==> Shows(t, a, u, v) || Shows(t, b, u, v)
  {
  }

  ghost function DependencyCrates(t: Table, n: Package): set<Crate>
    requires n in t
  {
    Crates(set v | v in t[n])
  }

  lemma ShowsOne(t: Table, n: Package, u: Crate, v: Crate)
    requires n in t
    ensures Shows(t, {n}, u, v) <==> u == n.crate && v in DependencyCrates(t, n)
  {
  }

  /**
   * What printing at depth `d` does to the builder: nothing above depth `d`
   * moves, and the new edges are one to each of `ns` from the line above and
   * all those the `expanded` packages show.
   */
  ghost predicate Extends(t: Table, b: Builder, b': Builder, d: nat, ns: set<Crate>, expanded: set<Package>) {
    && Ready(b, d) && b'.root == b.root
    && (forall k: nat | k < d :: (k in b'.stack <==> k in b.stack) && (k in b.stack ==> b'.stack[k] == b.stack[k]))
    && b'.children.Keys == b.children.Keys + ns + Crates(expanded)
    && forall u, v :: HasEdge(b'.children, u, v) <==>
         || HasEdge(b.children, u, v)
         || (u == b.stack[d - 1] && v in ns)
         || Shows(t, expanded, u, v)
  }

  ghost predicate Ready(b: Builder, d: nat) {
    d > 0 && d - 1 in b.stack && b.stack[d - 1] in b.children && b.root.Some?
  }

  lemma ExtendsLine(t: Table, b: Builder, d: nat, n: Crate)
    requires Ready(b, d)
    ensures var b' := AddLines(b, [Line(d, n)]);
      b' == AddLine(b, Line(d, n)) && Extends(t, b, b', d, {n}, {}) && Ready(b', d + 1) && b'.stack[d] == n
  {
    assert [Line(d, n)][..0] == [];
  }

  lemma ExtendsThen(t: Table, b: Builder, b1: Builder, b2: Builder, d: nat,
                    ns1: set<Crate>, e1: set<Package>, ns2: set<Crate>, e2: set<Package>)
    requires Extends(t, b, b1, d, ns1, e1) && Extends(t, b1, b2, d, ns2, e2)
    ensures Extends(t, b, b2, d, ns1 + ns2, e1 + e2)
  {
    hide Shows;
    assert b1.stack[d - 1] == b.stack[d - 1];
    forall u, v ensures Shows(t, e1 + e2, u, v) <==> Shows(t, e1, u, v) || Shows(t, e2, u, v) {
      ShowsUnion(t, e1, e2, u, v);
    }
  }

  lemma ExtendsInto(t: Table, b: Builder, b1: Builder, b2: Builder, d: nat, n: Package, e: set<Package>)
    requires n in t
    requires Extends(t, b, b1, d, {n.crate}, {}) && d in b1.stack && b1.stack[d] == n.crate
    requires Extends(t, b1, b2, d + 1, DependencyCrates(t, n), e)
    requires DependencyCrates(t, n) <= b1.children.Keys + Crates(e) + {n.crate}
    ensures Extends(t, b, b2, d, {n.crate}, e + {n})
  {
    hide Shows, DependencyCrates;
    assert Crates(e + {n}) == Crates(e) + {n.crate};
    assert b2.children.Keys == b.children.Keys + {n.crate} + Crates(e + {n});
    forall u, v ensures Shows(t, e + {n}, u, v) <==>
      Shows(t, e, u, v) || (u == n.crate && v in DependencyCrates(t, n))
    {
      ShowsUnion(t, e, {n}, u, v);
      ShowsOne(t, n, u, v);
    }
    forall u, v ensures !Shows(t, {}, u, v) {
      ShowsNone(t, u, v);
    }
  }

  lemma ShowsNone(t: Table, u: Crate, v: Crate)
    ensures !Shows(t, {}, u, v)
  {
  }

  /** Printing a subtree below a line already on the stack. */
  lemma {:induction false} TreeBelow(t: Table, n: Package, d: nat, seen: set<Package>, b: Builder)
    requires Complete(t) && n in t && Crates(seen) <= b.children.Keys && seen <= t.Keys && Ready(b, d)
    ensures var r := Tree(t, n, d, seen);
      r.1 <= t.Keys && n in r.1 && Extends(t, b, AddLines(b, r.0), d, {n.crate}, r.1 - seen)
    decreases t.Keys - seen, 0, 0
  {
    hide Extends, Shows;
    ExtendsLine(t, b, d, n.crate);
    if n in seen {
      assert Tree(t, n, d, seen).1 - seen == {};
    } else {
      var b1 := AddLine(b, Line(d, n.crate));
      var below := Forest(t, t[n], d + 1, seen + {n});
      assert Crates(seen + {n}) <= b1.children.Keys;
      ForestBelow(t, t[n], d + 1, seen + {n}, b1);
      AddLinesAppend(b, [Line(d, n.crate)], below.0);
      var e := below.1 - (seen + {n});
      assert DependencyCrates(t, n) <= b1.children.Keys + Crates(e) + {n.crate} by {
        assert forall v | v in t[n] :: v in e || v in seen + {n};
      }
      ExtendsInto(t, b, b1, AddLines(b1, below.0), d, n, e);
      assert below.1 - seen == e + {n};
    }
  }

  lemma {:induction false} ForestBelow(t: Table, ns: seq<Package>, d: nat, seen: set<Package>, b: Builder)
    requires Complete(t) && (forall n | n in ns :: n in t)
    requires Crates(seen) <= b.children.Keys && seen <= t.Keys && Ready(b, d)
    ensures var r := Forest(t, ns, d, seen);
      && r.1 <= t.Keys && (forall n | n in ns :: n in r.1)
      && Extends(t, b, AddLines(b, r.0), d, Crates(set n | n in ns), r.1 - seen)
    decreases t.Keys - seen, 1, |ns|
  {
    if ns == [] {
      ForestOfNone(t, b, d);
      assert seen - seen == {} && (set n | n in ns) == {};
    } else {
      var first := Tree(t, ns[0], d, seen);
      var b1 := AddLines(b, first.0);
      TreeBelow(t, ns[0], d, seen, b);
      ExtendedKeys(t, b, b1, d, {ns[0].crate}, seen, first.1);
      var rest := Forest(t, ns[1..], d, first.1);
      ForestBelow(t, ns[1..], d, first.1, b1);
      AddLinesAppend(b, first.0, rest.0);
      hide Extends;
      ExtendsThen(t, b, b1, AddLines(b1, rest.0), d, {ns[0].crate}, first.1 - seen,
                  Crates(set n | n in ns[1..]), rest.1 - first.1);
      assert rest.1 - seen == (first.1 - seen) + (rest.1 - first.1);
      assert (set n | n in ns) == {ns[0]} + (set n | n in ns[1..]);
      assert Crates(set n | n in ns) == {ns[0].crate} + Crates(set n | n in ns[1..]);
    }
  }

  lemma ForestOfNone(t: Table, b: Builder, d: nat)
    requires Ready(b, d)
    ensures AddLines(b, []) == b && Extends(t, b, b, d, Crates({}), {})
  {
  }

  lemma ExtendedKeys(t: Table, b: Builder, b': Builder, d: nat, ns: set<Crate>, seen: set<Package>, seen': set<Package>)
    requires Extends(t, b, b', d, ns, seen' - seen) && Crates(seen) <= b.children.Keys
    ensures Crates(seen') <= b'.children.Keys && Ready(b', d)
  {
  }

  /** Everything expanded has all its dependencies expanded too, once printing is over. */
  lemma {:induction false} TreeCloses(t: Table, n: Package, d: nat, seen: set<Package>)
    requires Complete(t) && n in t && seen <= t.Keys
    ensures var r := Tree(t, n, d, seen);
      && n in r.1 && r.1 <= t.Keys
      && (forall u, v | u in r.1 - seen && v in t[u] :: v in r.1)
      && (forall u | u in r.1 - seen :: Reach(Dependencies(t), n, u))
    decreases t.Keys - seen, 0, 0
  {
    if n in seen {
    } else {
      ForestCloses(t, n, t[n], d + 1, seen + {n});
      ReachSelf(Dependencies(t), n);
    }
  }

  lemma {:induction false} ForestCloses(t: Table, n: Package, ns: seq<Package>, d: nat, seen: set<Package>)
    requires Complete(t) && n in t && (forall m | m in ns :: m in t[n]) && seen <= t.Keys
    ensures var r := Forest(t, ns, d, seen);
      && r.1 <= t.Keys && (forall m | m in ns :: m in r.1)
      && (forall u, v | u in r.1 - seen && v in t[u] :: v in r.1)
      && (forall u | u in r.1 - seen :: Reach(Dependencies(t), n, u))
    decreases t.Keys - seen, 1, |ns|
  {
    if ns == [] {
    } else {
      var first := Tree(t, ns[0], d, seen);
      TreeCloses(t, ns[0], d, seen);
      ForestCloses(t, n, ns[1..], d, first.1);
      forall u | u in first.1 - seen ensures Reach(Dependencies(t), n, u) {
        ReachAfterEdge(Dependencies(t), n, ns[0], u);
      }
    }
  }

  lemma ReachAfterEdge<T(!new)>(g: Graph<T>, a: T, b: T, c: T)
    requires HasEdge(g, a, b) && Reach(g, b, c)
    ensures Reach(g, a, c)
  {
    var p :| PathTo(g, b, c, p);
    var q := [a] + p;
    forall i | 0 < i < |q| ensures HasEdge(g, q[i - 1], q[i]) {
      if i > 1 { assert HasEdge(g, p[i - 2], p[i - 1]); }
    }
    assert PathTo(g, a, c, q);
  }

  /** The crates of `ps`, each with the crates any of its packages in `ps` depends on. */
  ghost function Shown(t: Table, ps: set<Package>): Graph<Crate> {
    map u | u in Crates(ps) :: set p, q | p in ps && p in t && p.crate == u && q in t[p] :: q.crate
  }

  lemma ShownEdges(t: Table, ps: set<Package>, u: Crate, v: Crate)
    ensures HasEdge(Shown(t, ps), u, v) <==> Shows(t, ps, u, v)
  {
  }

  /**
   * Nothing is lost by not recursing into back-references: on the listing of
   * any table, cyclic or not, build_graph returns the root and exactly the
   * reachable packages, with all their dependencies, as crates.
   */
  lemma ListingRebuildsGraph(t: Table, root: Package)
    requires Complete(t) && root in t
    ensures ReachSet(Dependencies(t), root) <= t.Keys
    ensures Build(Listing(t, root)) == Some(Resolved(root.crate, Shown(t, ReachSet(Dependencies(t), root))))
  {
    var b1 := RootBuilder(root.crate);
    var below := Forest(t, t[root], 1, {root});
    assert Tree(t, root, 0, {}) == ([Line(0, root.crate)] + below.0, below.1) by { assert {} + {root} == {root}; }
    ForestBelow(t, t[root], 1, {root}, b1);
    AddLinesAppend(EMPTY, [Line(0, root.crate)], below.0);
    ExpandedIsReachSet(t, root);
    FromRoot(t, root, AddLines(b1, below.0), below.1 - {root});
    assert below.1 - {root} + {root} == below.1;
  }

  lemma ExpandedIsReachSet(t: Table, root: Package)
    requires Complete(t) && root in t
    ensures ReachSet(Dependencies(t), root) == Tree(t, root, 0, {}).1 <= t.Keys
  {
    TreeCloses(t, root, 0, {});
    ReachSetIs(Dependencies(t), root, Tree(t, root, 0, {}).1);
  }

  lemma RootBuilder(root: Crate) returns (b: Builder)
    ensures b == AddLines(EMPTY, [Line(0, root)]) == Builder(map[0 := root], map[root := {}], Some(root))
  {
    assert [Line(0, root)][..0] == [];
    b := AddLine(EMPTY, Line(0, root));
  }

  lemma FromRoot(t: Table, root: Package, b: Builder, expanded: set<Package>)
    requires Complete(t) && root in t && expanded <= t.Keys && (forall v | v in t[root] :: v in expanded + {root})
    requires Extends(t, Builder(map[0 := root.crate], map[root.crate := {}], Some(root.crate)), b, 1,
                     DependencyCrates(t, root), expanded)
    ensures b.root == Some(root.crate) && b.children == Shown(t, expanded + {root})
  {
    hide Shows;
    var all := expanded + {root};
    assert Crates(all) == Crates(expanded) + {root.crate};
    assert DependencyCrates(t, root) <= Crates(all);
    forall u, v ensures HasEdge(b.children, u, v) <==> HasEdge(Shown(t, all), u, v) {
      ShownEdges(t, all, u, v);
      ShowsUnion(t, expanded, {root}, u, v);
      ShowsOne(t, root, u, v);
    }
    SameGraph(b.children, Shown(t, all));
  }

  lemma SameGraph<T(!new)>(g: Graph<T>, h: Graph<T>)
    requires g.Keys == h.Keys && forall u, v :: HasEdge(g, u, v) <==> HasEdge(h, u, v)
    ensures g == h
  {
    forall u | u in g ensures g[u] == h[u] {
      forall v ensures v in g[u] <==> v in h[u] {
        assert HasEdge(g, u, v) <==> HasEdge(h, u, v);
      }
    }
  }
}
