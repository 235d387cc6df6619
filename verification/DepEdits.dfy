// What the cuts of scripts/dep-sim.py say about a really edited manifest: the
// walk over the listed graph against listing again after deleting lines.
module DepEdits {
  import opened Prelude
  import opened DepGraph
  import opened DepCuts

  // ------------------------------------------------------------------
  // Editing and listing again
  // ------------------------------------------------------------------

  function Without(deps: seq<Package>, u: Crate, root: Crate, cut: set<string>, globalCut: bool): (kept: seq<Package>)
    ensures forall v :: v in kept <==> v in deps && !Severed(u, v.crate, root, cut, globalCut)
  {
    if deps == [] then []
    else (if Severed(u, deps[0].crate, root, cut, globalCut) then [] else [deps[0]])
         + Without(deps[1..], u, root, cut, globalCut)
  }

  /** The resolver's table after deleting the severed dependency lines. */
  function Edited(t: Table, root: Crate, cut: set<string>, globalCut: bool): (r: Table)
    ensures r.Keys == t.Keys && (Complete(t) ==> Complete(r))
  {
    map u | u in t :: Without(t[u], u.crate, root, cut, globalCut)
  }

  lemma EditedEdges(t: Table, root: Crate, cut: set<string>, globalCut: bool, p: Package, q: Package)
    ensures HasEdge(Dependencies(Edited(t, root, cut, globalCut)), p, q) <==>
      HasEdge(Dependencies(t), p, q) && !Severed(p.crate, q.crate, root, cut, globalCut)
  {
  }

  ghost function Reached(t: Table, root: Package): set<Package> {
    ReachSet(Dependencies(t), root)
  }

  ghost function Kept(t: Table, root: Package, cut: set<string>, globalCut: bool): set<Package> {
    Reached(Edited(t, root.crate, cut, globalCut), root)
  }

  /** The graph the walk goes through, and what it permits of it. */
  ghost function Walk(t: Table, root: Package, cut: set<string>, globalCut: bool): Graph<Crate> {
    Cut(Shown(t, Reached(t, root)), root.crate, cut, globalCut)
  }

  lemma WalkEdges(t: Table, root: Package, cut: set<string>, globalCut: bool, u: Crate, v: Crate)
    ensures HasEdge(Walk(t, root, cut, globalCut), u, v) <==>
      Shows(t, Reached(t, root), u, v) && !Severed(u, v, root.crate, cut, globalCut)
  {
    ShownEdges(t, Reached(t, root), u, v);
  }

  /** The graph rebuilt from the listing. */
  ghost function Listed(t: Table, root: Package): Graph<Crate>
    requires Complete(t) && root in t
  {
    match Build(Listing(t, root))
    case None => map[]
    case Some(r) => r.children
  }

  lemma ListedIs(t: Table, root: Package)
    requires Complete(t) && root in t
    ensures Build(Listing(t, root)).Some? && Reached(t, root) <= t.Keys
    ensures Listed(t, root) == Shown(t, Reached(t, root)) && Listed(t, root).Keys == Crates(Reached(t, root))
  {
    ListingRebuildsGraph(t, root);
  }

  /** The simulated cut and the real edit keep the same crates. */
  ghost predicate Agrees(t: Table, root: Package, cut: set<string>, globalCut: bool)
    requires Complete(t) && root in t
  {
    Survivors(Listed(t, root), root.crate, cut, globalCut) == Listed(Edited(t, root.crate, cut, globalCut), root).Keys
  }

  lemma AgreesIff(t: Table, root: Package, cut: set<string>, globalCut: bool)
    requires Complete(t) && root in t && root.crate.name !in cut
    ensures Agrees(t, root, cut, globalCut) <==>
      ReachSet(Walk(t, root, cut, globalCut), root.crate) == Crates(Kept(t, root, cut, globalCut))
  {
    ListedIs(t, root);
    ListedIs(Edited(t, root.crate, cut, globalCut), root);
  }

  /** Whatever the edited table still reaches, the walk reaches. */
  lemma KeptIsWalked(t: Table, root: Package, cut: set<string>, globalCut: bool)
    requires Complete(t) && root in t
    ensures Kept(t, root, cut, globalCut) <= Reached(t, root)
    ensures Crates(Kept(t, root, cut, globalCut)) <= ReachSet(Walk(t, root, cut, globalCut), root.crate)
  {
    var g, walk := Dependencies(Edited(t, root.crate, cut, globalCut)), Walk(t, root, cut, globalCut);
    var s := set p | p in Reached(t, root) && p.crate in ReachSet(walk, root.crate);
    ReachSetProperties(Dependencies(t), root);
    ReachSelf(walk, root.crate);
    forall p, q | p in s && HasEdge(g, p, q) ensures q in s {
      EditedEdges(t, root.crate, cut, globalCut, p, q);
      assert Shows(t, Reached(t, root), p.crate, q.crate);
      WalkEdges(t, root, cut, globalCut, p.crate, q.crate);
      ReachStep(walk, root.crate, p.crate, q.crate);
    }
    ReachSetProperties(g, root);
    forall p | p in ReachSet(g, root) ensures p in s {
      var path :| PathTo(g, root, p, path);
      PathStays(g, s, path);
    }
  }

  /** No listed package of a crate that the edit keeps depends, by a line not deleted, on a crate it drops. */
  ghost predicate NoBuildNeedsDropped(t: Table, root: Package, cut: set<string>, globalCut: bool) {
    var kept := Crates(Kept(t, root, cut, globalCut));
    forall p, q | p in Reached(t, root) && p in t && q in t[p] && p.crate in kept
                  && !Severed(p.crate, q.crate, root.crate, cut, globalCut) :: q.crate in kept
  }

  lemma WalkClosedIff(t: Table, root: Package, cut: set<string>, globalCut: bool)
    ensures Closed(Walk(t, root, cut, globalCut), Crates(Kept(t, root, cut, globalCut))) <==>
      NoBuildNeedsDropped(t, root, cut, globalCut)
  {
    hide Walk, Kept;
    forall u, v ensures HasEdge(Walk(t, root, cut, globalCut), u, v) <==>
      Shows(t, Reached(t, root), u, v) && !Severed(u, v, root.crate, cut, globalCut)
    {
      WalkEdges(t, root, cut, globalCut, u, v);
    }
    forall p, q | p in Reached(t, root) && p in t && q in t[p] ensures Shows(t, Reached(t, root), p.crate, q.crate) {
    }
  }

  /**
   * Walking the listed graph with a cut keeps every crate that would be listed,
   * and rebuilt, after deleting the cut dependency lines and listing again: the
   * root's own lines in gate mode, everybody's in global mode. So it never
   * promises too much. For one cut it is exact just when no build of a crate
   * that stays needs one that goes.
   */
  lemma SimulationMatchesEdit(t: Table, root: Package, cut: set<string>, globalCut: bool)
    requires Complete(t) && root in t && root.crate.name !in cut
    ensures Build(Listing(t, root)).Some? && Build(Listing(Edited(t, root.crate, cut, globalCut), root)).Some?
    ensures Listed(Edited(t, root.crate, cut, globalCut), root).Keys
      <= Survivors(Listed(t, root), root.crate, cut, globalCut)
    ensures Agrees(t, root, cut, globalCut) <==> NoBuildNeedsDropped(t, root, cut, globalCut)
  {
    hide NoBuildNeedsDropped, Listed;
    var walk, kept := Walk(t, root, cut, globalCut), Crates(Kept(t, root, cut, globalCut));
    ListedIs(t, root);
    ListedIs(Edited(t, root.crate, cut, globalCut), root);
    KeptIsWalked(t, root, cut, globalCut);
    WalkClosedIff(t, root, cut, globalCut);
    ReachSetProperties(walk, root.crate);
    RootIsKept(t, root, cut, globalCut);
    if Closed(walk, kept) {
      ClosedHoldsReach(walk, root.crate, kept);
    }
  }

  lemma RootIsKept(t: Table, root: Package, cut: set<string>, globalCut: bool)
    ensures root in Kept(t, root, cut, globalCut) && root.crate in Crates(Kept(t, root, cut, globalCut))
  {
    ReachSelf(Dependencies(Edited(t, root.crate, cut, globalCut)), root);
  }

  lemma ClosedHoldsReach<T(!new)>(g: Graph<T>, a: T, s: set<T>)
    requires Closed(g, s) && a in s
    ensures ReachSet(g, a) <= s
  {
    forall c | c in ReachSet(g, a) ensures c in s {
      var path :| PathTo(g, a, c, path);
      PathStays(g, s, path);
    }
  }

  lemma WalkUncut(t: Table, root: Package)
    requires Complete(t) && root in t
    ensures ReachSet(Walk(t, root, {}, false), root.crate) == Crates(Reached(t, root))
  {
    var walk, all := Walk(t, root, {}, false), Crates(Reached(t, root));
    SameGraph(Dependencies(Edited(t, root.crate, {}, false)), Dependencies(t));
    KeptIsWalked(t, root, {}, false);
    RootIsKept(t, root, {}, false);
    forall u, v | HasEdge(walk, u, v) ensures v in all {
      WalkEdges(t, root, {}, false, u, v);
      var p, q :| p in Reached(t, root) && p in t && q in t[p] && p.crate == u && q.crate == v;
      DependencyIsReached(t, root, p, q);
    }
    hide Walk, Reached;
    ClosedHoldsReach(walk, root.crate, all);
  }

  /** Calibration: cutting nothing counts every listed crate. */
  lemma CutNothingCountsAll(t: Table, root: Package)
    requires Complete(t) && root in t
    ensures Build(Listing(t, root)).Some?
    ensures Survivors(Listed(t, root), root.crate, {}, false) == Listed(t, root).Keys
  {
    hide Listed, Reached, Shown, Cut;
    ListedIs(t, root);
    WalkUncut(t, root);
  }

  // ------------------------------------------------------------------
  // When it is exact, whatever is cut
  // ------------------------------------------------------------------

  /** The packages listed for a crate all depend on the same crates. */
  ghost predicate Uniform(t: Table, ps: set<Package>) {
    forall p, q | p in ps && q in ps && p in t && q in t && p.crate == q.crate ::
      DependencyCrates(t, p) == DependencyCrates(t, q)
  }

  /**
   * For every cut in either mode, it is enough that all packages listed for a
   * crate depend on the same crates, as when each crate is resolved once.
   */
  lemma UniformIsExact(t: Table, root: Package, cut: set<string>, globalCut: bool)
    requires Complete(t) && root in t && root.crate.name !in cut && Uniform(t, Reached(t, root))
    ensures Agrees(t, root, cut, globalCut)
  {
    hide Agrees, NoBuildNeedsDropped, Uniform;
    UniformNeedsNoMore(t, root, cut, globalCut);
    SimulationMatchesEdit(t, root, cut, globalCut);
  }

  lemma UniformNeedsNoMore(t: Table, root: Package, cut: set<string>, globalCut: bool)
    requires Complete(t) && root in t && Uniform(t, Reached(t, root))
    ensures NoBuildNeedsDropped(t, root, cut, globalCut)
  {
    var kept, g := Kept(t, root, cut, globalCut), Dependencies(Edited(t, root.crate, cut, globalCut));
    ExpandedIsReachSet(t, root);
    KeptIsWalked(t, root, cut, globalCut);
    ReachSetProperties(g, root);
    forall p, q | p in Reached(t, root) && q in t[p] && p.crate in Crates(kept)
                  && !Severed(p.crate, q.crate, root.crate, cut, globalCut)
      ensures q.crate in Crates(kept)
    {
      var p' :| p' in kept && p'.crate == p.crate;
      assert q.crate in DependencyCrates(t, p) && DependencyCrates(t, p) == DependencyCrates(t, p');
      var q' :| q' in t[p'] && q'.crate == q.crate;
      EditedEdges(t, root.crate, cut, globalCut, p', q');
    }
  }

  /**
   * What the root's dependencies named `n` lead to without the root, together
   * with those that bear the root's own name, which no cut ever removes.
   */
  ghost function Below(t: Table, root: Package, n: string): set<Package> {
    set p | p in Reached(t, root)
            && exists d: Package :: d.crate.name in {n, root.crate.name} && Enters(Dependencies(t), root, d, p)
  }

  /** No build of a crate found below `n` needs a crate that is not found there, the root aside. */
  ghost predicate SelfContained(t: Table, root: Package, n: string) {
    var below := Crates(Below(t, root, n));
    forall p, q | p in Reached(t, root) && p in t && q in t[p] && q != root && p.crate in below :: q.crate in below
  }

  /** No other listed package is printed like the root. */
  ghost predicate SoleRoot(t: Table, root: Package) {
    forall p | p in Reached(t, root) && p.crate == root.crate :: p == root
  }

  lemma GateDoors(t: Table, root: Package, cut: set<string>, p: Package)
    requires Complete(t) && root in t && SoleRoot(t, root)
    ensures p in Kept(t, root, cut, false) <==>
      p == root || exists d: Package :: d.crate.name !in cut && Enters(Dependencies(t), root, d, p)
  {
    hide Reach;
    var g, h := Dependencies(t), Dependencies(Edited(t, root.crate, cut, false));
    var doors := set d | d in t[root] && d.crate.name !in cut;
    forall u, v ensures HasEdge(h, u, v) <==> HasEdge(g, u, v) && !Severed(u.crate, v.crate, root.crate, cut, false) {
      EditedEdges(t, root.crate, cut, false, u, v);
    }
    RootEdgesOnly(g, h, root, doors, p);
    assert forall d | Enters(g, root, d, p) :: d in doors <==> d.crate.name !in cut;
  }

  /** A gate keeps the root and what lies below the names it leaves. */
  lemma GateKept(t: Table, root: Package, cut: set<string>, p: Package)
    requires Complete(t) && root in t && SoleRoot(t, root) && root.crate.name !in cut
    ensures p in Kept(t, root, cut, false) <==> p == root || exists n :: n !in cut && p in Below(t, root, n)
  {
    hide Enters, Kept, Reached, Dependencies, SoleRoot;
    GateDoors(t, root, cut, p);
    KeptIsWalked(t, root, cut, false);
    if d: Package :| d.crate.name !in cut && Enters(Dependencies(t), root, d, p) {
      assert p in Below(t, root, d.crate.name);
    }
  }

  lemma BelowIsNotRoot(t: Table, root: Package, n: string, p: Package)
    requires p in Below(t, root, n)
    ensures p != root && p in Reached(t, root)
  {
    var d: Package :| d.crate.name in {n, root.crate.name} && Enters(Dependencies(t), root, d, p);
    EnteredIsNotRoot(Dependencies(t), root, d, p);
  }

  /** The cut that leaves one name, and the root's own. */
  ghost function AllBut(t: Table, root: Package, n: string): set<string>
    requires root in t
  {
    (set d | d in t[root] :: d.crate.name) - {n, root.crate.name}
  }

  lemma KeptByAllBut(t: Table, root: Package, n: string)
    requires Complete(t) && root in t && SoleRoot(t, root)
    ensures Kept(t, root, AllBut(t, root, n), false) == {root} + Below(t, root, n)
  {
    hide Kept, Reached, SoleRoot, Reach;
    var cut := AllBut(t, root, n);
    forall p ensures p in Kept(t, root, cut, false) <==> p in {root} + Below(t, root, n) {
      GateDoors(t, root, cut, p);
      KeptIsWalked(t, root, cut, false);
      assert forall d | Enters(Dependencies(t), root, d, p) ::
        d.crate.name !in cut <==> d.crate.name in {n, root.crate.name};
    }
  }

  lemma AgreementSelfContains(t: Table, root: Package, n: string)
    requires Complete(t) && root in t && SoleRoot(t, root)
    requires NoBuildNeedsDropped(t, root, AllBut(t, root, n), false)
    ensures SelfContained(t, root, n)
  {
    hide Kept, AllBut, Below;
    KeptByAllBut(t, root, n);
    var below := Crates(Below(t, root, n));
    assert Crates({root} + Below(t, root, n)) == {root.crate} + below;
    forall p, q | p in Reached(t, root) && p in t && q in t[p] && q != root && p.crate in below
      ensures q.crate in below
    {
      var p' :| p' in Below(t, root, n) && p'.crate == p.crate;
      BelowIsNotRoot(t, root, n, p');
      DependencyIsReached(t, root, p, q);
    }
  }

  lemma DependencyIsReached(t: Table, root: Package, p: Package, q: Package)
    requires p in Reached(t, root) && p in t && q in t[p]
    ensures q in Reached(t, root)
  {
    ReachSetProperties(Dependencies(t), root);
    assert HasEdge(Dependencies(t), p, q);
  }

  lemma SelfContainedAgrees(t: Table, root: Package, cut: set<string>)
    requires Complete(t) && root in t && SoleRoot(t, root) && root.crate.name !in cut
    requires forall n :: SelfContained(t, root, n)
    ensures NoBuildNeedsDropped(t, root, cut, false)
  {
    forall p, q | p in Reached(t, root) && p in t && q in t[p] && p.crate in Crates(Kept(t, root, cut, false))
                  && !Severed(p.crate, q.crate, root.crate, cut, false)
      ensures q.crate in Crates(Kept(t, root, cut, false))
    {
      SelfContainedStep(t, root, cut, p, q);
    }
  }

  lemma UncutIsKept(t: Table, root: Package, cut: set<string>, q: Package)
    requires root in t && q in t[root] && !Severed(root.crate, q.crate, root.crate, cut, false)
    ensures q in Kept(t, root, cut, false)
  {
    var g := Dependencies(Edited(t, root.crate, cut, false));
    EditedEdges(t, root.crate, cut, false, root, q);
    ReachSelf(g, root);
    ReachStep(g, root, root, q);
  }

  lemma SelfContainedStep(t: Table, root: Package, cut: set<string>, p: Package, q: Package)
    requires Complete(t) && root in t && SoleRoot(t, root) && root.crate.name !in cut
    requires forall n :: SelfContained(t, root, n)
    requires p in Reached(t, root) && p in t && q in t[p] && p.crate in Crates(Kept(t, root, cut, false))
    requires !Severed(p.crate, q.crate, root.crate, cut, false)
    ensures q.crate in Crates(Kept(t, root, cut, false))
  {
    hide Kept, Reached, Below;
    RootIsKept(t, root, cut, false);
    if p == root {
      UncutIsKept(t, root, cut, q);
    } else if q != root {
      var p' :| p' in Kept(t, root, cut, false) && p'.crate == p.crate;
      GateKept(t, root, cut, p');
      var n :| n !in cut && p' in Below(t, root, n);
      assert SelfContained(t, root, n);
      var q' :| q' in Below(t, root, n) && q'.crate == q.crate;
      GateKept(t, root, cut, q');
    }
  }

  /**
   * Gates are simulated exactly, whatever is cut, just when for every name the
   * crates below the root's dependencies of that name need nothing else in any
   * of their builds. That is a condition on the resolved table alone.
   */
  lemma GatesAreExactIff(t: Table, root: Package)
    requires Complete(t) && root in t && SoleRoot(t, root)
    ensures (forall cut | root.crate.name !in cut :: Agrees(t, root, cut, false)) <==>
      forall n :: SelfContained(t, root, n)
  {
    hide Agrees, SelfContained, NoBuildNeedsDropped;
    if forall cut | root.crate.name !in cut :: Agrees(t, root, cut, false) {
      forall n ensures SelfContained(t, root, n) {
        SimulationMatchesEdit(t, root, AllBut(t, root, n), false);
        AgreementSelfContains(t, root, n);
      }
    }
    if forall n :: SelfContained(t, root, n) {
      forall cut | root.crate.name !in cut ensures Agrees(t, root, cut, false) {
        SimulationMatchesEdit(t, root, cut, false);
        SelfContainedAgrees(t, root, cut);
      }
    }
  }

  /** The names a path steps to where a cut could stop it. */
  ghost function Passed(path: seq<Crate>, root: Crate, globalCut: bool): set<string> {
    set i | 0 < i < |path| && (globalCut || path[i - 1] == root) :: path[i].name
  }

  function Labels(route: seq<Package>): seq<Crate> {
    seq(|route|, i requires 0 <= i < |route| => route[i].crate)
  }

  /** A route of packages to the same crate, which no cut stops that does not stop the path of crates. */
  ghost predicate Follows(t: Table, root: Package, globalCut: bool, path: seq<Crate>, route: seq<Package>) {
    && path != [] && IsPath(Dependencies(t), route) && route[0] == root && route[|route| - 1].crate == path[|path| - 1]
    && Passed(Labels(route), root.crate, globalCut) <= Passed(path, root.crate, globalCut) + {root.crate.name}
  }

  ghost predicate ShownPath(t: Table, root: Package, path: seq<Crate>) {
    IsPath(Shown(t, Reached(t, root)), path) && path[0] == root.crate
  }

  /** Every path through the listed graph is followed by a route of packages. */
  ghost predicate PathsAreReal(t: Table, root: Package, globalCut: bool) {
    forall path | ShownPath(t, root, path) :: exists route :: Follows(t, root, globalCut, path, route)
  }

  lemma PassedIff(path: seq<Crate>, root: Crate, cut: set<string>, globalCut: bool)
    ensures Passed(path, root, globalCut) !! cut <==>
      forall i | 0 < i < |path| :: !Severed(path[i - 1], path[i], root, cut, globalCut)
  {
    if Passed(path, root, globalCut) !! cut {
      forall i | 0 < i < |path| ensures !Severed(path[i - 1], path[i], root, cut, globalCut) {
        if globalCut || path[i - 1] == root {
          assert path[i].name in Passed(path, root, globalCut);
        }
      }
    }
    if forall i | 0 < i < |path| :: !Severed(path[i - 1], path[i], root, cut, globalCut) {
      forall n | n in Passed(path, root, globalCut) ensures n !in cut {
        var i :| 0 < i < |path| && (globalCut || path[i - 1] == root) && path[i].name == n;
        assert !Severed(path[i - 1], path[i], root, cut, globalCut);
      }
    }
  }

  /** Of a graph whose nodes are labelled with crates, a cut leaves just the paths that pass no cut name. */
  lemma CutPathIff<T(!new)>(g: Graph<T>, h: Graph<T>, path: seq<T>, labels: seq<Crate>,
                            root: Crate, cut: set<string>, globalCut: bool)
    requires |labels| == |path|
    requires forall i | 0 < i < |path| :: HasEdge(h, path[i - 1], path[i]) <==>
      HasEdge(g, path[i - 1], path[i]) && !Severed(labels[i - 1], labels[i], root, cut, globalCut)
    ensures IsPath(h, path) <==> IsPath(g, path) && Passed(labels, root, globalCut) !! cut
  {
    hide Severed, Passed, HasEdge;
    PassedIff(labels, root, cut, globalCut);
  }

  lemma WalkedPathIff(t: Table, root: Package, cut: set<string>, globalCut: bool, path: seq<Crate>)
    requires path != [] && path[0] == root.crate
    ensures IsPath(Walk(t, root, cut, globalCut), path) <==>
      ShownPath(t, root, path) && Passed(path, root.crate, globalCut) !! cut
  {
    CutPathIff(Shown(t, Reached(t, root)), Walk(t, root, cut, globalCut), path, path, root.crate, cut, globalCut);
  }

  lemma EditedRouteIff(t: Table, root: Crate, cut: set<string>, globalCut: bool, route: seq<Package>)
    ensures IsPath(Dependencies(Edited(t, root, cut, globalCut)), route) <==>
      IsPath(Dependencies(t), route) && Passed(Labels(route), root, globalCut) !! cut
  {
    var g, h := Dependencies(t), Dependencies(Edited(t, root, cut, globalCut));
    forall i | 0 < i < |route| ensures HasEdge(h, route[i - 1], route[i]) <==>
      HasEdge(g, route[i - 1], route[i]) && !Severed(route[i - 1].crate, route[i].crate, root, cut, globalCut)
    {
      EditedEdges(t, root, cut, globalCut, route[i - 1], route[i]);
    }
    CutPathIff(g, h, route, Labels(route), root, cut, globalCut);
  }

  lemma WalkedIsKept(t: Table, root: Package, cut: set<string>, globalCut: bool, path: seq<Crate>)
    requires root.crate.name !in cut && PathsAreReal(t, root, globalCut)
    requires IsPath(Walk(t, root, cut, globalCut), path) && path[0] == root.crate
    ensures path[|path| - 1] in Crates(Kept(t, root, cut, globalCut))
  {
    WalkedPathIff(t, root, cut, globalCut, path);
    hide Walk, Passed, Severed, ShownPath, IsPath, Edited, Dependencies;
    var route :| Follows(t, root, globalCut, path, route);
    EditedRouteIff(t, root.crate, cut, globalCut, route);
    RouteReaches(Dependencies(Edited(t, root.crate, cut, globalCut)), root, route);
  }

  lemma RealPathsAgree(t: Table, root: Package, cut: set<string>, globalCut: bool)
    requires root.crate.name !in cut && PathsAreReal(t, root, globalCut)
    ensures ReachSet(Walk(t, root, cut, globalCut), root.crate) <= Crates(Kept(t, root, cut, globalCut))
  {
    hide Walk, Kept, PathsAreReal;
    forall c | c in ReachSet(Walk(t, root, cut, globalCut), root.crate)
      ensures c in Crates(Kept(t, root, cut, globalCut))
    {
      var path :| PathTo(Walk(t, root, cut, globalCut), root.crate, c, path);
      WalkedIsKept(t, root, cut, globalCut, path);
    }
  }

  lemma RouteReaches(g: Graph<Package>, root: Package, route: seq<Package>)
    requires IsPath(g, route) && route[0] == root
    ensures route[|route| - 1] in ReachSet(g, root)
  {
    assert PathTo(g, root, route[|route| - 1], route);
    ReachSetProperties(g, root);
  }

  /** The cut that stops everything but what a path passes. */
  ghost function Off(t: Table, root: Package, globalCut: bool, path: seq<Crate>): set<string> {
    (set c | c in Crates(Reached(t, root)) :: c.name) - Passed(path, root.crate, globalCut) - {root.crate.name}
  }

  lemma AgreementIsFollowed(t: Table, root: Package, globalCut: bool, path: seq<Crate>) returns (route: seq<Package>)
    requires ShownPath(t, root, path)
    requires var cut := Off(t, root, globalCut, path);
      ReachSet(Walk(t, root, cut, globalCut), root.crate) <= Crates(Kept(t, root, cut, globalCut))
    ensures Follows(t, root, globalCut, path, route)
  {
    hide Walk, Passed, Severed;
    var cut, c := Off(t, root, globalCut, path), path[|path| - 1];
    var g := Dependencies(Edited(t, root.crate, cut, globalCut));
    WalkedPathIff(t, root, cut, globalCut, path);
    assert PathTo(Walk(t, root, cut, globalCut), root.crate, c, path);
    ReachSetProperties(Walk(t, root, cut, globalCut), root.crate);
    assert c in Crates(ReachSet(g, root));
    var p :| p in ReachSet(g, root) && p.crate == c;
    route :| PathTo(g, root, p, route);
    EditedRouteIff(t, root.crate, cut, globalCut, route);
    NotOff(t, root, globalCut, path, route);
  }

  lemma NotOff(t: Table, root: Package, globalCut: bool, path: seq<Crate>, route: seq<Package>)
    requires IsPath(Dependencies(t), route) && route[0] == root
    requires Passed(Labels(route), root.crate, globalCut) !! Off(t, root, globalCut, path)
    ensures Passed(Labels(route), root.crate, globalCut) <= Passed(path, root.crate, globalCut) + {root.crate.name}
  {
    forall i | 0 < i < |route| ensures route[i].crate in Crates(Reached(t, root)) {
      var front := route[..i + 1];
      assert forall j | 0 < j < |front| :: HasEdge(Dependencies(t), route[j - 1], route[j]);
      RouteReaches(Dependencies(t), root, front);
    }
  }

  /**
   * Cuts of either mode are simulated exactly, whatever is cut, just when every
   * path through the listed graph stands for a route of packages that needs no
   * more of what a cut could stop.
   */
  lemma CutsAreExactIff(t: Table, root: Package, globalCut: bool)
    requires Complete(t) && root in t
    ensures (forall cut | root.crate.name !in cut :: Agrees(t, root, cut, globalCut)) <==>
      PathsAreReal(t, root, globalCut)
  {
    hide Agrees, Walk, Kept, Follows, Passed, ShownPath;
    if forall cut | root.crate.name !in cut :: Agrees(t, root, cut, globalCut) {
      forall path | ShownPath(t, root, path) ensures exists route :: Follows(t, root, globalCut, path, route) {
        AgreesIff(t, root, Off(t, root, globalCut, path), globalCut);
        var route := AgreementIsFollowed(t, root, globalCut, path);
      }
    }
    if PathsAreReal(t, root, globalCut) {
      forall cut | root.crate.name !in cut ensures Agrees(t, root, cut, globalCut) {
        RealPathsAgree(t, root, cut, globalCut);
        KeptIsWalked(t, root, cut, globalCut);
        AgreesIff(t, root, cut, globalCut);
      }
    }
  }

  // ------------------------------------------------------------------
  // A table on which it is not
  // ------------------------------------------------------------------

  /** Every dependency ranks below its dependent, so the table has no cycle even between crates. */
  ghost predicate Layered(t: Table, rank: map<Crate, nat>) {
    forall p, q | p in t && q in t[p] :: p.crate in rank && q.crate in rank && rank[q.crate] < rank[p.crate]
  }

  /**
   * A gate can keep too much on a table without cycles: two builds of `a` share
   * a node, so the walk goes on to `c` through the build that only `x` needed.
   */
  lemma MergedBuildsKeepMore(r: Crate, x: Crate, a: Crate, c: Crate) returns (rank: map<Crate, nat>)
    requires Apart(r, x, a, c)
    ensures var t, root := TwoBuilds(r, x, a, c), Package(r, 0);
      && Complete(t) && root in t && Layered(t, rank) && r.name !in {x.name}
      && c in Survivors(Listed(t, root), r, {x.name}, false)
      && c !in Listed(Edited(t, r, {x.name}, false), root)
  {
    hide TwoBuilds, Survivors, Listed, Edited, Reached;
    rank := TwoBuildsLayered(r, x, a, c);
    TwoBuildsKept(r, x, a, c);
    TwoBuildsWalked(r, x, a, c);
    ListedVerdict(TwoBuilds(r, x, a, c), Package(r, 0), {x.name}, c);
  }

  lemma ListedVerdict(t: Table, root: Package, cut: set<string>, c: Crate)
    requires Complete(t) && root in t
    ensures c in Survivors(Listed(t, root), root.crate, cut, false) <==>
      c in Survivors(Shown(t, Reached(t, root)), root.crate, cut, false)
    ensures c in Listed(Edited(t, root.crate, cut, false), root) <==> c in Crates(Kept(t, root, cut, false))
  {
    hide Survivors, Listed, Reached, Shown;
    ListedIs(t, root);
    ListedIs(Edited(t, root.crate, cut, false), root);
  }

  lemma TwoBuildsLayered(r: Crate, x: Crate, a: Crate, c: Crate) returns (rank: map<Crate, nat>)
    requires Apart(r, x, a, c)
    ensures var t := TwoBuilds(r, x, a, c); Complete(t) && Package(r, 0) in t && Layered(t, rank)
  {
    rank := map[r := 3, x := 2, a := 1, c := 0];
  }

  function TwoBuilds(r: Crate, x: Crate, a: Crate, c: Crate): Table {
    map[Package(r, 0) := [Package(x, 0), Package(a, 0)],
        Package(x, 0) := [Package(a, 1)],
        Package(a, 0) := [],
        Package(a, 1) := [Package(c, 0)],
        Package(c, 0) := []]
  }

  ghost predicate Apart(r: Crate, x: Crate, a: Crate, c: Crate) {
    r.name != x.name && a.name != x.name && r != a && r != c && x != c && a != c
  }

  lemma TwoBuildsEdges(r: Crate, x: Crate, a: Crate, c: Crate)
    requires Apart(r, x, a, c)
    ensures var g := Dependencies(TwoBuilds(r, x, a, c));
      && (forall v :: HasEdge(g, Package(r, 0), v) <==> v in {Package(x, 0), Package(a, 0)})
      && (forall v :: !HasEdge(g, Package(a, 0), v))
  {
  }

  lemma TwoBuildsEdited(r: Crate, x: Crate, a: Crate, c: Crate)
    requires Apart(r, x, a, c)
    ensures var g := Dependencies(Edited(TwoBuilds(r, x, a, c), r, {x.name}, false));
      && (forall v :: HasEdge(g, Package(r, 0), v) <==> v == Package(a, 0))
      && (forall v :: !HasEdge(g, Package(a, 0), v))
  {
    TwoBuildsEdges(r, x, a, c);
    hide TwoBuilds, Dependencies, Edited;
    forall u, v ensures HasEdge(Dependencies(Edited(TwoBuilds(r, x, a, c), r, {x.name}, false)), u, v) <==>
      HasEdge(Dependencies(TwoBuilds(r, x, a, c)), u, v) && !Severed(u.crate, v.crate, r, {x.name}, false)
    {
      EditedEdges(TwoBuilds(r, x, a, c), r, {x.name}, false, u, v);
    }
  }

  lemma TwoBuildsKept(r: Crate, x: Crate, a: Crate, c: Crate)
    requires Apart(r, x, a, c)
    ensures Reached(Edited(TwoBuilds(r, x, a, c), r, {x.name}, false), Package(r, 0)) ==
      {Package(r, 0), Package(a, 0)}
  {
    TwoBuildsEdited(r, x, a, c);
    OneStepOnly(Dependencies(Edited(TwoBuilds(r, x, a, c), r, {x.name}, false)), Package(r, 0), Package(a, 0));
  }

  lemma OneStepOnly<T(!new)>(g: Graph<T>, a: T, b: T)
    requires (forall v :: HasEdge(g, a, v) <==> v == b) && forall v :: !HasEdge(g, b, v)
    ensures ReachSet(g, a) == {a, b}
  {
    ReachSelf(g, a);
    ReachStep(g, a, a, b);
    ReachSetIs(g, a, {a, b});
  }

  lemma TwoBuildsReached(r: Crate, x: Crate, a: Crate, c: Crate)
    requires Apart(r, x, a, c)
    ensures var t := TwoBuilds(r, x, a, c);
      Shows(t, Reached(t, Package(r, 0)), r, a) && Shows(t, Reached(t, Package(r, 0)), a, c)
  {
    var t, root := TwoBuilds(r, x, a, c), Package(r, 0);
    var g := Dependencies(t);
    assert HasEdge(g, root, Package(x, 0)) && HasEdge(g, Package(x, 0), Package(a, 1));
    ReachSelf(g, root);
    ReachStep(g, root, root, Package(x, 0));
    ReachStep(g, root, Package(x, 0), Package(a, 1));
    assert Package(a, 0) in t[root] && Package(c, 0) in t[Package(a, 1)];
  }

  lemma TwoBuildsWalked(r: Crate, x: Crate, a: Crate, c: Crate)
    requires Apart(r, x, a, c)
    ensures var t := TwoBuilds(r, x, a, c);
      c in Survivors(Shown(t, Reached(t, Package(r, 0))), r, {x.name}, false)
  {
    var t := TwoBuilds(r, x, a, c);
    TwoBuildsReached(r, x, a, c);
    hide TwoBuilds;
    var reached := Reached(t, Package(r, 0));
    ShownEdges(t, reached, r, a);
    ShownEdges(t, reached, a, c);
    ForkKeeps(Shown(t, reached), r, a, c, {x.name});
  }
}
