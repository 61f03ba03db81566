/**
 * What "ran concurrently" means on the fields of two spans, and what either ordering profile makes of two
 * siblings: one racing group, two steps, or one group of unknown order.
 */
module Racing {
  import opened Ir
  import opened Sorting
  import opened UnionFind
  import opened Siblings
  import opened Runs
  import opened Grouping
  import opened PostHoc
  import opened Assembly
  import opened Loops
  import opened GapComponents
  import T = Ties
  import C = Capture

  // ---- two spans ----

  /** Parent and both spans on known goroutines, three different ones. */
  ghost predicate Dispatched(a: C.Span, b: C.Span, pg: nat) {
    var on := {pg, a.goroutine, b.goroutine};
    0 !in on && |on| == 3
  }

  /** The instants of a half-open interval. */
  predicate During(s: C.Span, t: nat) {
    s.start <= t < s.end
  }

  predicate StrictlyDuring(s: C.Span, t: nat) {
    s.start < t < s.end
  }

  ghost predicate SharedInstant(a: C.Span, b: C.Span) {
    exists t: nat :: During(a, t) && During(b, t)
  }

  /** `a` takes no time, and where it stands, or stands reversed, is strictly inside `b`. */
  ghost predicate EmptyInside(a: C.Span, b: C.Span) {
    a.end <= a.start && forall t: nat :: a.end <= t <= a.start ==> StrictlyDuring(b, t)
  }

  lemma ThreeOf(x: nat, y: nat, z: nat)
    ensures |{x, y, z}| == 3 <==> x != y && y != z && x != z
  {
    if x == y { assert {x, y, z} == {y, z}; }
    if y == z { assert {x, y, z} == {x, y}; }
    if x == z { assert {x, y, z} == {x, y}; }
    assert |{x, y}| <= 2 && |{y, z}| <= 2;
  }

  lemma OverlapIff(a: C.Span, b: C.Span)
    ensures C.Overlaps(a, b) <==> SharedInstant(a, b) || EmptyInside(a, b) || EmptyInside(b, a)
  {
    if C.Overlaps(a, b) {
      if a.start < a.end && b.start < b.end {
        var t := if a.start < b.start then b.start else a.start;
        assert During(a, t) && During(b, t);
      }
    }
    if EmptyInside(a, b) { assert StrictlyDuring(b, a.start) && StrictlyDuring(b, a.end); }
    if EmptyInside(b, a) { assert StrictlyDuring(a, b.start) && StrictlyDuring(a, b.end); }
  }

  /**
   * Two siblings race exactly when the parent dispatched them onto two other goroutines, whatever the clocks say,
   * or their intervals share an instant; an interval that takes no time races with what it stands strictly inside.
   */
  lemma ConcurrentIff(a: C.Span, b: C.Span, pg: nat)
    ensures C.Concurrent(a, b, pg) <==>
            Dispatched(a, b, pg) || SharedInstant(a, b) || EmptyInside(a, b) || EmptyInside(b, a)
  {
    ThreeOf(pg, a.goroutine, b.goroutine);
    OverlapIff(a, b);
  }

  /** Two spans on one worker, one done before the other starts, are no race. */
  lemma SameWorkerIsSerial(a: C.Span, b: C.Span, pg: nat)
    requires a.goroutine == b.goroutine && a.start < a.end <= b.start < b.end
    ensures !C.Concurrent(a, b, pg) && !C.Concurrent(b, a, pg)
  {
    ConcurrentIff(a, b, pg);
    ConcurrentIff(b, a, pg);
    ThreeOf(pg, a.goroutine, b.goroutine);
    ThreeOf(pg, b.goroutine, a.goroutine);
  }

  // ---- two siblings in process ----

  function Step(k: Kid): ChildGroup {
    Group(false, false, "", [k.tree])
  }

  function Race(a: Kid, b: Kid, sig: Signature): ChildGroup {
    Group(true, false, "", StableSort([a.tree, b.tree], BySig(sig)))
  }

  function Unknown(a: Kid, b: Kid, sig: Signature): ChildGroup {
    Group(false, true, "", StableSort([a.tree, b.tree], BySig(sig)))
  }

  /** What the groups of two siblings say, once it is known whether they raced and which is known to come first. */
  function PairGroups(a: Kid, b: Kid, sig: Signature, raced: bool, aFirst: bool, bFirst: bool): seq<ChildGroup> {
    if raced then [Race(a, b, sig)]
    else if aFirst then [Step(a), Step(b)]
    else if bFirst then [Step(b), Step(a)]
    else [Unknown(a, b, sig)]
  }

  /** A known start before another known start. */
  predicate StartsBefore(a: C.Span, b: C.Span) {
    0 < a.start < b.start
  }

  /** Two siblings in process, whatever their clocks and goroutines. */
  lemma TwoInProcess(a: Kid, b: Kid, pg: nat, sig: Signature)
    ensures Emit([a, b], pg, StartKeys([a, b], pg), sig)
         == PairGroups(a, b, sig, C.Concurrent(a.span, b.span, pg), StartsBefore(a.span, b.span), StartsBefore(b.span, a.span))
  {
    var kids := [a, b];
    PairConnected(kids, pg);
    PairHull(kids, pg);
    PairKeys(kids, pg);
    var keys := StartKeys(kids, pg);
    if keys[0] == keys[1] {
      OneKey(kids, pg, keys, sig);
    } else {
      TwoKeys(kids, pg, keys, sig);
    }
  }

  lemma PairConnected(kids: seq<Kid>, pg: nat)
    requires |kids| == 2
    ensures Connected(RaceEdges(kids, pg), 0, 0) && Connected(RaceEdges(kids, pg), 1, 1)
    ensures Connected(RaceEdges(kids, pg), 0, 1) <==> C.Concurrent(kids[0].span, kids[1].span, pg)
    ensures Connected(RaceEdges(kids, pg), 1, 0) <==> C.Concurrent(kids[0].span, kids[1].span, pg)
  {
    var edges := RaceEdges(kids, pg);
    ConnectedRefl(edges, 0);
    ConnectedRefl(edges, 1);
    if C.Concurrent(kids[0].span, kids[1].span, pg) {
      assert (0, 1) in edges;
      ConnectedStep(edges, 0, 1);
      ConnectedStep(edges, 1, 0);
    } else {
      assert edges == {};
      T.NoEdges(0, 1);
      T.NoEdges(1, 0);
    }
  }

  lemma LeastIs(s: set<nat>, m: nat)
    requires m in s && forall x :: x in s ==> m <= x
    ensures Least(s) == m
  {
  }

  lemma PairHull(kids: seq<Kid>, pg: nat)
    requires |kids| == 2
    ensures var raced, s, t := C.Concurrent(kids[0].span, kids[1].span, pg), kids[0].span.start, kids[1].span.start;
            && CompStart(kids, pg, 0) == (if raced && t < s then t else s)
            && CompStart(kids, pg, 1) == (if raced && s < t then s else t)
  {
    PairConnected(kids, pg);
    var raced, s, t := C.Concurrent(kids[0].span, kids[1].span, pg), kids[0].span.start, kids[1].span.start;
    assert CompStarts(kids, pg, 0) == if raced then {s, t} else {s};
    assert CompStarts(kids, pg, 1) == if raced then {s, t} else {t};
    LeastIs(CompStarts(kids, pg, 0), if raced && t < s then t else s);
    LeastIs(CompStarts(kids, pg, 1), if raced && s < t then s else t);
  }

  lemma PairKeys(kids: seq<Kid>, pg: nat)
    requires |kids| == 2
    ensures var raced, a, b := C.Concurrent(kids[0].span, kids[1].span, pg), kids[0].span, kids[1].span;
            && (StartKeys(kids, pg)[0] < StartKeys(kids, pg)[1] <==> !raced && StartsBefore(a, b))
            && (StartKeys(kids, pg)[1] < StartKeys(kids, pg)[0] <==> !raced && StartsBefore(b, a))
  {
    hide CompStart;
    PairHull(kids, pg);
    FirstTimedFacts(kids, pg);
    var s, t := CompStart(kids, pg, 0), CompStart(kids, pg, 1);
    if FirstTimed(kids, pg) != 0 {
      var i :| 0 <= i < |kids| && CompStart(kids, pg, i) == FirstTimed(kids, pg);
      assert i == 0 || i == 1;
    }
    assert kids[0].span.start == kids[0].span.start;
  }

  lemma AscendingOne(v: nat)
    ensures Ascending({v}) == [v]
  {
    LeastIs({v}, v);
    assert {v} - {v} == {};
  }

  lemma AscendingTwo(v: nat, w: nat)
    requires v < w
    ensures Ascending({v, w}) == [v, w]
  {
    LeastIs({v, w}, v);
    assert {v, w} - {v} == {w};
    AscendingOne(w);
  }

  lemma PairTrees(kids: seq<Kid>, keys: seq<nat>, v: nat)
    requires |kids| == |keys| == 2
    ensures TreesAt(EntriesOf(kids, keys), v)
         == (if keys[0] == v then [kids[0].tree] else []) + (if keys[1] == v then [kids[1].tree] else [])
  {
    var e := EntriesOf(kids, keys);
    assert e == [Entry(keys[0], kids[0].tree), Entry(keys[1], kids[1].tree)];
    assert e[..1] == [e[0]] && [e[0]][..0] == [];
    assert TreesAt([e[0]], v) == [] + if e[0].key == v then [e[0].tree] else [];
  }

  lemma OneKey(kids: seq<Kid>, pg: nat, keys: seq<nat>, sig: Signature)
    requires |kids| == |keys| == 2 && keys[0] == keys[1]
    ensures Emit(kids, pg, keys, sig) ==
            [if C.Concurrent(kids[0].span, kids[1].span, pg) then Race(kids[0], kids[1], sig) else Unknown(kids[0], kids[1], sig)]
  {
    hide TreesAt;
    var v := keys[0];
    assert ToSet(keys) == {v};
    AscendingOne(v);
    PairConnected(kids, pg);
    PairTrees(kids, keys, v);
    assert [kids[0].tree] + [kids[1].tree] == [kids[0].tree, kids[1].tree];
    PairGroup(kids, pg, keys, sig, v);
    OneValue(kids, pg, keys, sig, v);
  }

  lemma OneValue(kids: seq<Kid>, pg: nat, keys: seq<nat>, sig: Signature, v: nat)
    requires |keys| == |kids|
    ensures GroupsAt(kids, pg, keys, sig, [v]) == [GroupAt(kids, pg, keys, sig, v)]
  {
    hide GroupAt;
    assert [v][1..] == [];
  }

  lemma PairGroup(kids: seq<Kid>, pg: nat, keys: seq<nat>, sig: Signature, v: nat)
    requires |kids| == |keys| == 2 && keys[0] == keys[1] == v
    requires TreesAt(EntriesOf(kids, keys), v) == [kids[0].tree, kids[1].tree]
    ensures GroupAt(kids, pg, keys, sig, v) ==
            if C.Concurrent(kids[0].span, kids[1].span, pg) then Race(kids[0], kids[1], sig) else Unknown(kids[0], kids[1], sig)
  {
    hide TreesAt, Connected, RaceEdges, StableSort;
    PairConnected(kids, pg);
    assert |StableSort([kids[0].tree, kids[1].tree], BySig(sig))| == 2;
  }

  lemma SingleGroup(kids: seq<Kid>, pg: nat, keys: seq<nat>, sig: Signature, i: nat)
    requires |kids| == |keys| == 2 && keys[0] != keys[1] && i < 2
    ensures GroupAt(kids, pg, keys, sig, keys[i]) == Step(kids[i])
  {
    hide Connected, RaceEdges;
    PairConnected(kids, pg);
    PairTrees(kids, keys, keys[i]);
    assert TreesAt(EntriesOf(kids, keys), keys[i]) == [kids[i].tree];
    assert [kids[i].tree][1..] == [];
    assert StableSort([kids[i].tree], BySig(sig)) == [kids[i].tree];
  }

  lemma TwoKeys(kids: seq<Kid>, pg: nat, keys: seq<nat>, sig: Signature)
    requires |kids| == |keys| == 2 && keys[0] != keys[1]
    ensures Emit(kids, pg, keys, sig) == if keys[0] < keys[1] then [Step(kids[0]), Step(kids[1])] else [Step(kids[1]), Step(kids[0])]
  {
    hide GroupAt;
    var v, w := if keys[0] < keys[1] then keys[0] else keys[1], if keys[0] < keys[1] then keys[1] else keys[0];
    assert ToSet(keys) == {v, w};
    AscendingTwo(v, w);
    SingleGroup(kids, pg, keys, sig, 0);
    SingleGroup(kids, pg, keys, sig, 1);
    OneValue(kids, pg, keys, sig, w);
    assert [v, w][1..] == [w];
    assert GroupsAt(kids, pg, keys, sig, [v, w]) == [GroupAt(kids, pg, keys, sig, v)] + GroupsAt(kids, pg, keys, sig, [w]);
  }

  /** Whatever the clocks say, siblings dispatched onto two workers are one racing group. */
  lemma WorkersRace(a: Kid, b: Kid, pg: nat, sig: Signature)
    requires Dispatched(a.span, b.span, pg)
    ensures Emit([a, b], pg, StartKeys([a, b], pg), sig) == [Race(a, b, sig)]
  {
    ConcurrentIff(a.span, b.span, pg);
    TwoInProcess(a, b, pg, sig);
  }

  /** Back to back on one worker they are two steps in the order of their starts, in whatever order they were captured. */
  lemma OneWorkerSteps(a: Kid, b: Kid, pg: nat, sig: Signature)
    requires a.span.goroutine == b.span.goroutine
    requires 0 < a.span.start < a.span.end <= b.span.start < b.span.end
    ensures Emit([a, b], pg, StartKeys([a, b], pg), sig) == [Step(a), Step(b)]
    ensures Emit([b, a], pg, StartKeys([b, a], pg), sig) == [Step(a), Step(b)]
  {
    SameWorkerIsSerial(a.span, b.span, pg);
    TwoInProcess(a, b, pg, sig);
    TwoInProcess(b, a, pg, sig);
  }

  // ---- two siblings post hoc ----

  /** Two siblings in start order, as the post-hoc cut leaves them. */
  lemma TwoPostHoc(a: Kid, b: Kid, guard: nat, sig: Signature, groups: seq<ChildGroup>)
    requires CutAtGaps([a, b], guard, sig, groups)
    ensures groups == PairGroups(a, b, sig, C.Overlaps(a.span, b.span), T.Gap(a.span, b.span, guard), false)
  {
    if C.Overlaps(a.span, b.span) {
      OverlapCut(a, b, guard, sig, groups);
    } else {
      T.ApartCut([a, b], guard, sig, groups);
      ApartBlocks(a, b, guard, sig);
    }
  }

  lemma ApartBlocks(a: Kid, b: Kid, guard: nat, sig: Signature)
    ensures Blocks(T.LoneUnits([a, b]), GapBoundary(guard), sig, 0)
         == if T.Gap(a.span, b.span, guard) then [Step(a), Step(b)] else [Unknown(a, b, sig)]
  {
    hide StableSort;
    var units, boundary := T.LoneUnits([a, b]), GapBoundary(guard);
    assert units == [T.Lone(a), T.Lone(b)];
    assert boundary(units[0], units[1]) <==> T.Gap(a.span, b.span, guard);
    if T.Gap(a.span, b.span, guard) {
      T.BlocksAt(units, boundary, sig, 0, 1);
      T.BlocksAt(units, boundary, sig, 1, 2);
      assert units[0..1] == [units[0]] && units[1..2] == [units[1]];
    } else {
      T.BlocksAt(units, boundary, sig, 0, 2);
      assert units[0..2] == units;
      TwoMembers(units[0], units[1], a.tree, b.tree);
    }
  }

  lemma TwoMembers(u: Unit, v: Unit, a: CanonicalSpan, b: CanonicalSpan)
    requires u.members == [a] && v.members == [b]
    ensures MembersOf([u, v]) == [a, b]
  {
    assert [u, v][..1] == [u] && [u][..0] == [];
    assert MembersOf([u]) == [] + [a];
  }

  lemma OverlapCut(a: Kid, b: Kid, guard: nat, sig: Signature, groups: seq<ChildGroup>)
    requires CutAtGaps([a, b], guard, sig, groups) && C.Overlaps(a.span, b.span)
    ensures groups == [Race(a, b, sig)]
  {
    hide Blocks, UnitsOf, Comps, RaceEdges;
    var kids := [a, b];
    var rep :| |rep| == 2 && Labels(rep, RaceEdges(kids, 0)) && PositionLists(Comps(rep), 2)
            && groups == Blocks(UnitsOf(kids, Comps(rep), sig), GapBoundary(guard), sig, 0);
    PairConnected(kids, 0);
    assert rep[0] == rep[1];
    OneComp(rep);
    RaceUnit(a, b, guard, sig);
  }

  lemma RaceUnit(a: Kid, b: Kid, guard: nat, sig: Signature)
    requires PositionLists([[0, 1]], 2)
    ensures Blocks(UnitsOf([a, b], [[0, 1]], sig), GapBoundary(guard), sig, 0) == [Race(a, b, sig)]
  {
    hide StableSort, MinStart, MaxEnd, AllTimed;
    var kids := [a, b];
    var units := UnitsOf(kids, [[0, 1]], sig);
    assert [[0, 1]][0] == [0, 1];
    assert units == [UnitOf(kids, [0, 1], sig)];
    assert TreesOf(kids, [0, 1]) == [a.tree, b.tree];
    assert units[0].members == StableSort([a.tree, b.tree], BySig(sig));
    T.BlocksAt(units, GapBoundary(guard), sig, 0, 1);
    assert units[0..1] == [units[0]];
  }

  lemma OneComp(rep: seq<nat>)
    requires |rep| == 2 && rep[0] == rep[1]
    ensures Comps(rep) == [[0, 1]]
  {
    hide Class, Firsts;
    OneFirst(rep);
    OneClass(rep);
    assert |Comps(rep)| == 1;
    CompFacts(rep, 0);
  }

  lemma OneClass(rep: seq<nat>)
    requires |rep| == 2 && rep[0] == rep[1]
    ensures Class(rep, rep[0], 2) == [0, 1]
  {
    var r := rep[0];
    assert Class(rep, r, 0) == [] && Class(rep, r, 1) == [0];
    assert Class(rep, r, 2) == [0] + [1];
  }

  lemma OneFirst(rep: seq<nat>)
    requires |rep| == 2 && rep[0] == rep[1]
    ensures Firsts(rep, 2) == [0]
  {
    assert rep[..0] == [] && rep[..1] == [rep[0]];
    assert Firsts(rep, 0) == [] && Firsts(rep, 1) == [0];
    assert rep[1] in rep[..1];
    assert Firsts(rep, 2) == Firsts(rep, 1) + [];
  }

  // ---- in the tree ----

  /** Two children on two workers are one racing group under their parent in the built tree. */
  lemma WorkersRaceInTree(cfg: Config, spans: Spans, s: C.Span, a: C.Span, b: C.Span)
    requires !cfg.postHoc && Returns(spans, s.id) && ChildrenOf(spans, s.id) == [a, b]
    requires Dispatched(a, b, s.goroutine)
    ensures Returns(spans, a.id) && Returns(spans, b.id)
    ensures var x, y := Kid(a, Build(cfg, spans, a)), Kid(b, Build(cfg, spans, b));
            x.tree != y.tree ==> Build(cfg, spans, s).children == [Race(x, y, cfg.sig)]
  {
    hide Returns, Build, Emit, StartKeys, StableSort, Dispatched;
    BuildUnfolds(cfg, spans, s);
    assert a in [a, b] && b in [a, b];
    var x, y := Kid(a, Build(cfg, spans, a)), Kid(b, Build(cfg, spans, b));
    assert Built(cfg, spans, [a, b]) == [x, y];
    WorkersRace(x, y, s.goroutine, cfg.sig);
    if x.tree != y.tree { RaceStays(x, y, cfg.sig); }
  }

  /** Two different members are no repetition. */
  lemma RaceStays(a: Kid, b: Kid, sig: Signature)
    requires a.tree != b.tree
    ensures Collapse([Race(a, b, sig)]) == [Race(a, b, sig)]
  {
    hide StableSort;
    var g := Race(a, b, sig);
    var ms := g.members;
    assert |ms| == 2;
    assert ms[0] in multiset(ms) && ms[1] in multiset(ms);
    assert ms == [ms[0], ms[1]] && multiset(ms) == multiset{ms[0], ms[1]};
    assert multiset(ms) == multiset{a.tree, b.tree};
    assert multiset{a.tree, b.tree}[ms[0]] <= 1;
    assert forall x: CanonicalSpan :: multiset{x, x}[x] == 2;
    NothingToDrop(ms[0], ms[1]);
    assert CollapseGroup(g) == g;
    assert CollapseEach([g]) == [g];
    assert [g][1..] == [];
    assert RunLength(g, []) == 0;
    assert FoldRuns([g]) == [g] + FoldRuns([g][1..]);
  }

  lemma NothingToDrop(x: CanonicalSpan, y: CanonicalSpan)
    requires x != y
    ensures Dedup([x, y]) == [x, y]
  {
    assert [x, y][..1] == [x] && [x][..0] == [];
    assert Dedup([x]) == [] + [x];
  }
}
