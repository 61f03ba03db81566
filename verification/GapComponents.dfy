/**
 * What the groups mean. Post hoc, two timed siblings share a group exactly when a chain of siblings
 * joins them with no gap above the guard; across groups every pair is ordered with such a gap. In
 * process, siblings in different groups never raced.
 */
module GapComponents {
  import opened Ir
  import opened Sorting
  import opened UnionFind
  import opened Siblings
  import opened Runs
  import opened Grouping
  import opened PostHoc
  import C = Capture

  /** A proper interval with both clocks set, or no clock at all. */
  predicate ProperClock(s: C.Span) {
    (0 < s.start < s.end) || (s.start == 0 && s.end == 0)
  }

  ghost predicate ProperClocks(kids: seq<Kid>) {
    forall i :: 0 <= i < |kids| ==> ProperClock(kids[i].span)
  }

  /** Neither interval ends more than a guard before the other starts. */
  predicate Near(a: C.Span, b: C.Span, guard: nat) {
    b.start <= a.end + guard && a.start <= b.end + guard
  }

  ghost predicate NearPair(kids: seq<Kid>, guard: nat, i: nat, j: nat)
    requires i < |kids| && j < |kids|
  {
    kids[i].span.start > 0 && kids[j].span.start > 0 && Near(kids[i].span, kids[j].span, guard)
  }

  ghost function NearEdges(kids: seq<Kid>, guard: nat): Edges {
    set i, j | 0 <= i < |kids| && 0 <= j < |kids| && i != j && NearPair(kids, guard, i, j) :: (i, j)
  }

  lemma NearEdge(kids: seq<Kid>, guard: nat, i: nat, j: nat)
    ensures Adjacent(NearEdges(kids, guard), i, j) <==>
            i < |kids| && j < |kids| && i != j && NearPair(kids, guard, i, j)
  {
  }

  /** Among real intervals, a component opens a group when every earlier one ended more than a guard before. */
  lemma OpensAfterAll(kids: seq<Kid>, guard: nat, i: nat)
    requires RealIntervals(kids) && i < |kids|
    ensures Opens(kids, guard, i) <==>
              && (exists j :: 0 <= j < |kids| && 0 < CompStart(kids, 0, j) < CompStart(kids, 0, i))
              && (forall j :: 0 <= j < |kids| && CompStart(kids, 0, j) < CompStart(kids, 0, i) ==>
                    CompEnd(kids, 0, j) + guard < CompStart(kids, 0, i))
  {
    hide CompStart, CompEnd, CompTimed;
    if Opens(kids, guard, i) {
      var j0 :| 0 <= j0 < |kids| && Precedes(kids, j0, i) && CompTimed(kids, j0)
             && CompEnd(kids, 0, j0) + guard < CompStart(kids, 0, i);
      TimedIffStart(kids, j0);
      forall j | 0 <= j < |kids| && CompStart(kids, 0, j) < CompStart(kids, 0, i)
        ensures CompEnd(kids, 0, j) + guard < CompStart(kids, 0, i)
      {
        if Connected(RaceEdges(kids, 0), j, j0) { SameHull(kids, 0, j, j0); } else { HullsDisjoint(kids, j, j0); }
      }
    }
    if (exists j :: 0 <= j < |kids| && 0 < CompStart(kids, 0, j) < CompStart(kids, 0, i))
       && (forall j :: 0 <= j < |kids| && CompStart(kids, 0, j) < CompStart(kids, 0, i) ==>
             CompEnd(kids, 0, j) + guard < CompStart(kids, 0, i))
    {
      var j := Predecessor(kids, i);
      TimedIffStart(kids, j);
      TimedIffStart(kids, i);
    }
  }

  lemma Predecessor(kids: seq<Kid>, i: nat) returns (j: nat)
    requires i < |kids| && exists j :: 0 <= j < |kids| && 0 < CompStart(kids, 0, j) < CompStart(kids, 0, i)
    ensures j < |kids| && Precedes(kids, j, i) && CompStart(kids, 0, j) > 0
  {
    hide CompStart;
    var e :| 0 <= e < |kids| && 0 < CompStart(kids, 0, e) < CompStart(kids, 0, i);
    var s := set j | 0 <= j < |kids| && CompStart(kids, 0, j) < CompStart(kids, 0, i) :: CompStart(kids, 0, j);
    assert CompStart(kids, 0, e) in s;
    forall k | 0 <= k < |kids| && CompStart(kids, 0, k) < CompStart(kids, 0, i)
      ensures CompStart(kids, 0, k) <= Greatest(s)
    {
      assert CompStart(kids, 0, k) in s;
    }
    j :| 0 <= j < |kids| && CompStart(kids, 0, j) < CompStart(kids, 0, i) && CompStart(kids, 0, j) == Greatest(s);
  }

  /** Groups are emitted in key order, so this is the happens-before claim between two groups. */
  lemma CrossGroupGap(kids: seq<Kid>, guard: nat, i: nat, j: nat)
    requires RealIntervals(kids) && i < |kids| && j < |kids|
    requires GapKey(kids, guard, i) < GapKey(kids, guard, j)
    ensures kids[i].span.end + guard < kids[j].span.start
  {
    hide CompStart, CompEnd, GapKey, Opens;
    var c := OpenerOf(kids, guard, i, j);
    OpensAfterAll(kids, guard, c);
    HullBounds(kids, i);
    HullBounds(kids, j);
  }

  /** What separates two groups: a component that opens a group after the one and no later than the other. */
  lemma OpenerOf(kids: seq<Kid>, guard: nat, i: nat, j: nat) returns (c: nat)
    requires i < |kids| && j < |kids| && GapKey(kids, guard, i) < GapKey(kids, guard, j)
    ensures c < |kids| && Opens(kids, guard, c)
    ensures CompStart(kids, 0, i) < CompStart(kids, 0, c) <= CompStart(kids, 0, j)
  {
    hide CompStart, Opens;
    var key := GapKey(kids, guard, j);
    assert key in Openings(kids, guard, j);
    c :| c < |kids| && Opens(kids, guard, c)
      && CompStart(kids, 0, c) <= CompStart(kids, 0, j) && key == CompStart(kids, 0, c);
    assert key !in Openings(kids, guard, i);
  }

  lemma HullBounds(kids: seq<Kid>, i: nat)
    requires i < |kids|
    ensures CompStart(kids, 0, i) <= kids[i].span.start
    ensures kids[i].span.end <= CompEnd(kids, 0, i)
  {
    assert kids[i].span.start in CompStarts(kids, 0, i);
    assert kids[i].span.end in CompEnds(kids, 0, i);
  }

  lemma NearSameGroup(kids: seq<Kid>, guard: nat, i: nat, j: nat)
    requires RealIntervals(kids) && Adjacent(NearEdges(kids, guard), i, j)
    ensures i < |kids| && j < |kids| && GapKey(kids, guard, i) == GapKey(kids, guard, j)
  {
    NearEdge(kids, guard, i, j);
    if GapKey(kids, guard, i) < GapKey(kids, guard, j) { CrossGroupGap(kids, guard, i, j); }
    if GapKey(kids, guard, j) < GapKey(kids, guard, i) { CrossGroupGap(kids, guard, j, i); }
  }

  lemma {:induction false} NearPathSameGroup(kids: seq<Kid>, guard: nat, path: seq<nat>)
    requires RealIntervals(kids) && IsPath(NearEdges(kids, guard), path) && path[0] < |kids|
    ensures path[|path| - 1] < |kids|
    ensures GapKey(kids, guard, path[0]) == GapKey(kids, guard, path[|path| - 1])
  {
    hide GapKey, NearEdges;
    if |path| > 1 {
      NearSameGroup(kids, guard, path[0], path[1]);
      NearPathSameGroup(kids, guard, path[1..]);
    }
  }

  // ---- the converse ----

  ghost function NearStarts(kids: seq<Kid>, guard: nat, i: nat): (s: set<nat>)
    requires i < |kids|
    ensures kids[i].span.start in s
  {
    ConnectedRefl(NearEdges(kids, guard), i);
    set j | 0 <= j < |kids| && Connected(NearEdges(kids, guard), i, j) :: kids[j].span.start
  }

  /** The earliest member of a near-component. */
  lemma NearFirst(kids: seq<Kid>, guard: nat, i: nat) returns (f: nat)
    requires i < |kids| && kids[i].span.start > 0
    ensures f < |kids| && Connected(NearEdges(kids, guard), i, f) && kids[f].span.start > 0
    ensures forall j: nat :: j < |kids| && Connected(NearEdges(kids, guard), i, j) ==>
              kids[f].span.start <= kids[j].span.start
  {
    var m := Least(NearStarts(kids, guard, i));
    f :| f < |kids| && Connected(NearEdges(kids, guard), i, f) && kids[f].span.start == m;
    forall j: nat | j < |kids| && Connected(NearEdges(kids, guard), i, j)
      ensures kids[f].span.start <= kids[j].span.start
    {
      assert kids[j].span.start in NearStarts(kids, guard, i);
    }
    var path :| PathFromTo(NearEdges(kids, guard), path, i, f);
    NearPathTimed(kids, guard, path);
  }

  lemma {:induction false} NearPathTimed(kids: seq<Kid>, guard: nat, path: seq<nat>)
    requires IsPath(NearEdges(kids, guard), path) && path[0] < |kids| && kids[path[0]].span.start > 0
    ensures path[|path| - 1] < |kids| && kids[path[|path| - 1]].span.start > 0
  {
    if |path| > 1 {
      NearEdge(kids, guard, path[0], path[1]);
      NearPathTimed(kids, guard, path[1..]);
    }
  }

  /** A near-chain that begins before `b` and never touches it ends more than a guard before it. */
  lemma {:induction false} NearPathStaysLeft(kids: seq<Kid>, guard: nat, path: seq<nat>, b: nat)
    requires IsPath(NearEdges(kids, guard), path) && path[0] < |kids| && b < |kids|
    requires 0 < kids[b].span.start < kids[b].span.end
    requires 0 < kids[path[0]].span.start <= kids[b].span.start
    requires !Connected(NearEdges(kids, guard), path[0], b)
    ensures path[|path| - 1] < |kids|
    ensures kids[path[|path| - 1]].span.end + guard < kids[b].span.start
  {
    var edges, a := NearEdges(kids, guard), path[0];
    NearEdge(kids, guard, a, b);
    ConnectedRefl(edges, a);
    if Adjacent(edges, a, b) { ConnectedStep(edges, a, b); }
    assert kids[a].span.end + guard < kids[b].span.start;
    if |path| > 1 {
      var c := path[1];
      NearEdge(kids, guard, a, c);
      ConnectedStep(edges, a, c);
      if Connected(edges, c, b) { ConnectedTrans(edges, a, c, b); }
      assert kids[c].span.start <= kids[b].span.start;
      NearPathStaysLeft(kids, guard, path[1..], b);
    }
  }

  /** Overlapping is being near. */
  lemma {:induction false} RacePathNear(kids: seq<Kid>, guard: nat, path: seq<nat>)
    requires ProperClocks(kids) && IsPath(RaceEdges(kids, 0), path) && path[0] < |kids|
    ensures path[|path| - 1] < |kids|
    ensures Connected(NearEdges(kids, guard), path[0], path[|path| - 1])
  {
    var edges := NearEdges(kids, guard);
    if |path| == 1 {
      ConnectedRefl(edges, path[0]);
    } else {
      AdjacentIffRace(kids, 0, path[0], path[1]);
      assert ProperClock(kids[path[0]].span) && ProperClock(kids[path[1]].span);
      NearEdge(kids, guard, path[0], path[1]);
      ConnectedStep(edges, path[0], path[1]);
      RacePathNear(kids, guard, path[1..]);
      ConnectedTrans(edges, path[0], path[1], path[|path| - 1]);
    }
  }

  lemma RacedIsNear(kids: seq<Kid>, guard: nat, i: nat, j: nat)
    requires ProperClocks(kids) && i < |kids| && j < |kids| && Connected(RaceEdges(kids, 0), i, j)
    ensures Connected(NearEdges(kids, guard), i, j)
  {
    var path :| PathFromTo(RaceEdges(kids, 0), path, i, j);
    RacePathNear(kids, guard, path);
  }

  /** Every sibling that starts before the first member of another near-component ends well before it. */
  lemma LeftOfComponent(kids: seq<Kid>, guard: nat, f: nat, a: nat, x: nat)
    requires ProperClocks(kids) && f < |kids| && a < |kids| && x < |kids|
    requires kids[f].span.start > 0
    requires forall j: nat :: j < |kids| && Connected(NearEdges(kids, guard), f, j) ==>
               kids[f].span.start <= kids[j].span.start
    requires 0 < kids[a].span.start < kids[f].span.start
    requires Connected(NearEdges(kids, guard), a, x)
    ensures kids[x].span.end + guard < kids[f].span.start
  {
    var edges := NearEdges(kids, guard);
    if Connected(edges, a, f) { ConnectedSymm(edges, a, f); }
    var path :| PathFromTo(edges, path, a, x);
    assert ProperClock(kids[f].span);
    NearPathStaysLeft(kids, guard, path, f);
  }

  /** The first member of a later near-component opens a group. */
  lemma FirstOpens(kids: seq<Kid>, guard: nat, f: nat, e: nat)
    requires ProperClocks(kids) && f < |kids| && e < |kids|
    requires 0 < kids[e].span.start < kids[f].span.start
    requires forall j: nat :: j < |kids| && Connected(NearEdges(kids, guard), f, j) ==>
               kids[f].span.start <= kids[j].span.start
    ensures CompStart(kids, 0, f) == kids[f].span.start
    ensures Opens(kids, guard, f)
  {
    ProperIsReal(kids);
    assert CompStart(kids, 0, f) == kids[f].span.start by {
      forall x | x in CompStarts(kids, 0, f) ensures kids[f].span.start <= x {
        var j: nat :| j < |kids| && Connected(RaceEdges(kids, 0), f, j) && kids[j].span.start == x;
        RacedIsNear(kids, guard, f, j);
      }
    }
    hide CompStart, CompEnd;
    assert 0 < CompStart(kids, 0, e) < CompStart(kids, 0, f) by {
      var first, _ := HullWitness(kids, 0, e);
      TimedComponent(kids, e);
    }
    forall j | 0 <= j < |kids| && CompStart(kids, 0, j) < CompStart(kids, 0, f)
      ensures CompEnd(kids, 0, j) + guard < CompStart(kids, 0, f)
    {
      var first, last := HullWitness(kids, 0, j);
      ConnectedSymm(RaceEdges(kids, 0), j, first);
      ConnectedTrans(RaceEdges(kids, 0), first, j, last);
      if CompStart(kids, 0, j) > 0 {
        RacedIsNear(kids, guard, first, last);
        LeftOfComponent(kids, guard, f, first, last);
      } else {
        UntimedAlone(kids, first, last);
        ConnectedRefl(NearEdges(kids, guard), e);
        LeftOfComponent(kids, guard, f, e, e);
      }
    }
    OpensAfterAll(kids, guard, f);
  }

  lemma ProperIsReal(kids: seq<Kid>)
    requires ProperClocks(kids)
    ensures RealIntervals(kids)
  {
    forall i | 0 <= i < |kids| ensures RealInterval(kids[i].span) { assert ProperClock(kids[i].span); }
  }

  /** A sibling without a clock overlaps nothing. */
  lemma UntimedAlone(kids: seq<Kid>, i: nat, j: nat)
    requires ProperClocks(kids) && i < |kids| && j < |kids|
    requires kids[i].span.start == 0 && Connected(RaceEdges(kids, 0), i, j)
    ensures i == j && kids[i].span.end == 0
  {
    var path :| PathFromTo(RaceEdges(kids, 0), path, i, j);
    assert ProperClock(kids[i].span);
    if |path| > 1 { AdjacentIffRace(kids, 0, path[0], path[1]); }
  }

  lemma TimedComponent(kids: seq<Kid>, e: nat)
    requires ProperClocks(kids) && e < |kids| && kids[e].span.start > 0
    ensures 0 < CompStart(kids, 0, e) <= kids[e].span.start
  {
    var first, _ := HullWitness(kids, 0, e);
    if kids[first].span.start == 0 {
      ConnectedSymm(RaceEdges(kids, 0), e, first);
      UntimedAlone(kids, first, e);
    }
    assert kids[e].span.start in CompStarts(kids, 0, e);
  }

  lemma SameGroupNear(kids: seq<Kid>, guard: nat, i: nat, j: nat)
    requires ProperClocks(kids) && i < |kids| && j < |kids|
    requires kids[i].span.start > 0 && kids[j].span.start > 0
    requires GapKey(kids, guard, i) == GapKey(kids, guard, j)
    ensures Connected(NearEdges(kids, guard), i, j)
  {
    hide GapKey, CompStart, NearEdges, Opens;
    var edges := NearEdges(kids, guard);
    if !Connected(edges, i, j) {
      var f := NearFirst(kids, guard, i);
      var g := NearFirst(kids, guard, j);
      if kids[f].span.start <= kids[g].span.start {
        NearSplit(kids, guard, i, j, f, g);
      } else {
        if Connected(edges, j, i) { ConnectedSymm(edges, j, i); }
        NearSplit(kids, guard, j, i, g, f);
      }
    }
  }

  /** Two near-components, the first starting no later than the second, lie in different groups. */
  lemma NearSplit(kids: seq<Kid>, guard: nat, i: nat, j: nat, f: nat, g: nat)
    requires ProperClocks(kids) && i < |kids| && j < |kids| && f < |kids| && g < |kids|
    requires !Connected(NearEdges(kids, guard), i, j)
    requires Connected(NearEdges(kids, guard), i, f) && Connected(NearEdges(kids, guard), j, g)
    requires 0 < kids[f].span.start <= kids[g].span.start
    requires kids[i].span.start > 0
    requires forall x: nat :: x < |kids| && Connected(NearEdges(kids, guard), j, x) ==>
               kids[g].span.start <= kids[x].span.start
    ensures GapKey(kids, guard, i) < GapKey(kids, guard, j)
  {
    hide NearEdges;
    var edges := NearEdges(kids, guard);
    ConnectedSymm(edges, i, f);
    ConnectedSymm(edges, j, g);
    if Connected(edges, f, g) {
      ConnectedTrans(edges, i, f, g);
      ConnectedTrans(edges, i, g, j);
    }
    assert ProperClock(kids[g].span);
    ConnectedRefl(edges, f);
    var path :| PathFromTo(edges, path, f, i);
    NearPathStaysLeft(kids, guard, path, g);
    assert ProperClock(kids[i].span);
    forall x: nat | x < |kids| && Connected(edges, g, x) ensures kids[g].span.start <= kids[x].span.start {
      ConnectedTrans(edges, j, g, x);
    }
    FirstOpens(kids, guard, g, i);
    TimedComponent(kids, i);
    assert CompStart(kids, 0, g) <= CompStart(kids, 0, j) by {
      var first, _ := HullWitness(kids, 0, j);
      RacedIsNear(kids, guard, j, first);
    }
    LaterKey(kids, guard, i, j, g);
  }

  lemma LaterKey(kids: seq<Kid>, guard: nat, i: nat, j: nat, g: nat)
    requires i < |kids| && j < |kids| && g < |kids| && Opens(kids, guard, g)
    requires CompStart(kids, 0, i) < CompStart(kids, 0, g) <= CompStart(kids, 0, j)
    ensures GapKey(kids, guard, i) < GapKey(kids, guard, j)
  {
    hide CompStart, CompEnd, Opens;
    assert CompStart(kids, 0, g) in Openings(kids, guard, j);
  }

  /** Post hoc, the groups of timed siblings are exactly the components of "not separated by more than the guard". */
  lemma GroupsAreNearComponents(kids: seq<Kid>, guard: nat, i: nat, j: nat)
    requires ProperClocks(kids) && i < |kids| && j < |kids|
    requires kids[i].span.start > 0 && kids[j].span.start > 0
    ensures GapKey(kids, guard, i) == GapKey(kids, guard, j) <==> Connected(NearEdges(kids, guard), i, j)
  {
    hide GapKey, NearEdges;
    ProperIsReal(kids);
    if Connected(NearEdges(kids, guard), i, j) {
      var path :| PathFromTo(NearEdges(kids, guard), path, i, j);
      NearPathSameGroup(kids, guard, path);
    }
    if GapKey(kids, guard, i) == GapKey(kids, guard, j) {
      SameGroupNear(kids, guard, i, j);
    }
  }

  /** A sibling without a clock claims no order: it joins the group of the earliest timed sibling. */
  lemma UntimedJoinFirst(kids: seq<Kid>, guard: nat, u: nat, f: nat)
    requires ProperClocks(kids) && u < |kids| && f < |kids|
    requires kids[u].span.start == 0 && kids[f].span.start > 0
    requires forall j :: 0 <= j < |kids| && kids[j].span.start > 0 ==> kids[f].span.start <= kids[j].span.start
    ensures GapKey(kids, guard, u) == GapKey(kids, guard, f) == 0
  {
    TimedComponent(kids, f);
    assert kids[u].span.start in CompStarts(kids, 0, u);
    ProperIsReal(kids);
    forall c | 0 <= c < |kids| && Opens(kids, guard, c) ensures CompStart(kids, 0, c) > CompStart(kids, 0, f) {
      OpensAfterAll(kids, guard, c);
      var j :| 0 <= j < |kids| && 0 < CompStart(kids, 0, j) < CompStart(kids, 0, c);
      var first, _ := HullWitness(kids, 0, j);
    }
    hide CompStart, CompEnd, Opens;
    assert GapKey(kids, guard, u) in Openings(kids, guard, u);
    assert GapKey(kids, guard, f) in Openings(kids, guard, f);
  }

  /** In process, the group boundary never separates siblings that raced. */
  lemma RacersShareGroup(kids: seq<Kid>, pg: nat, i: nat, j: nat)
    requires i < |kids| && j < |kids| && C.Concurrent(kids[i].span, kids[j].span, pg)
    ensures StartKey(kids, pg, i) == StartKey(kids, pg, j)
  {
    if i != j {
      AdjacentIffRace(kids, pg, i, j);
      ConnectedStep(RaceEdges(kids, pg), i, j);
      SameHull(kids, pg, i, j);
    }
  }
}
