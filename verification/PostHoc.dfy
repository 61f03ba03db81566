/**
 * The out-of-process ordering profile. Only exported intervals remain, so siblings are cut where
 * two neighbouring components are separated by more than the order guard.
 */
module PostHoc {
  import opened Ir
  import opened Sorting
  import opened UnionFind
  import opened Siblings
  import opened Runs
  import opened Grouping
  import C = Capture

  /** Both neighbours timed, and the gap between them wider than the guard. */
  function GapBoundary(guard: nat): Boundary {
    (prev: Unit, cur: Unit) => prev.timed && cur.timed && cur.start > prev.end + guard
  }

  /** What exported intervals look like: a real interval, or no clock at all. */
  predicate RealInterval(s: C.Span) {
    s.start < s.end || (s.start == 0 && s.end == 0)
  }

  ghost predicate RealIntervals(kids: seq<Kid>) {
    forall i :: 0 <= i < |kids| ==> RealInterval(kids[i].span)
  }

  /**
   * Siblings with the same known start are sorted by id. That is harmless exactly when both are real
   * intervals, which overlap, or both are the same interval and no boundary can fall between them.
   */
  predicate TieSafe(a: C.Span, b: C.Span, guard: nat) {
    || a.start != b.start
    || a.start == 0
    || (a.start < a.end && b.start < b.end)
    || (a.end == b.end && (a.end == 0 || a.start <= a.end + guard))
  }

  ghost predicate TiesSafe(kids: seq<Kid>, guard: nat) {
    forall i, j :: 0 <= i < j < |kids| ==> TieSafe(kids[i].span, kids[j].span, guard)
  }

  /** Captures whose spans all ran for a while meet the tie condition. */
  lemma RealTiesSafe(kids: seq<Kid>, guard: nat)
    requires RealIntervals(kids)
    ensures TiesSafe(kids, guard)
  {
    forall i, j | 0 <= i < j < |kids| ensures TieSafe(kids[i].span, kids[j].span, guard) {
      assert RealInterval(kids[i].span) && RealInterval(kids[j].span);
    }
  }

  // ---- components of intervals do not interleave ----

  /** A chain of overlaps cannot step across an instant that a non-member covers. */
  lemma {:induction false} PathStaysLeft(kids: seq<Kid>, path: seq<nat>, b: nat)
    requires IsPath(RaceEdges(kids, 0), path) && path[0] < |kids| && b < |kids|
    requires kids[b].span.start < kids[b].span.end
    requires kids[path[0]].span.start <= kids[b].span.start
    requires !Connected(RaceEdges(kids, 0), path[0], b)
    ensures path[|path| - 1] < |kids|
    ensures kids[path[|path| - 1]].span.end <= kids[b].span.start
  {
    var edges := RaceEdges(kids, 0);
    var a := path[0];
    assert kids[a].span.end <= kids[b].span.start by {
      if kids[b].span.start < kids[a].span.end {
        ConnectedRefl(edges, a);
        AdjacentIffRace(kids, 0, a, b);
        if a != b { ConnectedStep(edges, a, b); }
      }
    }
    if |path| > 1 {
      var c := path[1];
      AdjacentIffRace(kids, 0, a, c);
      ConnectedStep(edges, a, c);
      if Connected(edges, c, b) { ConnectedTrans(edges, a, c, b); }
      PathStaysLeft(kids, path[1..], b);
    }
  }

  /** Hulls of distinct components are disjoint: the one that starts first also ends first. */
  lemma HullsDisjoint(kids: seq<Kid>, a: nat, b: nat)
    requires RealIntervals(kids) && a < |kids| && b < |kids|
    requires CompStart(kids, 0, a) <= CompStart(kids, 0, b) && CompStart(kids, 0, b) > 0
    requires !Connected(RaceEdges(kids, 0), a, b)
    ensures CompEnd(kids, 0, a) <= CompStart(kids, 0, b)
    ensures CompStart(kids, 0, a) < CompStart(kids, 0, b)
  {
    var edges := RaceEdges(kids, 0);
    var first, last := HullWitness(kids, 0, a);
    var opener, _ := HullWitness(kids, 0, b);
    ConnectedSymm(edges, a, first);
    ConnectedTrans(edges, first, a, last);
    if Connected(edges, first, opener) {
      ConnectedSymm(edges, b, opener);
      ConnectedTrans(edges, a, first, opener);
      ConnectedTrans(edges, a, opener, b);
    }
    var path :| PathFromTo(edges, path, first, last);
    PathStaysLeft(kids, path, opener);
    PathStaysLeft(kids, [first], opener);
  }

  /** Every member of the component has both clocks. */
  ghost predicate CompTimed(kids: seq<Kid>, i: nat)
    requires i < |kids|
  {
    forall j :: 0 <= j < |kids| && Connected(RaceEdges(kids, 0), i, j) ==>
      kids[j].span.start != 0 && kids[j].span.end != 0
  }

  lemma TimedStart(kids: seq<Kid>, i: nat)
    requires i < |kids| && CompTimed(kids, i)
    ensures CompStart(kids, 0, i) > 0
  {
    var first, _ := HullWitness(kids, 0, i);
  }

  /** Among real intervals a component has a clock exactly when its start is known. */
  lemma TimedIffStart(kids: seq<Kid>, i: nat)
    requires RealIntervals(kids) && i < |kids|
    ensures CompTimed(kids, i) <==> CompStart(kids, 0, i) > 0
    ensures CompStart(kids, 0, i) > 0 ==> CompStart(kids, 0, i) < CompEnd(kids, 0, i)
  {
    var first, _ := HullWitness(kids, 0, i);
    assert kids[first].span.end in CompEnds(kids, 0, i);
    forall j | 0 <= j < |kids| && Connected(RaceEdges(kids, 0), i, j) && CompStart(kids, 0, i) > 0
      ensures kids[j].span.start != 0 && kids[j].span.end != 0
    {
      assert kids[j].span.start in CompStarts(kids, 0, i);
      assert RealInterval(kids[j].span);
    }
  }

  lemma SameTimed(kids: seq<Kid>, i: nat, j: nat)
    requires i < |kids| && j < |kids| && Connected(RaceEdges(kids, 0), i, j)
    ensures CompTimed(kids, i) <==> CompTimed(kids, j)
  {
    var edges := RaceEdges(kids, 0);
    ConnectedSymm(edges, i, j);
    forall x | 0 <= x < |kids| ensures Connected(edges, i, x) <==> Connected(edges, j, x) {
      if Connected(edges, i, x) { ConnectedTrans(edges, j, i, x); }
      if Connected(edges, j, x) { ConnectedTrans(edges, i, j, x); }
    }
  }

  // ---- keys ----

  /** No component starts strictly between the two. */
  ghost predicate Precedes(kids: seq<Kid>, j: nat, i: nat)
    requires i < |kids| && j < |kids|
  {
    && CompStart(kids, 0, j) < CompStart(kids, 0, i)
    && forall k :: 0 <= k < |kids| && CompStart(kids, 0, k) < CompStart(kids, 0, i) ==>
         CompStart(kids, 0, k) <= CompStart(kids, 0, j)
  }

  /** A component opens a group: it and its predecessor are timed, and the gap exceeds the guard. */
  ghost predicate Opens(kids: seq<Kid>, guard: nat, i: nat)
    requires i < |kids|
  {
    && CompTimed(kids, i)
    && exists j :: 0 <= j < |kids| && Precedes(kids, j, i) && CompTimed(kids, j)
                && CompEnd(kids, 0, j) + guard < CompStart(kids, 0, i)
  }

  ghost function Openings(kids: seq<Kid>, guard: nat, i: nat): set<nat>
    requires i < |kids|
  {
    {0} + set j | 0 <= j < |kids| && Opens(kids, guard, j) && CompStart(kids, 0, j) <= CompStart(kids, 0, i)
            :: CompStart(kids, 0, j)
  }

  /** The start of the latest component that opens a group at or before this one; 0 for the first group. */
  ghost function GapKey(kids: seq<Kid>, guard: nat, i: nat): nat
    requires i < |kids|
  {
    assert 0 in Openings(kids, guard, i);
    Greatest(Openings(kids, guard, i))
  }

  ghost function GapKeys(kids: seq<Kid>, guard: nat): (keys: seq<nat>)
    ensures |keys| == |kids|
    ensures forall i :: 0 <= i < |kids| ==> keys[i] == GapKey(kids, guard, i)
  {
    seq(|kids|, i requires 0 <= i < |kids| => GapKey(kids, guard, i))
  }

  lemma SameGapKey(kids: seq<Kid>, guard: nat, i: nat, j: nat)
    requires i < |kids| && j < |kids| && Connected(RaceEdges(kids, 0), i, j)
    ensures GapKey(kids, guard, i) == GapKey(kids, guard, j)
    ensures Opens(kids, guard, i) <==> Opens(kids, guard, j)
  {
    SameHull(kids, 0, i, j);
    SameTimed(kids, i, j);
    hide CompStart, CompEnd, CompTimed;
    assert Openings(kids, guard, i) == Openings(kids, guard, j);
  }

  lemma OpenerKey(kids: seq<Kid>, guard: nat, h: nat, p: nat)
    requires h < |kids| && p < |kids| && Opens(kids, guard, h)
    requires CompStart(kids, 0, p) < CompStart(kids, 0, h)
    ensures GapKey(kids, guard, p) < GapKey(kids, guard, h)
  {
    hide CompStart, CompEnd, Opens;
    assert CompStart(kids, 0, h) in Openings(kids, guard, h);
  }

  lemma NoOpenerKey(kids: seq<Kid>, guard: nat, h: nat, p: nat)
    requires h < |kids| && p < |kids|
    requires CompStart(kids, 0, p) <= CompStart(kids, 0, h)
    requires forall j :: 0 <= j < |kids| && Opens(kids, guard, j) && CompStart(kids, 0, j) <= CompStart(kids, 0, h) ==>
               CompStart(kids, 0, j) <= CompStart(kids, 0, p)
    ensures GapKey(kids, guard, p) == GapKey(kids, guard, h)
  {
    hide CompStart, CompEnd, Opens;
    assert Openings(kids, guard, p) == Openings(kids, guard, h);
  }

  lemma EqualStartKey(kids: seq<Kid>, guard: nat, i: nat, j: nat)
    requires i < |kids| && j < |kids| && CompStart(kids, 0, i) == CompStart(kids, 0, j)
    ensures GapKey(kids, guard, i) == GapKey(kids, guard, j)
  {
    hide CompStart, CompEnd, Opens;
    assert Openings(kids, guard, i) == Openings(kids, guard, j);
  }

  // ---- ties ----

  /** Distinct components with the same known start are copies of one interval that overlaps nothing. */
  lemma TiedComponents(kids: seq<Kid>, guard: nat, i: nat, j: nat)
    requires TiesSafe(kids, guard) && i < |kids| && j < |kids|
    requires CompStart(kids, 0, i) == CompStart(kids, 0, j) > 0
    requires !Connected(RaceEdges(kids, 0), i, j)
    ensures CompEnd(kids, 0, i) == CompEnd(kids, 0, j)
    ensures CompTimed(kids, i) <==> CompTimed(kids, j)
    ensures CompTimed(kids, i) ==> CompStart(kids, 0, i) <= CompEnd(kids, 0, i) + guard
  {
    var edges, s := RaceEdges(kids, 0), CompStart(kids, 0, i);
    var a, _ := HullWitness(kids, 0, i);
    var b, _ := HullWitness(kids, 0, j);
    ConnectedSymm(edges, j, b);
    if Connected(edges, a, b) {
      ConnectedTrans(edges, i, a, b);
      ConnectedTrans(edges, i, b, j);
    }
    ConnectedRefl(edges, a);
    AdjacentIffRace(kids, 0, a, b);
    if Adjacent(edges, a, b) { ConnectedStep(edges, a, b); }
    assert TieSafe(kids[a].span, kids[b].span, guard) by {
      assert a < b || b < a;
      assert a < b ==> TieSafe(kids[a].span, kids[b].span, guard);
      assert b < a ==> TieSafe(kids[b].span, kids[a].span, guard);
    }
    EmptyAtStart(kids, i, a);
    EmptyAtStart(kids, j, b) by { ConnectedSymm(edges, b, j); }
  }

  /** An interval that does not reach past the start of its own component is all of it. */
  lemma EmptyAtStart(kids: seq<Kid>, i: nat, a: nat)
    requires i < |kids| && a < |kids| && Connected(RaceEdges(kids, 0), i, a)
    requires kids[a].span.start == CompStart(kids, 0, i) && kids[a].span.end <= kids[a].span.start
    ensures CompEnd(kids, 0, i) == kids[a].span.end
    ensures CompTimed(kids, i) <==> kids[a].span.start != 0 && kids[a].span.end != 0
  {
    var edges := RaceEdges(kids, 0);
    forall x | 0 <= x < |kids| && Connected(edges, i, x) ensures kids[a].span.end <= kids[x].span.start {
      assert kids[x].span.start in CompStarts(kids, 0, i);
    }
    forall j | 0 <= j < |kids| && Connected(edges, i, j) ensures j == a {
      ConnectedSymm(edges, i, a);
      ConnectedTrans(edges, a, i, j);
      var path :| PathFromTo(edges, path, a, j);
      if |path| > 1 {
        var x := path[1];
        AdjacentIffRace(kids, 0, a, x);
        ConnectedStep(edges, a, x);
        ConnectedTrans(edges, i, a, x);
      }
    }
    var _, last := HullWitness(kids, 0, i);
  }

  // ---- the traversal realizes the keys ----

  lemma GapKeysFit(kids: seq<Kid>, guard: nat, rep: seq<nat>, sig: Signature)
    requires StartSorted(kids) && TiesSafe(kids, guard)
    requires |rep| == |kids| && Labels(rep, RaceEdges(kids, 0))
    requires PositionLists(Comps(rep), |kids|)
    ensures KeysFit(Comps(rep), GapKeys(kids, guard), UnitsOf(kids, Comps(rep), sig), GapBoundary(guard))
  {
    hide GapKey, UnitOf, GapBoundary;
    var comps, keys := Comps(rep), GapKeys(kids, guard);
    forall k, x: nat | 0 <= k < |comps| && x in comps[k] && x < |keys| ensures keys[x] == keys[comps[k][0]] {
      ConstantOnComponents(kids, 0, rep, k, x);
      SameGapKey(kids, guard, x, comps[k][0]);
    }
    forall k | 0 < k < |comps|
      ensures keys[comps[k - 1][0]] <= keys[comps[k][0]]
      ensures GapBoundary(guard)(UnitsOf(kids, comps, sig)[k - 1], UnitsOf(kids, comps, sig)[k])
         <==> keys[comps[k - 1][0]] < keys[comps[k][0]]
    {
      GapKeyStep(kids, guard, rep, sig, k);
    }
  }

  lemma UnitIsTimed(kids: seq<Kid>, rep: seq<nat>, sig: Signature, k: nat)
    requires |rep| == |kids| && Labels(rep, RaceEdges(kids, 0))
    requires PositionLists(Comps(rep), |kids|) && k < |Comps(rep)|
    ensures Comps(rep)[k][0] < |kids|
    ensures UnitsOf(kids, Comps(rep), sig)[k].timed <==> CompTimed(kids, Comps(rep)[k][0])
  {
    CompsFacts(rep);
    UnitHull(kids, 0, rep, Comps(rep)[k]);
  }

  lemma DistinctComponents(kids: seq<Kid>, pg: nat, rep: seq<nat>, k: nat, l: nat)
    requires |rep| == |kids| && Labels(rep, RaceEdges(kids, pg))
    requires k < l < |Comps(rep)|
    ensures Comps(rep)[k] != [] && Comps(rep)[l] != []
    ensures Comps(rep)[k][0] < |kids| && Comps(rep)[l][0] < |kids|
    ensures !Connected(RaceEdges(kids, pg), Comps(rep)[k][0], Comps(rep)[l][0])
  {
    CompsFacts(rep);
    assert rep[Comps(rep)[k][0]] != rep[Comps(rep)[l][0]];
  }

  /** Everything that starts before component `k` lies in an earlier component, hence starts no later than `k - 1`. */
  lemma EarlierThan(kids: seq<Kid>, rep: seq<nat>, k: nat, j: nat)
    requires StartSorted(kids)
    requires |rep| == |kids| && Labels(rep, RaceEdges(kids, 0))
    requires 0 < k < |Comps(rep)| && j < |kids|
    ensures Comps(rep)[k - 1] != [] && Comps(rep)[k] != []
    ensures Comps(rep)[k - 1][0] < |kids| && Comps(rep)[k][0] < |kids|
    ensures CompStart(kids, 0, j) < CompStart(kids, 0, Comps(rep)[k][0]) ==>
              CompStart(kids, 0, j) <= CompStart(kids, 0, Comps(rep)[k - 1][0])
    ensures CompStart(kids, 0, Comps(rep)[k - 1][0]) <= CompStart(kids, 0, Comps(rep)[k][0])
  {
    hide CompStart, Labels, RaceEdges, StartSorted, Comps;
    LaterStarts(kids, 0, rep, k - 1, k);
    var l := OwnerOf(kids, 0, rep, j);
    if l < k { LaterStarts(kids, 0, rep, l, k - 1); } else { LaterStarts(kids, 0, rep, k, l); }
  }

  /** With a strictly later start, component `k` opens a group exactly at a reliable gap. */
  lemma OpensIffGap(kids: seq<Kid>, guard: nat, rep: seq<nat>, k: nat)
    requires StartSorted(kids) && TiesSafe(kids, guard)
    requires |rep| == |kids| && Labels(rep, RaceEdges(kids, 0))
    requires 0 < k < |Comps(rep)|
    requires Comps(rep)[k - 1] != [] && Comps(rep)[k] != []
    requires Comps(rep)[k - 1][0] < |kids| && Comps(rep)[k][0] < |kids|
    requires CompStart(kids, 0, Comps(rep)[k - 1][0]) < CompStart(kids, 0, Comps(rep)[k][0])
    ensures var p, h := Comps(rep)[k - 1][0], Comps(rep)[k][0];
            Opens(kids, guard, h) <==>
              CompTimed(kids, p) && CompTimed(kids, h) && CompEnd(kids, 0, p) + guard < CompStart(kids, 0, h)
  {
    hide CompStart, CompEnd, CompTimed;
    var p, h := Comps(rep)[k - 1][0], Comps(rep)[k][0];
    assert Precedes(kids, p, h) by {
      forall j | 0 <= j < |kids| && CompStart(kids, 0, j) < CompStart(kids, 0, h)
        ensures CompStart(kids, 0, j) <= CompStart(kids, 0, p)
      {
        EarlierThan(kids, rep, k, j);
      }
    }
    if Opens(kids, guard, h) {
      var j :| 0 <= j < |kids| && Precedes(kids, j, h) && CompTimed(kids, j)
            && CompEnd(kids, 0, j) + guard < CompStart(kids, 0, h);
      TimedStart(kids, j);
      if Connected(RaceEdges(kids, 0), j, p) {
        SameHull(kids, 0, j, p);
        SameTimed(kids, j, p);
      } else {
        TiedComponents(kids, guard, j, p);
      }
    }
  }

  /** Components that start together are in one group, and no boundary falls between them. */
  lemma TiedStep(kids: seq<Kid>, guard: nat, p: nat, h: nat)
    requires TiesSafe(kids, guard) && p < |kids| && h < |kids|
    requires CompStart(kids, 0, p) == CompStart(kids, 0, h) && !Connected(RaceEdges(kids, 0), p, h)
    ensures GapKey(kids, guard, p) == GapKey(kids, guard, h)
    ensures !(CompTimed(kids, p) && CompTimed(kids, h) && CompStart(kids, 0, h) > CompEnd(kids, 0, p) + guard)
  {
    hide CompStart, CompEnd, CompTimed, GapKey, TiesSafe, Connected, RaceEdges;
    EqualStartKey(kids, guard, p, h);
    if CompTimed(kids, p) {
      TimedStart(kids, p);
      TiedComponents(kids, guard, p, h);
    }
  }

  /** Of components that start one after the other, the later one opens a group exactly when the gap is reliable. */
  lemma LaterStep(kids: seq<Kid>, guard: nat, rep: seq<nat>, k: nat)
    requires StartSorted(kids) && TiesSafe(kids, guard)
    requires |rep| == |kids| && Labels(rep, RaceEdges(kids, 0))
    requires 0 < k < |Comps(rep)| && Comps(rep)[k - 1] != [] && Comps(rep)[k] != []
    requires Comps(rep)[k - 1][0] < |kids| && Comps(rep)[k][0] < |kids|
    requires CompStart(kids, 0, Comps(rep)[k - 1][0]) < CompStart(kids, 0, Comps(rep)[k][0])
    ensures var p, h := Comps(rep)[k - 1][0], Comps(rep)[k][0];
            && GapKey(kids, guard, p) <= GapKey(kids, guard, h)
            && (GapKey(kids, guard, p) < GapKey(kids, guard, h) <==>
                CompTimed(kids, p) && CompTimed(kids, h) && CompStart(kids, 0, h) > CompEnd(kids, 0, p) + guard)
  {
    hide CompStart, CompEnd, CompTimed, GapKey, Opens, Labels, RaceEdges, StartSorted, TiesSafe, Comps;
    var p, h := Comps(rep)[k - 1][0], Comps(rep)[k][0];
    OpensIffGap(kids, guard, rep, k);
    if Opens(kids, guard, h) {
      OpenerKey(kids, guard, h, p);
    } else {
      forall j | 0 <= j < |kids| && Opens(kids, guard, j) && CompStart(kids, 0, j) <= CompStart(kids, 0, h)
        ensures CompStart(kids, 0, j) <= CompStart(kids, 0, p)
      {
        OpenerIsEarlier(kids, guard, rep, k, j);
      }
      NoOpenerKey(kids, guard, h, p);
    }
  }

  lemma GapKeyStep(kids: seq<Kid>, guard: nat, rep: seq<nat>, sig: Signature, k: nat)
    requires StartSorted(kids) && TiesSafe(kids, guard)
    requires |rep| == |kids| && Labels(rep, RaceEdges(kids, 0))
    requires PositionLists(Comps(rep), |kids|)
    requires 0 < k < |Comps(rep)|
    ensures var p, h := Comps(rep)[k - 1][0], Comps(rep)[k][0];
            && p < |kids| && h < |kids|
            && GapKey(kids, guard, p) <= GapKey(kids, guard, h)
            && var units := UnitsOf(kids, Comps(rep), sig);
               (GapBoundary(guard)(units[k - 1], units[k]) <==> GapKey(kids, guard, p) < GapKey(kids, guard, h))
  {
    hide CompStart, CompEnd, CompTimed, GapKey, UnitOf, Labels, RaceEdges, TiesSafe, Connected;
    UnitStarts(kids, 0, rep, sig, k - 1);
    UnitStarts(kids, 0, rep, sig, k);
    UnitIsTimed(kids, rep, sig, k - 1);
    UnitIsTimed(kids, rep, sig, k);
    DistinctComponents(kids, 0, rep, k - 1, k);
    var p, h := Comps(rep)[k - 1][0], Comps(rep)[k][0];
    if CompStart(kids, 0, p) == CompStart(kids, 0, h) {
      TiedStep(kids, guard, p, h);
    } else {
      LaterStep(kids, guard, rep, k);
    }
  }

  lemma OpenerIsEarlier(kids: seq<Kid>, guard: nat, rep: seq<nat>, k: nat, j: nat)
    requires StartSorted(kids) && TiesSafe(kids, guard)
    requires |rep| == |kids| && Labels(rep, RaceEdges(kids, 0))
    requires 0 < k < |Comps(rep)| && j < |kids|
    requires Comps(rep)[k - 1] != [] && Comps(rep)[k] != []
    requires Comps(rep)[k - 1][0] < |kids| && Comps(rep)[k][0] < |kids|
    requires !Opens(kids, guard, Comps(rep)[k][0]) && Opens(kids, guard, j)
    requires CompStart(kids, 0, j) <= CompStart(kids, 0, Comps(rep)[k][0])
    ensures CompStart(kids, 0, j) <= CompStart(kids, 0, Comps(rep)[k - 1][0])
  {
    hide CompStart, CompEnd, CompTimed;
    var h := Comps(rep)[k][0];
    EarlierThan(kids, rep, k, j);
    if CompStart(kids, 0, j) == CompStart(kids, 0, h) {
      TimedStart(kids, j);
      EqualStartOpens(kids, guard, j, h);
    }
  }

  lemma EqualStartOpens(kids: seq<Kid>, guard: nat, j: nat, h: nat)
    requires TiesSafe(kids, guard) && j < |kids| && h < |kids|
    requires CompStart(kids, 0, j) == CompStart(kids, 0, h) > 0 && Opens(kids, guard, j)
    ensures Opens(kids, guard, h)
  {
    if Connected(RaceEdges(kids, 0), j, h) {
      SameGapKey(kids, guard, j, h);
    } else {
      TiedComponents(kids, guard, j, h);
      hide CompStart, CompEnd, CompTimed;
      var l :| 0 <= l < |kids| && Precedes(kids, l, j) && CompTimed(kids, l)
            && CompEnd(kids, 0, l) + guard < CompStart(kids, 0, j);
      assert Precedes(kids, l, h);
    }
  }

  // ---- groupPostHoc ----

  /** What `groupPostHoc` returns, up to loop collapse, on any input at all. */
  ghost predicate CutAtGaps(ordered: seq<Kid>, guard: nat, sig: Signature, groups: seq<ChildGroup>) {
    exists rep ::
      && |rep| == |ordered| && Labels(rep, RaceEdges(ordered, 0))
      && PositionLists(Comps(rep), |ordered|)
      && groups == Blocks(UnitsOf(ordered, Comps(rep), sig), GapBoundary(guard), sig, 0)
  }

  method OrderPostHoc(kids: seq<Kid>, guard: nat, sig: Signature) returns (groups: seq<ChildGroup>)
    requires Injective(sig)
    ensures CutAtGaps(StableSort(kids, ByStartThenId()), guard, sig, groups)
    ensures TiesSafe(kids, guard) ==> groups == Emit(kids, 0, GapKeys(kids, guard), sig)
  {
    var ordered := StableSort(kids, ByStartThenId());
    var rep := LabelComponents(ordered, 0);
    var comps := CollectComponents(rep);
    CompsFacts(rep);
    ComponentPositions(rep, comps);
    var units := BuildUnits(ordered, comps, sig);
    if |units| == 1 {
      var u := units[0];
      groups := [Group(|u.members| > 1, false, "", u.members)];
      SingleUnit(units, GapBoundary(guard), sig);
    } else {
      groups := CutRuns(units, GapBoundary(guard), sig);
    }
    if TiesSafe(kids, guard) { SafeIsKeyed(kids, guard, sig, groups); }
  }

  /** On safe ties the cut is the keyed grouping. */
  lemma SafeIsKeyed(kids: seq<Kid>, guard: nat, sig: Signature, groups: seq<ChildGroup>)
    requires Injective(sig) && TiesSafe(kids, guard) && CutAtGaps(StableSort(kids, ByStartThenId()), guard, sig, groups)
    ensures groups == Emit(kids, 0, GapKeys(kids, guard), sig)
  {
    hide Blocks, Emit, GapKeys, TiesSafe, UnitsOf;
    var ordered := StableSort(kids, ByStartThenId());
    var rep :| |rep| == |ordered| && Labels(rep, RaceEdges(ordered, 0))
            && PositionLists(Comps(rep), |ordered|)
            && groups == Blocks(UnitsOf(ordered, Comps(rep), sig), GapBoundary(guard), sig, 0);
    SortedByStart(kids);
    StillSafe(kids, ordered, guard);
    GapKeysFit(ordered, guard, rep, sig);
    BlocksAreEmit(ordered, 0, rep, GapKeys(ordered, guard), GapBoundary(guard), sig);
    SameMultisetAnonymous(ordered, kids);
    PostHocRunFree(ordered, kids, guard, sig);
  }

  lemma SortedByStart(kids: seq<Kid>)
    ensures StartSorted(StableSort(kids, ByStartThenId()))
  {
    ByStartThenIdWeak();
    StableSortSorted(kids, ByStartThenId());
  }

  lemma StillSafe(kids: seq<Kid>, ordered: seq<Kid>, guard: nat)
    requires TiesSafe(kids, guard) && multiset(kids) == multiset(ordered)
    ensures TiesSafe(ordered, guard)
  {
    var p := FindPermutation(ordered, kids);
    forall i, j | 0 <= i < j < |ordered| ensures TieSafe(ordered[i].span, ordered[j].span, guard) {
      assert p[i] < p[j] || p[j] < p[i];
      assert p[i] < p[j] ==> TieSafe(kids[p[i]].span, kids[p[j]].span, guard);
      assert p[j] < p[i] ==> TieSafe(kids[p[j]].span, kids[p[i]].span, guard);
    }
  }

  lemma SingleUnit(units: seq<Unit>, boundary: Boundary, sig: Signature)
    requires |units| == 1
    ensures Blocks(units, boundary, sig, 0) == [Group(|units[0].members| > 1, false, "", units[0].members)]
  {
    assert units[0..1] == units;
    assert Blocks(units, boundary, sig, 1) == [];
  }

  // ---- run independence ----

  lemma TimedTransfers(kids: seq<Kid>, kids': seq<Kid>, p: seq<nat>, i: nat)
    requires Matches(kids, kids', p) && i < |kids| && CompTimed(kids, i)
    ensures CompTimed(kids', p[i])
  {
    var q := InverseMatch(kids, kids', p);
    forall j | 0 <= j < |kids'| && Connected(RaceEdges(kids', 0), p[i], j)
      ensures kids'[j].span.start != 0 && kids'[j].span.end != 0
    {
      assert p[q[j]] == j;
      ConnectedTransfers(kids, kids', 0, p, i, q[j]);
      assert SameKid(kids[q[j]], kids'[j]);
    }
  }

  lemma PrecedesTransfers(kids: seq<Kid>, kids': seq<Kid>, p: seq<nat>, j: nat, i: nat)
    requires Matches(kids, kids', p) && i < |kids| && j < |kids| && Precedes(kids, j, i)
    ensures Precedes(kids', p[j], p[i])
  {
    hide CompStart, CompEnd;
    var q := InverseMatch(kids, kids', p);
    HullTransfers(kids, kids', 0, p, i);
    HullTransfers(kids, kids', 0, p, j);
    forall k | 0 <= k < |kids'| && CompStart(kids', 0, k) < CompStart(kids', 0, p[i])
      ensures CompStart(kids', 0, k) <= CompStart(kids', 0, p[j])
    {
      HullTransfers(kids, kids', 0, p, q[k]);
    }
  }

  lemma OpensTransfers(kids: seq<Kid>, kids': seq<Kid>, guard: nat, p: seq<nat>, i: nat)
    requires Matches(kids, kids', p) && i < |kids|
    requires Opens(kids, guard, i)
    ensures Opens(kids', guard, p[i])
  {
    hide CompStart, CompEnd, CompTimed, Precedes;
    HullTransfers(kids, kids', 0, p, i);
    TimedTransfers(kids, kids', p, i);
    var j :| 0 <= j < |kids| && Precedes(kids, j, i) && CompTimed(kids, j)
          && CompEnd(kids, 0, j) + guard < CompStart(kids, 0, i);
    HullTransfers(kids, kids', 0, p, j);
    TimedTransfers(kids, kids', p, j);
    PrecedesTransfers(kids, kids', p, j, i);
  }

  lemma OpeningsTransfer(kids: seq<Kid>, kids': seq<Kid>, guard: nat, p: seq<nat>, i: nat)
    requires Matches(kids, kids', p) && i < |kids|
    ensures Openings(kids, guard, i) <= Openings(kids', guard, p[i])
  {
    hide CompStart, CompEnd, Opens;
    HullTransfers(kids, kids', 0, p, i);
    forall x | x in Openings(kids, guard, i) ensures x in Openings(kids', guard, p[i]) {
      if x != 0 {
        var j :| 0 <= j < |kids| && Opens(kids, guard, j)
              && CompStart(kids, 0, j) <= CompStart(kids, 0, i) && x == CompStart(kids, 0, j);
        HullTransfers(kids, kids', 0, p, j);
        OpensTransfers(kids, kids', guard, p, j);
      }
    }
  }

  lemma GapKeyTransfers(kids: seq<Kid>, kids': seq<Kid>, guard: nat, p: seq<nat>, i: nat)
    requires Matches(kids, kids', p) && i < |kids|
    ensures GapKey(kids, guard, i) == GapKey(kids', guard, p[i])
  {
    hide Openings;
    var q := InverseMatch(kids, kids', p);
    OpeningsTransfer(kids, kids', guard, p, i);
    OpeningsTransfer(kids', kids, guard, q, p[i]);
  }

  /** The keyed groups are a function of the children as an anonymous collection. */
  lemma PostHocRunFree(kids: seq<Kid>, kids': seq<Kid>, guard: nat, sig: Signature)
    requires Injective(sig)
    requires multiset(Anonymous(kids)) == multiset(Anonymous(kids'))
    ensures Emit(kids, 0, GapKeys(kids, guard), sig) == Emit(kids', 0, GapKeys(kids', guard), sig)
  {
    hide GapKey;
    var p := FindMatch(kids, kids');
    forall i | 0 <= i < |kids| ensures GapKeys(kids, guard)[i] == GapKeys(kids', guard)[p[i]] {
      GapKeyTransfers(kids, kids', guard, p, i);
    }
    EmitTransfers(kids, kids', 0, GapKeys(kids, guard), GapKeys(kids', guard), sig, p);
  }
}
