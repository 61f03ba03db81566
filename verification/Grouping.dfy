/**
 * The two sibling-ordering profiles, in process and post hoc: which key each child gets, that the
 * code's traversal realizes those keys, and that nothing but the children themselves decides them.
 */
module Grouping {
  import opened Ir
  import opened Sorting
  import opened UnionFind
  import opened Siblings
  import opened Runs
  import C = Capture

  // ---- the hull of a component ----

  ghost function CompStarts(kids: seq<Kid>, pg: nat, i: nat): (s: set<nat>)
    requires i < |kids|
    ensures kids[i].span.start in s
  {
    ConnectedRefl(RaceEdges(kids, pg), i);
    set j | 0 <= j < |kids| && Connected(RaceEdges(kids, pg), i, j) :: kids[j].span.start
  }

  ghost function CompEnds(kids: seq<Kid>, pg: nat, i: nat): (s: set<nat>)
    requires i < |kids|
    ensures kids[i].span.end in s
  {
    ConnectedRefl(RaceEdges(kids, pg), i);
    set j | 0 <= j < |kids| && Connected(RaceEdges(kids, pg), i, j) :: kids[j].span.end
  }

  /** The earliest start among everything that ran concurrently, directly or through others. */
  ghost function CompStart(kids: seq<Kid>, pg: nat, i: nat): nat
    requires i < |kids|
  {
    Least(CompStarts(kids, pg, i))
  }

  ghost function CompEnd(kids: seq<Kid>, pg: nat, i: nat): nat
    requires i < |kids|
  {
    Greatest(CompEnds(kids, pg, i))
  }

  lemma HullWitness(kids: seq<Kid>, pg: nat, i: nat) returns (first: nat, last: nat)
    requires i < |kids|
    ensures first < |kids| && Connected(RaceEdges(kids, pg), i, first)
    ensures kids[first].span.start == CompStart(kids, pg, i)
    ensures last < |kids| && Connected(RaceEdges(kids, pg), i, last)
    ensures kids[last].span.end == CompEnd(kids, pg, i)
  {
    assert CompStart(kids, pg, i) in CompStarts(kids, pg, i);
    assert CompEnd(kids, pg, i) in CompEnds(kids, pg, i);
    first :| first < |kids| && Connected(RaceEdges(kids, pg), i, first)
          && kids[first].span.start == CompStart(kids, pg, i);
    last :| last < |kids| && Connected(RaceEdges(kids, pg), i, last)
         && kids[last].span.end == CompEnd(kids, pg, i);
  }

  lemma SameHull(kids: seq<Kid>, pg: nat, i: nat, j: nat)
    requires i < |kids| && j < |kids| && Connected(RaceEdges(kids, pg), i, j)
    ensures CompStart(kids, pg, i) == CompStart(kids, pg, j)
    ensures CompEnd(kids, pg, i) == CompEnd(kids, pg, j)
  {
    var edges := RaceEdges(kids, pg);
    ConnectedSymm(edges, i, j);
    forall x | 0 <= x < |kids| ensures Connected(edges, i, x) <==> Connected(edges, j, x) {
      if Connected(edges, i, x) { ConnectedTrans(edges, j, i, x); }
      if Connected(edges, j, x) { ConnectedTrans(edges, i, j, x); }
    }
    assert CompStarts(kids, pg, i) == CompStarts(kids, pg, j);
    assert CompEnds(kids, pg, i) == CompEnds(kids, pg, j);
  }

  /** What the unit loop accumulates is the hull of the component. */
  lemma UnitHull(kids: seq<Kid>, pg: nat, rep: seq<nat>, idxs: seq<nat>)
    requires |rep| == |kids| && Labels(rep, RaceEdges(kids, pg))
    requires idxs != [] && Positions(idxs, |kids|)
    requires forall x: nat :: x in idxs <==> x < |rep| && rep[x] == rep[idxs[0]]
    ensures MinStart(kids, idxs) == CompStart(kids, pg, idxs[0])
    ensures MaxEnd(kids, idxs) == CompEnd(kids, pg, idxs[0])
    ensures AllTimed(kids, idxs) <==> forall j :: 0 <= j < |kids| && Connected(RaceEdges(kids, pg), idxs[0], j) ==>
                                                kids[j].span.start != 0 && kids[j].span.end != 0
  {
    HullFacts(kids, idxs);
    var starts, ends := CompStarts(kids, pg, idxs[0]), CompEnds(kids, pg, idxs[0]);
    var a :| 0 <= a < |idxs| && MinStart(kids, idxs) == kids[idxs[a]].span.start;
    var b :| 0 <= b < |idxs| && MaxEnd(kids, idxs) == kids[idxs[b]].span.end;
    assert idxs[a] in idxs && idxs[b] in idxs;
    assert MinStart(kids, idxs) in starts && MaxEnd(kids, idxs) in ends;
    forall j: nat | j < |kids| && Connected(RaceEdges(kids, pg), idxs[0], j) ensures j in idxs {
      assert rep[idxs[0]] == rep[j];
    }
    forall j: nat | j in idxs ensures j < |kids| && Connected(RaceEdges(kids, pg), idxs[0], j) {
      assert rep[idxs[0]] == rep[j];
    }
    forall x | x in starts ensures MinStart(kids, idxs) <= x {
      var j: nat :| j < |kids| && Connected(RaceEdges(kids, pg), idxs[0], j) && kids[j].span.start == x;
      assert j in idxs;
    }
    forall x | x in ends ensures x <= MaxEnd(kids, idxs) {
      var j: nat :| j < |kids| && Connected(RaceEdges(kids, pg), idxs[0], j) && kids[j].span.end == x;
      assert j in idxs;
    }
    if AllTimed(kids, idxs) {
      forall j: nat | j < |kids| && Connected(RaceEdges(kids, pg), idxs[0], j)
        ensures kids[j].span.start != 0 && kids[j].span.end != 0
      {
        assert j in idxs;
      }
    } else {
      var c :| 0 <= c < |idxs| && !(kids[idxs[c]].span.start != 0 && kids[idxs[c]].span.end != 0);
      assert idxs[c] in idxs;
    }
  }

  /** Sorted input: a component starts where its first position starts. */
  lemma FirstStarts(kids: seq<Kid>, pg: nat, rep: seq<nat>, k: nat)
    requires StartSorted(kids)
    requires |rep| == |kids| && Labels(rep, RaceEdges(kids, pg))
    requires k < |Comps(rep)|
    ensures Comps(rep)[k] != [] && Comps(rep)[k][0] < |kids|
    ensures CompStart(kids, pg, Comps(rep)[k][0]) == kids[Comps(rep)[k][0]].span.start
  {
    CompsFacts(rep);
    var idxs := Comps(rep)[k];
    forall x | x in CompStarts(kids, pg, idxs[0]) ensures kids[idxs[0]].span.start <= x {
      var j: nat :| j < |kids| && Connected(RaceEdges(kids, pg), idxs[0], j) && kids[j].span.start == x;
      assert rep[idxs[0]] == rep[j];
      assert j in idxs;
      var p :| 0 <= p < |idxs| && idxs[p] == j;
      assert idxs[0] <= j;
    }
  }

  // ---- in process ----

  /** A strictly later start, both clocks known, is a reliable happens-before. */
  function StartBoundary(): Boundary {
    (prev: Unit, cur: Unit) => prev.start != 0 && cur.start != 0 && cur.start > prev.start
  }

  ghost function TimedStarts(kids: seq<Kid>, pg: nat): set<nat> {
    set i | 0 <= i < |kids| && CompStart(kids, pg, i) != 0 :: CompStart(kids, pg, i)
  }

  /** The earliest known component start; components without a clock join its group. */
  ghost function FirstTimed(kids: seq<Kid>, pg: nat): nat {
    if TimedStarts(kids, pg) == {} then 0 else Least(TimedStarts(kids, pg))
  }

  ghost function StartKey(kids: seq<Kid>, pg: nat, i: nat): nat
    requires i < |kids|
  {
    if CompStart(kids, pg, i) == 0 then FirstTimed(kids, pg) else CompStart(kids, pg, i)
  }

  ghost function StartKeys(kids: seq<Kid>, pg: nat): (keys: seq<nat>)
    ensures |keys| == |kids|
    ensures forall i :: 0 <= i < |kids| ==> keys[i] == StartKey(kids, pg, i)
  {
    seq(|kids|, i requires 0 <= i < |kids| => StartKey(kids, pg, i))
  }

  lemma FirstTimedFacts(kids: seq<Kid>, pg: nat)
    ensures forall i :: 0 <= i < |kids| && CompStart(kids, pg, i) != 0 ==>
              0 < FirstTimed(kids, pg) <= CompStart(kids, pg, i)
    ensures FirstTimed(kids, pg) != 0 ==>
              exists i :: 0 <= i < |kids| && CompStart(kids, pg, i) == FirstTimed(kids, pg)
  {
    forall i | 0 <= i < |kids| && CompStart(kids, pg, i) != 0
      ensures 0 < FirstTimed(kids, pg) <= CompStart(kids, pg, i)
    {
      assert CompStart(kids, pg, i) in TimedStarts(kids, pg);
    }
  }

  /** Units in start order: their starts are the component starts, and they never decrease. */
  lemma UnitStarts(kids: seq<Kid>, pg: nat, rep: seq<nat>, sig: Signature, k: nat)
    requires StartSorted(kids)
    requires |rep| == |kids| && Labels(rep, RaceEdges(kids, pg))
    requires PositionLists(Comps(rep), |kids|) && k < |Comps(rep)|
    ensures var h := Comps(rep)[k][0];
            && h < |kids|
            && UnitsOf(kids, Comps(rep), sig)[k].start == CompStart(kids, pg, h) == kids[h].span.start
            && UnitsOf(kids, Comps(rep), sig)[k].end == CompEnd(kids, pg, h)
            && (k + 1 < |Comps(rep)| ==> h < Comps(rep)[k + 1][0] < |kids|
                                         && kids[h].span.start <= kids[Comps(rep)[k + 1][0]].span.start)
  {
    CompsFacts(rep);
    FirstStarts(kids, pg, rep, k);
    UnitHull(kids, pg, rep, Comps(rep)[k]);
  }

  lemma ConstantOnComponents(kids: seq<Kid>, pg: nat, rep: seq<nat>, k: nat, x: nat)
    requires |rep| == |kids| && Labels(rep, RaceEdges(kids, pg))
    requires k < |Comps(rep)| && x in Comps(rep)[k] && x < |kids|
    ensures Comps(rep)[k] != [] && Comps(rep)[k][0] < |kids|
    ensures Connected(RaceEdges(kids, pg), x, Comps(rep)[k][0])
    ensures CompStart(kids, pg, x) == CompStart(kids, pg, Comps(rep)[k][0])
  {
    CompsFacts(rep);
    assert rep[x] == rep[Comps(rep)[k][0]];
    SameHull(kids, pg, x, Comps(rep)[k][0]);
  }

  lemma StartKeysFit(kids: seq<Kid>, pg: nat, rep: seq<nat>, sig: Signature)
    requires StartSorted(kids)
    requires |rep| == |kids| && Labels(rep, RaceEdges(kids, pg))
    requires PositionLists(Comps(rep), |kids|)
    ensures KeysFit(Comps(rep), StartKeys(kids, pg), UnitsOf(kids, Comps(rep), sig), StartBoundary())
  {
    hide StartKey, UnitOf, StartBoundary;
    var comps, keys := Comps(rep), StartKeys(kids, pg);
    forall k, x: nat | 0 <= k < |comps| && x in comps[k] && x < |keys| ensures keys[x] == keys[comps[k][0]] {
      SameStartKey(kids, pg, rep, k, x);
    }
    forall k | 0 < k < |comps|
      ensures keys[comps[k - 1][0]] <= keys[comps[k][0]]
      ensures StartBoundary()(UnitsOf(kids, comps, sig)[k - 1], UnitsOf(kids, comps, sig)[k])
         <==> keys[comps[k - 1][0]] < keys[comps[k][0]]
    {
      StartKeyStep(kids, pg, rep, sig, k);
    }
  }

  lemma SameStartKey(kids: seq<Kid>, pg: nat, rep: seq<nat>, k: nat, x: nat)
    requires |rep| == |kids| && Labels(rep, RaceEdges(kids, pg))
    requires k < |Comps(rep)| && x in Comps(rep)[k] && x < |kids|
    ensures Comps(rep)[k] != [] && Comps(rep)[k][0] < |kids|
    ensures StartKey(kids, pg, x) == StartKey(kids, pg, Comps(rep)[k][0])
  {
    hide CompStart;
    ConstantOnComponents(kids, pg, rep, k, x);
  }

  lemma StartKeyStep(kids: seq<Kid>, pg: nat, rep: seq<nat>, sig: Signature, k: nat)
    requires StartSorted(kids)
    requires |rep| == |kids| && Labels(rep, RaceEdges(kids, pg))
    requires PositionLists(Comps(rep), |kids|)
    requires 0 < k < |Comps(rep)|
    ensures var p, h := Comps(rep)[k - 1][0], Comps(rep)[k][0];
            && p < |kids| && h < |kids|
            && StartKey(kids, pg, p) <= StartKey(kids, pg, h)
            && var units := UnitsOf(kids, Comps(rep), sig);
               (StartBoundary()(units[k - 1], units[k]) <==> StartKey(kids, pg, p) < StartKey(kids, pg, h))
  {
    hide CompStart, FirstTimed, UnitOf;
    UnitStarts(kids, pg, rep, sig, k - 1);
    UnitStarts(kids, pg, rep, sig, k);
    var p, h := Comps(rep)[k - 1][0], Comps(rep)[k][0];
    var units := UnitsOf(kids, Comps(rep), sig);
    if CompStart(kids, pg, p) == 0 && CompStart(kids, pg, h) != 0 {
      FirstTimedIsNext(kids, pg, rep, k);
    }
    BoundaryReads(units[k - 1], units[k]);
  }

  lemma BoundaryReads(prev: Unit, cur: Unit)
    ensures StartBoundary()(prev, cur) <==> 0 < prev.start < cur.start
  {
  }

  lemma OwnerOf(kids: seq<Kid>, pg: nat, rep: seq<nat>, i: nat) returns (l: nat)
    requires |rep| == |kids| && Labels(rep, RaceEdges(kids, pg)) && i < |kids|
    ensures l < |Comps(rep)| && Comps(rep)[l] != [] && i in Comps(rep)[l] && Comps(rep)[l][0] < |kids|
    ensures Connected(RaceEdges(kids, pg), i, Comps(rep)[l][0])
    ensures CompStart(kids, pg, i) == CompStart(kids, pg, Comps(rep)[l][0])
  {
    CompsFacts(rep);
    assert InSome(Comps(rep), i);
    l :| 0 <= l < |Comps(rep)| && i in Comps(rep)[l];
    ConstantOnComponents(kids, pg, rep, l, i);
  }

  lemma LaterStarts(kids: seq<Kid>, pg: nat, rep: seq<nat>, k: nat, l: nat)
    requires StartSorted(kids)
    requires |rep| == |kids| && Labels(rep, RaceEdges(kids, pg))
    requires k <= l < |Comps(rep)|
    ensures Comps(rep)[k] != [] && Comps(rep)[l] != []
    ensures Comps(rep)[k][0] < |kids| && Comps(rep)[l][0] < |kids|
    ensures CompStart(kids, pg, Comps(rep)[k][0]) <= CompStart(kids, pg, Comps(rep)[l][0])
  {
    CompsFacts(rep);
    FirstStarts(kids, pg, rep, k);
    FirstStarts(kids, pg, rep, l);
    assert k == l || Comps(rep)[k][0] < Comps(rep)[l][0];
  }

  /** The first component with a clock, after some without, is the one `FirstTimed` names. */
  lemma FirstTimedIsNext(kids: seq<Kid>, pg: nat, rep: seq<nat>, k: nat)
    requires StartSorted(kids)
    requires |rep| == |kids| && Labels(rep, RaceEdges(kids, pg))
    requires 0 < k < |Comps(rep)| && PositionLists(Comps(rep), |kids|)
    requires CompStart(kids, pg, Comps(rep)[k - 1][0]) == 0 && CompStart(kids, pg, Comps(rep)[k][0]) != 0
    ensures FirstTimed(kids, pg) == CompStart(kids, pg, Comps(rep)[k][0])
  {
    FirstTimedFacts(kids, pg);
    var i :| 0 <= i < |kids| && CompStart(kids, pg, i) == FirstTimed(kids, pg);
    var l := OwnerOf(kids, pg, rep, i);
    if l < k { LaterStarts(kids, pg, rep, l, k - 1); } else { LaterStarts(kids, pg, rep, k, l); }
  }

  /** `group` after its children are built, up to loop collapse. */
  method OrderInProcess(kids: seq<Kid>, pg: nat, sig: Signature) returns (groups: seq<ChildGroup>)
    requires Injective(sig)
    ensures groups == Emit(kids, pg, StartKeys(kids, pg), sig)
  {
    ByStartThenSigWeak(sig);
    var ordered := SortSlice(kids, ByStartThenSig(sig));
    assert StartSorted(ordered);
    var rep := LabelComponents(ordered, pg);
    var comps := CollectComponents(rep);
    CompsFacts(rep);
    ComponentPositions(rep, comps);
    var units := BuildUnits(ordered, comps, sig);
    groups := CutRuns(units, StartBoundary(), sig);
    StartKeysFit(ordered, pg, rep, sig);
    BlocksAreEmit(ordered, pg, rep, StartKeys(ordered, pg), StartBoundary(), sig);
    SameMultisetAnonymous(ordered, kids);
    InProcessRunFree(ordered, kids, pg, sig);
  }

  // ---- order and id freedom ----

  /** Two children that differ in nothing but identity. */
  predicate SameKid(a: Kid, b: Kid) {
    && a.tree == b.tree
    && a.span.start == b.span.start && a.span.end == b.span.end && a.span.goroutine == b.span.goroutine
  }

  /** `p` sends every child to its counterpart in another run. */
  ghost predicate Matches(kids: seq<Kid>, kids': seq<Kid>, p: seq<nat>) {
    && |kids| == |kids'| && Permutation(p, |kids|)
    && forall i :: 0 <= i < |kids| ==> SameKid(kids[i], kids'[p[i]])
  }

  lemma InverseMatch(kids: seq<Kid>, kids': seq<Kid>, p: seq<nat>) returns (q: seq<nat>)
    requires Matches(kids, kids', p)
    ensures Matches(kids', kids, q)
    ensures forall i :: 0 <= i < |kids| ==> q[p[i]] == i
    ensures forall i :: 0 <= i < |kids| ==> p[q[i]] == i
  {
    PermutationOnto(p, |kids|);
    q := FindPermutation(Range(|kids|), p);
    forall i | 0 <= i < |kids| ensures p[q[i]] == i {
      assert Range(|kids|)[i] == p[q[i]];
    }
    forall i | 0 <= i < |kids| ensures q[p[i]] == i {
      assert p[q[p[i]]] == p[i];
    }
  }

  lemma {:induction false} PathTransfers(kids: seq<Kid>, kids': seq<Kid>, pg: nat, p: seq<nat>, path: seq<nat>)
    requires Matches(kids, kids', p)
    requires IsPath(RaceEdges(kids, pg), path) && path[0] < |kids|
    ensures path[|path| - 1] < |kids|
    ensures Connected(RaceEdges(kids', pg), p[path[0]], p[path[|path| - 1]])
  {
    var edges' := RaceEdges(kids', pg);
    if |path| == 1 {
      ConnectedRefl(edges', p[path[0]]);
    } else {
      AdjacentIffRace(kids, pg, path[0], path[1]);
      AdjacentIffRace(kids', pg, p[path[0]], p[path[1]]);
      assert SameKid(kids[path[0]], kids'[p[path[0]]]) && SameKid(kids[path[1]], kids'[p[path[1]]]);
      assert p[path[0]] != p[path[1]];
      ConnectedStep(edges', p[path[0]], p[path[1]]);
      PathTransfers(kids, kids', pg, p, path[1..]);
      ConnectedTrans(edges', p[path[0]], p[path[1]], p[path[|path| - 1]]);
    }
  }

  lemma ConnectedTransfers(kids: seq<Kid>, kids': seq<Kid>, pg: nat, p: seq<nat>, i: nat, j: nat)
    requires Matches(kids, kids', p) && i < |kids| && j < |kids|
    ensures Connected(RaceEdges(kids, pg), i, j) <==> Connected(RaceEdges(kids', pg), p[i], p[j])
  {
    if Connected(RaceEdges(kids, pg), i, j) {
      var path :| PathFromTo(RaceEdges(kids, pg), path, i, j);
      PathTransfers(kids, kids', pg, p, path);
    }
    if Connected(RaceEdges(kids', pg), p[i], p[j]) {
      var q := InverseMatch(kids, kids', p);
      var path :| PathFromTo(RaceEdges(kids', pg), path, p[i], p[j]);
      PathTransfers(kids', kids, pg, q, path);
    }
  }

  lemma HullTransfers(kids: seq<Kid>, kids': seq<Kid>, pg: nat, p: seq<nat>, i: nat)
    requires Matches(kids, kids', p) && i < |kids|
    ensures CompStart(kids, pg, i) == CompStart(kids', pg, p[i])
    ensures CompEnd(kids, pg, i) == CompEnd(kids', pg, p[i])
  {
    var q := InverseMatch(kids, kids', p);
    forall j | 0 <= j < |kids|
      ensures Connected(RaceEdges(kids, pg), i, j) <==> Connected(RaceEdges(kids', pg), p[i], p[j])
      ensures SameKid(kids[j], kids'[p[j]])
    {
      ConnectedTransfers(kids, kids', pg, p, i, j);
    }
    forall j | 0 <= j < |kids| ensures q[j] < |kids| && p[q[j]] == j {}
    assert CompStarts(kids, pg, i) == CompStarts(kids', pg, p[i]);
    assert CompEnds(kids, pg, i) == CompEnds(kids', pg, p[i]);
  }

  lemma {:induction false} TreesAtCount(entries: seq<Entry>, v: nat, t: CanonicalSpan)
    ensures multiset(TreesAt(entries, v))[t] == multiset(entries)[Entry(v, t)]
  {
    if entries != [] {
      var n := |entries| - 1;
      TreesAtCount(entries[..n], v, t);
      assert entries == entries[..n] + [entries[n]];
    }
  }

  lemma GroupTransfers(kids: seq<Kid>, kids': seq<Kid>, pg: nat, keys: seq<nat>, keys': seq<nat>,
                       sig: Signature, p: seq<nat>, v: nat)
    requires Injective(sig)
    requires Matches(kids, kids', p) && |keys| == |kids| && |keys'| == |kids'|
    requires forall i :: 0 <= i < |kids| ==> keys[i] == keys'[p[i]]
    ensures GroupAt(kids, pg, keys, sig, v) == GroupAt(kids', pg, keys', sig, v)
  {
    var trees, trees' := TreesAt(EntriesOf(kids, keys), v), TreesAt(EntriesOf(kids', keys'), v);
    assert StableSort(trees, BySig(sig)) == StableSort(trees', BySig(sig)) by {
      TreesTransfer(kids, kids', keys, keys', p, v);
      BySigWeak(sig);
      BySigConnex(sig);
      StableSortCanonical(trees, trees', BySig(sig));
    }
    if OneComponent(keys', RaceEdges(kids', pg), v) {
      OneComponentTransfers(kids, kids', pg, keys, keys', p, v);
    }
    if OneComponent(keys, RaceEdges(kids, pg), v) {
      var q := InverseMatch(kids, kids', p);
      forall i | 0 <= i < |kids| ensures keys'[i] == keys[q[i]] { assert p[q[i]] == i; }
      OneComponentTransfers(kids', kids, pg, keys', keys, q, v);
    }
  }

  lemma TreesTransfer(kids: seq<Kid>, kids': seq<Kid>, keys: seq<nat>, keys': seq<nat>, p: seq<nat>, v: nat)
    requires Matches(kids, kids', p) && |keys| == |kids| && |keys'| == |kids'|
    requires forall i :: 0 <= i < |kids| ==> keys[i] == keys'[p[i]]
    ensures multiset(TreesAt(EntriesOf(kids, keys), v)) == multiset(TreesAt(EntriesOf(kids', keys'), v))
  {
    var e, e' := EntriesOf(kids, keys), EntriesOf(kids', keys');
    assert multiset(e) == multiset(e') by {
      forall i | 0 <= i < |e| ensures e[i] == e'[p[i]] { assert SameKid(kids[i], kids'[p[i]]); }
      PermutationMultiset(e, e', p);
    }
    forall t ensures multiset(TreesAt(e, v))[t] == multiset(TreesAt(e', v))[t] {
      TreesAtCount(e, v, t);
      TreesAtCount(e', v, t);
    }
  }

  lemma OneComponentTransfers(kids: seq<Kid>, kids': seq<Kid>, pg: nat, keys: seq<nat>, keys': seq<nat>,
                              p: seq<nat>, v: nat)
    requires Matches(kids, kids', p) && |keys| == |kids| && |keys'| == |kids'|
    requires forall i :: 0 <= i < |kids| ==> keys[i] == keys'[p[i]]
    requires OneComponent(keys', RaceEdges(kids', pg), v)
    ensures OneComponent(keys, RaceEdges(kids, pg), v)
  {
    forall a, b | 0 <= a < |keys| && 0 <= b < |keys| && keys[a] == keys[b] == v
      ensures Connected(RaceEdges(kids, pg), a, b)
    {
      assert keys'[p[a]] == keys'[p[b]] == v;
      ConnectedTransfers(kids, kids', pg, p, a, b);
    }
  }

  lemma {:induction false} GroupsTransfer(kids: seq<Kid>, kids': seq<Kid>, pg: nat, keys: seq<nat>, keys': seq<nat>,
                                          sig: Signature, p: seq<nat>, vs: seq<nat>)
    requires Injective(sig)
    requires Matches(kids, kids', p) && |keys| == |kids| && |keys'| == |kids'|
    requires forall i :: 0 <= i < |kids| ==> keys[i] == keys'[p[i]]
    ensures GroupsAt(kids, pg, keys, sig, vs) == GroupsAt(kids', pg, keys', sig, vs)
  {
    if vs != [] {
      GroupTransfers(kids, kids', pg, keys, keys', sig, p, vs[0]);
      GroupsTransfer(kids, kids', pg, keys, keys', sig, p, vs[1..]);
    }
  }

  /** Groups follow the children, not their positions or names. */
  lemma EmitTransfers(kids: seq<Kid>, kids': seq<Kid>, pg: nat, keys: seq<nat>, keys': seq<nat>,
                      sig: Signature, p: seq<nat>)
    requires Injective(sig)
    requires Matches(kids, kids', p) && |keys| == |kids| && |keys'| == |kids'|
    requires forall i :: 0 <= i < |kids| ==> keys[i] == keys'[p[i]]
    ensures Emit(kids, pg, keys, sig) == Emit(kids', pg, keys', sig)
  {
    PermutationOnto(p, |kids|);
    forall v ensures v in ToSet(keys) <==> v in ToSet(keys') {
      if v in ToSet(keys) {
        var i :| 0 <= i < |keys| && keys[i] == v;
        assert keys'[p[i]] == v;
      }
      if v in ToSet(keys') {
        var j :| 0 <= j < |keys'| && keys'[j] == v;
        assert j in p;
        var i :| 0 <= i < |p| && p[i] == j;
        assert keys[i] == v;
      }
    }
    assert ToSet(keys) == ToSet(keys');
    GroupsTransfer(kids, kids', pg, keys, keys', sig, p, Ascending(ToSet(keys)));
  }

  lemma TimedStartsTransfer(kids: seq<Kid>, kids': seq<Kid>, pg: nat, p: seq<nat>)
    requires Matches(kids, kids', p)
    ensures TimedStarts(kids, pg) <= TimedStarts(kids', pg)
  {
    forall x | x in TimedStarts(kids, pg) ensures x in TimedStarts(kids', pg) {
      var i :| 0 <= i < |kids| && CompStart(kids, pg, i) != 0 && CompStart(kids, pg, i) == x;
      HullTransfers(kids, kids', pg, p, i);
    }
  }

  lemma FirstTimedTransfers(kids: seq<Kid>, kids': seq<Kid>, pg: nat, p: seq<nat>)
    requires Matches(kids, kids', p)
    ensures FirstTimed(kids, pg) == FirstTimed(kids', pg)
  {
    var q := InverseMatch(kids, kids', p);
    TimedStartsTransfer(kids, kids', pg, p);
    TimedStartsTransfer(kids', kids, pg, q);
  }

  /** Identity and position aside: what one run shares with another. */
  datatype Anon = Anon(start: nat, end: nat, goroutine: nat, tree: CanonicalSpan)

  function AnonOf(k: Kid): Anon {
    Anon(k.span.start, k.span.end, k.span.goroutine, k.tree)
  }

  function Anonymous(kids: seq<Kid>): (r: seq<Anon>)
    ensures |r| == |kids|
    ensures forall i :: 0 <= i < |kids| ==> r[i] == AnonOf(kids[i])
  {
    seq(|kids|, i requires 0 <= i < |kids| => AnonOf(kids[i]))
  }

  lemma FindMatch(kids: seq<Kid>, kids': seq<Kid>) returns (p: seq<nat>)
    requires multiset(Anonymous(kids)) == multiset(Anonymous(kids'))
    ensures Matches(kids, kids', p)
  {
    p := FindPermutation(Anonymous(kids), Anonymous(kids'));
    forall i | 0 <= i < |kids| ensures SameKid(kids[i], kids'[p[i]]) {
      assert Anonymous(kids)[i] == Anonymous(kids')[p[i]];
    }
  }

  lemma SameMultisetAnonymous(kids: seq<Kid>, kids': seq<Kid>)
    requires multiset(kids) == multiset(kids')
    ensures multiset(Anonymous(kids)) == multiset(Anonymous(kids'))
  {
    MapMultiset(AnonOf, kids, kids');
    assert Map(AnonOf, kids) == Anonymous(kids) && Map(AnonOf, kids') == Anonymous(kids');
  }

  /** In process, the groups are a function of the children as an anonymous collection. */
  lemma InProcessRunFree(kids: seq<Kid>, kids': seq<Kid>, pg: nat, sig: Signature)
    requires Injective(sig)
    requires multiset(Anonymous(kids)) == multiset(Anonymous(kids'))
    ensures Emit(kids, pg, StartKeys(kids, pg), sig) == Emit(kids', pg, StartKeys(kids', pg), sig)
  {
    var p := FindMatch(kids, kids');
    FirstTimedTransfers(kids, kids', pg, p);
    forall i | 0 <= i < |kids| ensures StartKeys(kids, pg)[i] == StartKeys(kids', pg)[p[i]] {
      HullTransfers(kids, kids', pg, p, i);
    }
    EmitTransfers(kids, kids', pg, StartKeys(kids, pg), StartKeys(kids', pg), sig, p);
  }
}
