/**
 * From overlap components to child groups: each component becomes a unit, and the start-ordered
 * units are cut into runs at every reliable boundary. `Emit` says the same without any order of
 * traversal: one group per key value, in ascending key order.
 */
module Runs {
  import opened Ir
  import opened Sorting
  import opened UnionFind
  import opened Siblings
  import C = Capture

  datatype Unit = Unit(members: seq<CanonicalSpan>, start: nat, end: nat, timed: bool)

  type Boundary = (Unit, Unit) -> bool

  ghost predicate Positions(idxs: seq<nat>, n: nat) {
    forall i :: 0 <= i < |idxs| ==> idxs[i] < n
  }

  function TreesOf(kids: seq<Kid>, idxs: seq<nat>): (r: seq<CanonicalSpan>)
    requires Positions(idxs, |kids|)
    ensures |r| == |idxs|
    ensures forall i :: 0 <= i < |idxs| ==> r[i] == kids[idxs[i]].tree
  {
    seq(|idxs|, i requires 0 <= i < |idxs| => kids[idxs[i]].tree)
  }

  function MinStart(kids: seq<Kid>, idxs: seq<nat>): nat
    requires idxs != [] && Positions(idxs, |kids|)
  {
    var last := kids[idxs[|idxs| - 1]].span.start;
    if |idxs| == 1 then last
    else
      var m := MinStart(kids, idxs[..|idxs| - 1]);
      if last < m then last else m
  }

  function MaxEnd(kids: seq<Kid>, idxs: seq<nat>): nat
    requires idxs != [] && Positions(idxs, |kids|)
  {
    var last := kids[idxs[|idxs| - 1]].span.end;
    if |idxs| == 1 then last
    else
      var m := MaxEnd(kids, idxs[..|idxs| - 1]);
      if last > m then last else m
  }

  lemma {:induction false} HullFacts(kids: seq<Kid>, idxs: seq<nat>)
    requires idxs != [] && Positions(idxs, |kids|)
    ensures forall i :: 0 <= i < |idxs| ==>
              MinStart(kids, idxs) <= kids[idxs[i]].span.start && kids[idxs[i]].span.end <= MaxEnd(kids, idxs)
    ensures exists i :: 0 <= i < |idxs| && MinStart(kids, idxs) == kids[idxs[i]].span.start
    ensures exists i :: 0 <= i < |idxs| && MaxEnd(kids, idxs) == kids[idxs[i]].span.end
  {
    var n := |idxs| - 1;
    assert idxs[n] < |kids|;
    if n > 0 {
      HullFacts(kids, idxs[..n]);
      var i :| 0 <= i < n && MinStart(kids, idxs[..n]) == kids[idxs[..n][i]].span.start;
      var j :| 0 <= j < n && MaxEnd(kids, idxs[..n]) == kids[idxs[..n][j]].span.end;
      assert idxs[i] == idxs[..n][i] && idxs[j] == idxs[..n][j];
      assert forall k :: 0 <= k < n ==> idxs[k] == idxs[..n][k];
    }
  }

  predicate AllTimed(kids: seq<Kid>, idxs: seq<nat>)
    requires Positions(idxs, |kids|)
  {
    forall i :: 0 <= i < |idxs| ==> kids[idxs[i]].span.start != 0 && kids[idxs[i]].span.end != 0
  }

  /** `bySig`, applied only where there is something to order. */
  function InSigOrder(members: seq<CanonicalSpan>, sig: Signature): (r: seq<CanonicalSpan>)
    ensures multiset(r) == multiset(members) && |r| == |members|
  {
    if |members| > 1 then StableSort(members, BySig(sig)) else members
  }

  function UnitOf(kids: seq<Kid>, idxs: seq<nat>, sig: Signature): Unit
    requires idxs != [] && Positions(idxs, |kids|)
  {
    Unit(InSigOrder(TreesOf(kids, idxs), sig), MinStart(kids, idxs), MaxEnd(kids, idxs), AllTimed(kids, idxs))
  }

  ghost predicate PositionLists(comps: seq<seq<nat>>, n: nat) {
    forall k :: 0 <= k < |comps| ==> comps[k] != [] && Positions(comps[k], n)
  }

  function UnitsOf(kids: seq<Kid>, comps: seq<seq<nat>>, sig: Signature): (units: seq<Unit>)
    requires PositionLists(comps, |kids|)
    ensures |units| == |comps|
    ensures forall k :: 0 <= k < |comps| ==> units[k] == UnitOf(kids, comps[k], sig)
  {
    seq(|comps|, k requires 0 <= k < |comps| => UnitOf(kids, comps[k], sig))
  }

  /** The member loop of one unit. */
  method BuildUnit(kids: seq<Kid>, idxs: seq<nat>, sig: Signature) returns (u: Unit)
    requires idxs != [] && Positions(idxs, |kids|)
    ensures u == UnitOf(kids, idxs, sig)
  {
    var members, start, end, timed := [], 0, 0, true;
    for k := 0 to |idxs|
      invariant members == TreesOf(kids, idxs[..k])
      invariant k > 0 ==> start == MinStart(kids, idxs[..k]) && end == MaxEnd(kids, idxs[..k])
      invariant timed <==> AllTimed(kids, idxs[..k])
    {
      ghost var longer := idxs[..k + 1];
      assert longer[..k] == idxs[..k] && longer[k] == idxs[k];
      var s := kids[idxs[k]].span;
      members := members + [kids[idxs[k]].tree];
      if s.start == 0 || s.end == 0 {
        timed := false;
      }
      if k == 0 || s.start < start {
        start := s.start;
      }
      if k == 0 || s.end > end {
        end := s.end;
      }
    }
    assert idxs[..|idxs|] == idxs;
    if |members| > 1 {
      members := StableSort(members, BySig(sig));
    }
    u := Unit(members, start, end, timed);
  }

  method BuildUnits(kids: seq<Kid>, comps: seq<seq<nat>>, sig: Signature) returns (units: seq<Unit>)
    requires PositionLists(comps, |kids|)
    ensures units == UnitsOf(kids, comps, sig)
  {
    units := [];
    for k := 0 to |comps|
      invariant |units| == k
      invariant forall l :: 0 <= l < k ==> units[l] == UnitOf(kids, comps[l], sig)
    {
      var u := BuildUnit(kids, comps[k], sig);
      units := units + [u];
    }
  }

  // ---- cutting units into runs ----

  function RunEnd(units: seq<Unit>, boundary: Boundary, j: nat): (e: nat)
    requires 0 < j <= |units|
    ensures j <= e <= |units|
    ensures forall k :: j <= k < e ==> !boundary(units[k - 1], units[k])
    ensures e < |units| ==> boundary(units[e - 1], units[e])
    decreases |units| - j
  {
    if j < |units| && !boundary(units[j - 1], units[j]) then RunEnd(units, boundary, j + 1) else j
  }

  function MembersOf(units: seq<Unit>): seq<CanonicalSpan> {
    if units == [] then [] else MembersOf(units[..|units| - 1]) + units[|units| - 1].members
  }

  function BlockGroup(block: seq<Unit>, sig: Signature): ChildGroup
    requires block != []
  {
    if |block| == 1 then
      Group(|block[0].members| > 1, false, "", block[0].members)
    else
      var all := MembersOf(block);
      Group(false, |all| > 1, "", StableSort(all, BySig(sig)))
  }

  /** The groups the code's outer loop emits from position `i` on. */
  function Blocks(units: seq<Unit>, boundary: Boundary, sig: Signature, i: nat): seq<ChildGroup>
    requires i <= |units|
    decreases |units| - i
  {
    if i == |units| then []
    else
      var j := RunEnd(units, boundary, i + 1);
      [BlockGroup(units[i..j], sig)] + Blocks(units, boundary, sig, j)
  }

  method GroupBlock(block: seq<Unit>, sig: Signature) returns (g: ChildGroup)
    requires block != []
    ensures g == BlockGroup(block, sig)
  {
    if |block| == 1 {
      g := Group(|block[0].members| > 1, false, "", block[0].members);
    } else {
      var all: seq<CanonicalSpan> := [];
      for k := 0 to |block|
        invariant all == MembersOf(block[..k])
      {
        assert block[..k + 1][..k] == block[..k];
        all := all + block[k].members;
      }
      assert block[..|block|] == block;
      g := Group(false, |all| > 1, "", StableSort(all, BySig(sig)));
    }
  }

  lemma BlocksStep(units: seq<Unit>, boundary: Boundary, sig: Signature, i: nat, j: nat,
                   groups: seq<ChildGroup>, g: ChildGroup)
    requires i < |units| && j == RunEnd(units, boundary, i + 1)
    requires g == BlockGroup(units[i..j], sig)
    ensures groups + Blocks(units, boundary, sig, i) == (groups + [g]) + Blocks(units, boundary, sig, j)
  {
    hide BlockGroup;
    var rest := Blocks(units, boundary, sig, j);
    assert groups + ([g] + rest) == (groups + [g]) + rest;
  }

  /** The outer loop shared by `group` and `groupPostHoc`, which differ in `boundary` only. */
  method CutRuns(units: seq<Unit>, boundary: Boundary, sig: Signature) returns (groups: seq<ChildGroup>)
    ensures groups == Blocks(units, boundary, sig, 0)
  {
    hide BlockGroup, Blocks;
    groups := [];
    var i := 0;
    while i < |units|
      invariant i <= |units|
      invariant groups + Blocks(units, boundary, sig, i) == Blocks(units, boundary, sig, 0)
    {
      var j := FindRunEnd(units, boundary, i + 1);
      var g := GroupBlock(units[i..j], sig);
      BlocksStep(units, boundary, sig, i, j, groups, g);
      groups := groups + [g];
      i := j;
    }
    NoBlocks(units, boundary, sig);
  }

  /** The inner loop: advance to the next boundary. */
  method FindRunEnd(units: seq<Unit>, boundary: Boundary, start: nat) returns (j: nat)
    requires 0 < start <= |units|
    ensures j == RunEnd(units, boundary, start)
  {
    j := start;
    while j < |units| && !boundary(units[j - 1], units[j])
      invariant start <= j <= |units|
      invariant RunEnd(units, boundary, start) == RunEnd(units, boundary, j)
    {
      j := j + 1;
    }
  }

  lemma NoBlocks(units: seq<Unit>, boundary: Boundary, sig: Signature)
    ensures Blocks(units, boundary, sig, |units|) == []
  {
  }

  // ---- the specification ----

  ghost function Least(s: set<nat>): (m: nat)
    requires s != {}
    ensures m in s && forall x :: x in s ==> m <= x
  {
    LeastExists(s);
    var m :| m in s && forall x :: x in s ==> m <= x;
    m
  }

  lemma LeastExists(s: set<nat>)
    requires s != {}
    ensures exists m :: m in s && forall x :: x in s ==> m <= x
  {
    var m := FindLeast(s);
  }

  lemma {:induction false} FindLeast(s: set<nat>) returns (m: nat)
    requires s != {}
    ensures m in s && forall x :: x in s ==> m <= x
  {
    var y :| y in s;
    m := y;
    if s - {y} != {} {
      m := FindLeast(s - {y});
      if y < m { m := y; }
    }
    assert forall x :: x in s ==> x == y || x in s - {y};
  }

  ghost function Greatest(s: set<nat>): (m: nat)
    requires s != {}
    ensures m in s && forall x :: x in s ==> x <= m
  {
    GreatestExists(s);
    var m :| m in s && forall x :: x in s ==> x <= m;
    m
  }

  lemma GreatestExists(s: set<nat>)
    requires s != {}
    ensures exists m :: m in s && forall x :: x in s ==> x <= m
  {
    var m := FindGreatest(s);
  }

  lemma {:induction false} FindGreatest(s: set<nat>) returns (m: nat)
    requires s != {}
    ensures m in s && forall x :: x in s ==> x <= m
  {
    var y :| y in s;
    m := y;
    if s - {y} != {} {
      m := FindGreatest(s - {y});
      if y > m { m := y; }
    }
    assert forall x :: x in s ==> x == y || x in s - {y};
  }

  ghost function Ascending(s: set<nat>): seq<nat> {
    if s == {} then [] else [Least(s)] + Ascending(s - {Least(s)})
  }

  /** One position's key and subtree. */
  datatype Entry = Entry(key: nat, tree: CanonicalSpan)

  function EntriesOf(kids: seq<Kid>, keys: seq<nat>): (r: seq<Entry>)
    requires |keys| == |kids|
    ensures |r| == |kids|
    ensures forall i :: 0 <= i < |kids| ==> r[i] == Entry(keys[i], kids[i].tree)
  {
    seq(|kids|, i requires 0 <= i < |kids| => Entry(keys[i], kids[i].tree))
  }

  function TreesAt(entries: seq<Entry>, v: nat): seq<CanonicalSpan> {
    if entries == [] then []
    else
      var n := |entries| - 1;
      TreesAt(entries[..n], v) + if entries[n].key == v then [entries[n].tree] else []
  }

  /** All positions with key `v` lie in one overlap component. */
  ghost predicate OneComponent(keys: seq<nat>, edges: Edges, v: nat) {
    forall a, b :: 0 <= a < |keys| && 0 <= b < |keys| && keys[a] == keys[b] == v ==> Connected(edges, a, b)
  }

  ghost function GroupAt(kids: seq<Kid>, pg: nat, keys: seq<nat>, sig: Signature, v: nat): ChildGroup
    requires |keys| == |kids|
  {
    var members := StableSort(TreesAt(EntriesOf(kids, keys), v), BySig(sig));
    var one := OneComponent(keys, RaceEdges(kids, pg), v);
    Group(one && |members| > 1, !one, "", members)
  }

  ghost function GroupsAt(kids: seq<Kid>, pg: nat, keys: seq<nat>, sig: Signature, vs: seq<nat>): seq<ChildGroup>
    requires |keys| == |kids|
  {
    if vs == [] then [] else [GroupAt(kids, pg, keys, sig, vs[0])] + GroupsAt(kids, pg, keys, sig, vs[1..])
  }

  /** One group per key value, in ascending key order. */
  ghost function Emit(kids: seq<Kid>, pg: nat, keys: seq<nat>, sig: Signature): seq<ChildGroup>
    requires |keys| == |kids|
  {
    GroupsAt(kids, pg, keys, sig, Ascending(ToSet(keys)))
  }

  // ---- the cut computes the specification ----

  function Flat(lists: seq<seq<nat>>): seq<nat> {
    if lists == [] then [] else Flat(lists[..|lists| - 1]) + lists[|lists| - 1]
  }

  lemma {:induction false} FlatFacts(rep: seq<nat>, comps: seq<seq<nat>>, i: nat, j: nat)
    requires ComponentList(rep, comps) && i <= j <= |comps|
    ensures forall x: nat :: x in Flat(comps[i..j]) <==> exists k :: i <= k < j && x in comps[k]
    ensures forall a, b :: 0 <= a < b < |Flat(comps[i..j])| ==> Flat(comps[i..j])[a] != Flat(comps[i..j])[b]
    ensures Positions(Flat(comps[i..j]), |rep|)
    decreases j - i
  {
    if i < j {
      FlatFacts(rep, comps, i, j - 1);
      var shorter, last := Flat(comps[i..j - 1]), comps[j - 1];
      assert comps[i..j][..j - i - 1] == comps[i..j - 1];
      assert Flat(comps[i..j]) == shorter + last;
      forall a | 0 <= a < |shorter| ensures shorter[a] !in last && shorter[a] < |rep| {
        assert shorter[a] in shorter;
        var k :| i <= k < j - 1 && shorter[a] in comps[k];
        assert rep[comps[k][0]] != rep[last[0]];
      }
      forall a | 0 <= a < |last| ensures last[a] < |rep| {
        assert last[a] in comps[j - 1];
      }
    }
  }

  lemma {:induction false} FlatPositions(lists: seq<seq<nat>>, n: nat)
    requires PositionLists(lists, n)
    ensures Positions(Flat(lists), n)
  {
    if lists != [] {
      FlatPositions(lists[..|lists| - 1], n);
    }
  }

  lemma {:induction false} MembersAreTrees(kids: seq<Kid>, comps: seq<seq<nat>>, sig: Signature)
    requires PositionLists(comps, |kids|)
    ensures Positions(Flat(comps), |kids|)
    ensures multiset(MembersOf(UnitsOf(kids, comps, sig))) == multiset(TreesOf(kids, Flat(comps)))
  {
    FlatPositions(comps, |kids|);
    if comps != [] {
      var n := |comps| - 1;
      var fewer, last := comps[..n], comps[n];
      var units := UnitsOf(kids, comps, sig);
      assert PositionLists(fewer, |kids|) && Positions(last, |kids|) && last != [];
      MembersAreTrees(kids, fewer, sig);
      assert units[..n] == UnitsOf(kids, fewer, sig);
      TreesConcat(kids, Flat(fewer), last);
      assert units[n].members == InSigOrder(TreesOf(kids, last), sig);
    }
  }

  lemma TreesConcat(kids: seq<Kid>, a: seq<nat>, b: seq<nat>)
    requires Positions(a, |kids|) && Positions(b, |kids|)
    ensures Positions(a + b, |kids|)
    ensures TreesOf(kids, a + b) == TreesOf(kids, a) + TreesOf(kids, b)
  {
  }

  lemma {:induction false} TreesAtClass(kids: seq<Kid>, keys: seq<nat>, v: nat, n: nat)
    requires |keys| == |kids| && n <= |kids|
    ensures Positions(Class(keys, v, n), |kids|)
    ensures TreesAt(EntriesOf(kids, keys)[..n], v) == TreesOf(kids, Class(keys, v, n))
  {
    var entries := EntriesOf(kids, keys);
    if n > 0 {
      TreesAtClass(kids, keys, v, n - 1);
      assert entries[..n][..n - 1] == entries[..n - 1];
      assert entries[..n][n - 1] == entries[n - 1];
    }
  }

  /** Any listing without repetition of the positions keyed `v` carries the trees of group `v`. */
  lemma TreesAtListing(kids: seq<Kid>, keys: seq<nat>, v: nat, idxs: seq<nat>)
    requires |keys| == |kids|
    requires forall a, b :: 0 <= a < b < |idxs| ==> idxs[a] != idxs[b]
    requires forall x: nat :: x in idxs <==> x < |keys| && keys[x] == v
    ensures Positions(idxs, |kids|)
    ensures multiset(TreesAt(EntriesOf(kids, keys), v)) == multiset(TreesOf(kids, idxs))
  {
    var n, entries := |kids|, EntriesOf(kids, keys);
    TreesAtClass(kids, keys, v, n);
    assert entries[..n] == entries;
    ClassFacts(keys, v, n);
    var c := Class(keys, v, n);
    forall i | 0 <= i < |idxs| ensures idxs[i] < n { assert idxs[i] in idxs; }
    DistinctMultiset(idxs, c);
    var f := (x: nat) requires x < |kids| => kids[x].tree;
    forall x | x in idxs ensures f.requires(x) {}
    forall x | x in c ensures f.requires(x) {}
    MapMultiset(f, idxs, c);
    assert Map(f, idxs) == TreesOf(kids, idxs);
    assert Map(f, c) == TreesOf(kids, c);
  }

  /** A key per position that is constant on components and steps up exactly at the boundaries. */
  ghost predicate KeysFit(comps: seq<seq<nat>>, keys: seq<nat>, units: seq<Unit>, boundary: Boundary)
    requires |units| == |comps| && PositionLists(comps, |keys|)
  {
    && (forall k, x: nat :: 0 <= k < |comps| && x in comps[k] && x < |keys| ==> keys[x] == keys[comps[k][0]])
    && (forall k :: 0 < k < |comps| ==> keys[comps[k - 1][0]] <= keys[comps[k][0]])
    && (forall k :: 0 < k < |comps| ==>
          (boundary(units[k - 1], units[k]) <==> keys[comps[k - 1][0]] < keys[comps[k][0]]))
  }

  lemma ComponentPositions(rep: seq<nat>, comps: seq<seq<nat>>)
    requires ComponentList(rep, comps)
    ensures PositionLists(comps, |rep|)
  {
    forall k | 0 <= k < |comps| ensures comps[k] != [] && Positions(comps[k], |rep|) {
      forall i | 0 <= i < |comps[k]| ensures comps[k][i] < |rep| { assert comps[k][i] in comps[k]; }
    }
  }

  /** A block lists every position of its key, once. */
  lemma BlockPositions(rep: seq<nat>, comps: seq<seq<nat>>, keys: seq<nat>, i: nat, j: nat, v: nat)
    requires |rep| == |keys|
    requires ComponentList(rep, comps)
    requires forall k, x: nat :: 0 <= k < |comps| && x in comps[k] && x < |keys| ==> keys[x] == keys[comps[k][0]]
    requires i < j <= |comps|
    requires forall k :: 0 <= k < |comps| ==> (keys[comps[k][0]] == v <==> i <= k < j)
    ensures forall a, b :: 0 <= a < b < |Flat(comps[i..j])| ==> Flat(comps[i..j])[a] != Flat(comps[i..j])[b]
    ensures forall x: nat :: x in Flat(comps[i..j]) <==> x < |keys| && keys[x] == v
  {
    FlatFacts(rep, comps, i, j);
    forall x: nat ensures x in Flat(comps[i..j]) <==> x < |keys| && keys[x] == v {
      if x < |keys| && keys[x] == v {
        assert InSome(comps, x);
        var k :| 0 <= k < |comps| && x in comps[k];
        assert i <= k < j;
      }
    }
  }

  lemma BlockTrees(kids: seq<Kid>, rep: seq<nat>, comps: seq<seq<nat>>, keys: seq<nat>,
                   sig: Signature, i: nat, j: nat, v: nat)
    requires |rep| == |kids| == |keys|
    requires ComponentList(rep, comps) && PositionLists(comps, |kids|)
    requires forall k, x: nat :: 0 <= k < |comps| && x in comps[k] && x < |keys| ==> keys[x] == keys[comps[k][0]]
    requires i < j <= |comps|
    requires forall k :: 0 <= k < |comps| ==> (keys[comps[k][0]] == v <==> i <= k < j)
    ensures multiset(MembersOf(UnitsOf(kids, comps, sig)[i..j])) == multiset(TreesAt(EntriesOf(kids, keys), v))
  {
    hide TreesAt, MembersOf, UnitOf, TreesOf;
    var idxs := Flat(comps[i..j]);
    BlockPositions(rep, comps, keys, i, j, v);
    TreesAtListing(kids, keys, v, idxs);
    assert UnitsOf(kids, comps, sig)[i..j] == UnitsOf(kids, comps[i..j], sig);
    MembersAreTrees(kids, comps[i..j], sig);
  }

  lemma BlockIsGroup(kids: seq<Kid>, pg: nat, rep: seq<nat>, comps: seq<seq<nat>>, keys: seq<nat>,
                     sig: Signature, i: nat, j: nat, v: nat)
    requires Injective(sig)
    requires |rep| == |kids| == |keys| && Labels(rep, RaceEdges(kids, pg))
    requires ComponentList(rep, comps) && PositionLists(comps, |kids|)
    requires forall k, x: nat :: 0 <= k < |comps| && x in comps[k] && x < |keys| ==> keys[x] == keys[comps[k][0]]
    requires i < j <= |comps|
    requires forall k :: 0 <= k < |comps| ==> (keys[comps[k][0]] == v <==> i <= k < j)
    ensures BlockGroup(UnitsOf(kids, comps, sig)[i..j], sig) == GroupAt(kids, pg, keys, sig, v)
  {
    hide TreesAt, MembersOf, UnitOf, StableSort, OneComponent;
    var units, less := UnitsOf(kids, comps, sig), BySig(sig);
    var block, trees := units[i..j], TreesAt(EntriesOf(kids, keys), v);
    BlockTrees(kids, rep, comps, keys, sig, i, j, v);
    SameLength(MembersOf(block), trees);
    assert StableSort(MembersOf(block), less) == StableSort(trees, less) by {
      BySigWeak(sig);
      BySigConnex(sig);
      StableSortCanonical(MembersOf(block), trees, less);
    }
    if j == i + 1 {
      SingleBlock(kids, pg, rep, comps, keys, i, v);
      UnitInOrder(kids, comps[i], sig);
      assert block == [units[i]];
      OneUnitGroup(kids, pg, keys, sig, v, block);
    } else {
      SplitComponents(kids, pg, rep, comps, keys, i, v);
      NonEmptyUnits(kids, comps, sig, i, j);
      ManyMembers(block);
    }
  }

  lemma NonEmptyUnits(kids: seq<Kid>, comps: seq<seq<nat>>, sig: Signature, i: nat, j: nat)
    requires PositionLists(comps, |kids|) && i <= j <= |comps|
    ensures forall k :: 0 <= k < j - i ==> UnitsOf(kids, comps, sig)[i..j][k].members != []
  {
    hide MinStart, MaxEnd, AllTimed;
    forall k | 0 <= k < j - i ensures UnitsOf(kids, comps, sig)[i..j][k].members != [] {
      assert UnitsOf(kids, comps, sig)[i..j][k] == UnitOf(kids, comps[i + k], sig);
    }
  }

  lemma OneUnitGroup(kids: seq<Kid>, pg: nat, keys: seq<nat>, sig: Signature, v: nat, block: seq<Unit>)
    requires |keys| == |kids| && |block| == 1
    requires OneComponent(keys, RaceEdges(kids, pg), v)
    requires StableSort(MembersOf(block), BySig(sig)) == StableSort(TreesAt(EntriesOf(kids, keys), v), BySig(sig))
    requires StableSort(block[0].members, BySig(sig)) == block[0].members
    ensures BlockGroup(block, sig) == GroupAt(kids, pg, keys, sig, v)
  {
    assert MembersOf(block) == block[0].members by { assert block[..0] == []; }
  }

  lemma SplitComponents(kids: seq<Kid>, pg: nat, rep: seq<nat>, comps: seq<seq<nat>>, keys: seq<nat>, i: nat, v: nat)
    requires |rep| == |kids| == |keys| && Labels(rep, RaceEdges(kids, pg))
    requires ComponentList(rep, comps) && i + 1 < |comps|
    requires keys[comps[i][0]] == keys[comps[i + 1][0]] == v
    ensures !OneComponent(keys, RaceEdges(kids, pg), v)
  {
    assert rep[comps[i][0]] != rep[comps[i + 1][0]];
    assert !Connected(RaceEdges(kids, pg), comps[i][0], comps[i + 1][0]);
  }

  lemma UnitInOrder(kids: seq<Kid>, idxs: seq<nat>, sig: Signature)
    requires idxs != [] && Positions(idxs, |kids|)
    ensures StableSort(UnitOf(kids, idxs, sig).members, BySig(sig)) == UnitOf(kids, idxs, sig).members
  {
    BySigWeak(sig);
    StableSortSorted(TreesOf(kids, idxs), BySig(sig));
    SortedStays(UnitOf(kids, idxs, sig).members, BySig(sig));
  }

  lemma ManyMembers(block: seq<Unit>)
    requires |block| > 1
    requires forall k :: 0 <= k < |block| ==> block[k].members != []
    ensures |MembersOf(block)| > 1
  {
    var n := |block| - 1;
    assert MembersOf(block) == MembersOf(block[..n]) + block[n].members;
    assert MembersOf(block[..n]) == MembersOf(block[..n][..n - 1]) + block[n - 1].members;
  }

  lemma SingleBlock(kids: seq<Kid>, pg: nat, rep: seq<nat>, comps: seq<seq<nat>>, keys: seq<nat>, i: nat, v: nat)
    requires |rep| == |kids| == |keys| && Labels(rep, RaceEdges(kids, pg))
    requires ComponentList(rep, comps) && i < |comps|
    requires forall k, x: nat :: 0 <= k < |comps| && x in comps[k] && x < |keys| ==> keys[x] == keys[comps[k][0]]
    requires forall k :: 0 <= k < |comps| ==> (keys[comps[k][0]] == v <==> k == i)
    ensures OneComponent(keys, RaceEdges(kids, pg), v)
  {
    forall a, b | 0 <= a < |keys| && 0 <= b < |keys| && keys[a] == keys[b] == v
      ensures Connected(RaceEdges(kids, pg), a, b)
    {
      assert InSome(comps, a) && InSome(comps, b);
      var k :| 0 <= k < |comps| && a in comps[k];
      var l :| 0 <= l < |comps| && b in comps[l];
      assert k == l == i;
    }
  }

  ghost function KeySet(comps: seq<seq<nat>>, keys: seq<nat>, i: nat): set<nat>
    requires PositionLists(comps, |keys|)
  {
    set k | i <= k < |comps| :: keys[comps[k][0]]
  }

  lemma {:induction false} KeysMonotone(comps: seq<seq<nat>>, keys: seq<nat>, k: nat, l: nat)
    requires PositionLists(comps, |keys|) && k <= l < |comps|
    requires forall k :: 0 < k < |comps| ==> keys[comps[k - 1][0]] <= keys[comps[k][0]]
    ensures keys[comps[k][0]] <= keys[comps[l][0]]
    decreases l
  {
    if k < l {
      KeysMonotone(comps, keys, k, l - 1);
    }
  }

  /** A run of units without a boundary is one key class. */
  lemma RunSpan(comps: seq<seq<nat>>, keys: seq<nat>, units: seq<Unit>, boundary: Boundary, i: nat)
    requires |units| == |comps| && PositionLists(comps, |keys|) && i < |comps|
    requires KeysFit(comps, keys, units, boundary)
    requires i == 0 || keys[comps[i - 1][0]] < keys[comps[i][0]]
    ensures var j := RunEnd(units, boundary, i + 1);
            && i < j <= |comps|
            && (forall k :: 0 <= k < i ==> keys[comps[k][0]] < keys[comps[i][0]])
            && (forall k :: i <= k < j ==> keys[comps[k][0]] == keys[comps[i][0]])
            && (forall k :: j <= k < |comps| ==> keys[comps[k][0]] > keys[comps[i][0]])
            && (j < |comps| ==> keys[comps[j - 1][0]] < keys[comps[j][0]])
  {
    hide RunEnd;
    var j, v := RunEnd(units, boundary, i + 1), keys[comps[i][0]];
    forall k | i <= k < j ensures keys[comps[k][0]] == v {
      SameKeyRun(comps, keys, units, boundary, i, j, k);
    }
    forall k | 0 <= k < i ensures keys[comps[k][0]] < v {
      KeysMonotone(comps, keys, k, i - 1);
    }
    forall k | j <= k < |comps| ensures keys[comps[k][0]] > v {
      KeysMonotone(comps, keys, j, k);
    }
  }

  lemma RunIsKeyClass(comps: seq<seq<nat>>, keys: seq<nat>, units: seq<Unit>, boundary: Boundary, i: nat)
    requires |units| == |comps| && PositionLists(comps, |keys|) && i < |comps|
    requires KeysFit(comps, keys, units, boundary)
    requires i == 0 || keys[comps[i - 1][0]] < keys[comps[i][0]]
    ensures var j := RunEnd(units, boundary, i + 1);
            && (forall k :: 0 <= k < |comps| ==> (keys[comps[k][0]] == keys[comps[i][0]] <==> i <= k < j))
            && (j < |comps| ==> keys[comps[j - 1][0]] < keys[comps[j][0]])
            && keys[comps[i][0]] in KeySet(comps, keys, i)
            && Least(KeySet(comps, keys, i)) == keys[comps[i][0]]
            && KeySet(comps, keys, i) - {keys[comps[i][0]]} == KeySet(comps, keys, j)
  {
    hide RunEnd, KeysFit;
    RunSpan(comps, keys, units, boundary, i);
    assert keys[comps[i][0]] in KeySet(comps, keys, i);
  }

  lemma {:induction false} SameKeyRun(comps: seq<seq<nat>>, keys: seq<nat>, units: seq<Unit>, boundary: Boundary,
                                      i: nat, j: nat, k: nat)
    requires |units| == |comps| && PositionLists(comps, |keys|) && i <= k < j <= |comps|
    requires KeysFit(comps, keys, units, boundary)
    requires forall k :: i < k < j ==> !boundary(units[k - 1], units[k])
    ensures keys[comps[k][0]] == keys[comps[i][0]]
    decreases k
  {
    if i < k {
      SameKeyRun(comps, keys, units, boundary, i, j, k - 1);
    }
  }

  lemma {:induction false} BlocksFromKey(kids: seq<Kid>, pg: nat, rep: seq<nat>, comps: seq<seq<nat>>, keys: seq<nat>,
                                         boundary: Boundary, sig: Signature, i: nat)
    requires Injective(sig)
    requires |rep| == |kids| == |keys| && Labels(rep, RaceEdges(kids, pg))
    requires ComponentList(rep, comps) && PositionLists(comps, |kids|)
    requires KeysFit(comps, keys, UnitsOf(kids, comps, sig), boundary)
    requires i <= |comps|
    requires 0 < i < |comps| ==> keys[comps[i - 1][0]] < keys[comps[i][0]]
    ensures Blocks(UnitsOf(kids, comps, sig), boundary, sig, i)
         == GroupsAt(kids, pg, keys, sig, Ascending(KeySet(comps, keys, i)))
    decreases |comps| - i
  {
    hide GroupAt, BlockGroup, UnitOf, KeySet, RunEnd, KeysFit;
    var units := UnitsOf(kids, comps, sig);
    if i < |comps| {
      var j, v := RunEnd(units, boundary, i + 1), keys[comps[i][0]];
      RunIsKeyClass(comps, keys, units, boundary, i);
      BlocksFromKey(kids, pg, rep, comps, keys, boundary, sig, j);
      KeysConstant(comps, keys, units, boundary);
      BlockIsGroup(kids, pg, rep, comps, keys, sig, i, j, v);
      var rest := Ascending(KeySet(comps, keys, j));
      assert Ascending(KeySet(comps, keys, i)) == [v] + rest;
    } else {
      NoKeysLeft(comps, keys, i);
    }
  }

  lemma NoKeysLeft(comps: seq<seq<nat>>, keys: seq<nat>, i: nat)
    requires PositionLists(comps, |keys|) && i == |comps|
    ensures KeySet(comps, keys, i) == {}
  {
  }

  lemma KeysConstant(comps: seq<seq<nat>>, keys: seq<nat>, units: seq<Unit>, boundary: Boundary)
    requires |units| == |comps| && PositionLists(comps, |keys|)
    requires KeysFit(comps, keys, units, boundary)
    ensures forall k, x: nat :: 0 <= k < |comps| && x in comps[k] && x < |keys| ==> keys[x] == keys[comps[k][0]]
  {
  }

  /** The traversal and the order-free specification agree. */
  lemma BlocksAreEmit(kids: seq<Kid>, pg: nat, rep: seq<nat>, keys: seq<nat>, boundary: Boundary, sig: Signature)
    requires Injective(sig)
    requires |rep| == |kids| == |keys| && Labels(rep, RaceEdges(kids, pg))
    requires PositionLists(Comps(rep), |kids|)
    requires KeysFit(Comps(rep), keys, UnitsOf(kids, Comps(rep), sig), boundary)
    ensures Blocks(UnitsOf(kids, Comps(rep), sig), boundary, sig, 0) == Emit(kids, pg, keys, sig)
  {
    var comps := Comps(rep);
    CompsFacts(rep);
    KeySetIsAll(rep, comps, keys);
    BlocksFromKey(kids, pg, rep, comps, keys, boundary, sig, 0);
  }

  lemma KeySetIsAll(rep: seq<nat>, comps: seq<seq<nat>>, keys: seq<nat>)
    requires |rep| == |keys| && ComponentList(rep, comps) && PositionLists(comps, |keys|)
    requires forall k, x: nat :: 0 <= k < |comps| && x in comps[k] && x < |keys| ==> keys[x] == keys[comps[k][0]]
    ensures KeySet(comps, keys, 0) == ToSet(keys)
  {
    forall x | x in ToSet(keys) ensures x in KeySet(comps, keys, 0) {
      var p :| 0 <= p < |keys| && keys[p] == x;
      assert InSome(comps, p);
      var k :| 0 <= k < |comps| && p in comps[k];
      assert keys[comps[k][0]] == x;
    }
  }
}
