/**
 * What every canonical tree looks like: a plain group is one step, and no group claims two orders.
 * This is what salience filtering relies on.
 */
module Shapes {
  import opened Ir
  import opened Sorting
  import opened UnionFind
  import opened Siblings
  import opened Runs
  import opened PostHoc
  import opened Loops
  import P = Promote

  predicate Shaped(t: CanonicalSpan) {
    P.Steps(t) && P.OneClaim(t)
  }

  predicate GroupShaped(g: ChildGroup) {
    && P.StepOk(g) && !(g.concurrent && g.unordered)
    && forall i :: 0 <= i < |g.members| ==> Shaped(g.members[i])
  }

  predicate GroupsShaped(gs: seq<ChildGroup>) {
    forall i :: 0 <= i < |gs| ==> GroupShaped(gs[i])
  }

  lemma {:induction false} MembersShaped(ms: seq<CanonicalSpan>)
    ensures P.StepsMembers(ms) && P.OneClaimMembers(ms) <==> forall i :: 0 <= i < |ms| ==> Shaped(ms[i])
  {
    hide P.Steps, P.OneClaim;
    if ms != [] {
      MembersShaped(ms[1..]);
      assert forall i :: 1 <= i < |ms| ==> ms[i] == ms[1..][i - 1];
      assert forall i :: 0 <= i < |ms| - 1 ==> ms[1..][i] == ms[i + 1];
    }
  }

  lemma {:induction false} ChildrenShaped(gs: seq<ChildGroup>)
    ensures P.StepsGroups(gs) && P.OneClaimGroups(gs) <==> GroupsShaped(gs)
  {
    hide P.StepsMembers, P.OneClaimMembers, P.StepOk, Shaped;
    if gs != [] {
      ChildrenShaped(gs[1..]);
      MembersShaped(gs[0].members);
      assert forall i :: 1 <= i < |gs| ==> gs[i] == gs[1..][i - 1];
      assert forall i :: 0 <= i < |gs| - 1 ==> gs[1..][i] == gs[i + 1];
    }
  }

  /** A tree is shaped exactly when its child groups are. */
  lemma ShapedIffGroups(t: CanonicalSpan)
    ensures Shaped(t) <==> GroupsShaped(t.children)
  {
    hide GroupShaped;
    ChildrenShaped(t.children);
  }

  lemma SameMembersShaped(a: seq<CanonicalSpan>, b: seq<CanonicalSpan>)
    requires multiset(a) == multiset(b) && forall i :: 0 <= i < |a| ==> Shaped(a[i])
    ensures forall i :: 0 <= i < |b| ==> Shaped(b[i])
  {
    hide Shaped;
    forall i | 0 <= i < |b| ensures Shaped(b[i]) {
      assert b[i] in multiset(a);
    }
  }

  // ---- the cut ----

  ghost predicate UnitsShaped(units: seq<Unit>) {
    forall k :: 0 <= k < |units| ==> units[k].members != [] && forall i :: 0 <= i < |units[k].members| ==> Shaped(units[k].members[i])
  }

  lemma {:induction false} BlockMembersShaped(block: seq<Unit>)
    requires UnitsShaped(block)
    ensures forall i :: 0 <= i < |MembersOf(block)| ==> Shaped(MembersOf(block)[i])
    ensures |MembersOf(block)| >= |block|
  {
    hide Shaped;
    if block != [] { BlockMembersShaped(block[..|block| - 1]); }
  }

  lemma BlockShaped(block: seq<Unit>, sig: Signature)
    requires block != [] && UnitsShaped(block)
    ensures GroupShaped(BlockGroup(block, sig))
  {
    hide Shaped;
    BlockMembersShaped(block);
    SameMembersShaped(MembersOf(block), StableSort(MembersOf(block), BySig(sig)));
  }

  lemma {:induction false} BlocksShaped(units: seq<Unit>, boundary: Boundary, sig: Signature, i: nat)
    requires UnitsShaped(units) && i <= |units|
    ensures GroupsShaped(Blocks(units, boundary, sig, i))
    decreases |units| - i
  {
    hide GroupShaped, BlockGroup, RunEnd;
    if i < |units| {
      var j := RunEnd(units, boundary, i + 1);
      BlockShaped(units[i..j], sig);
      BlocksShaped(units, boundary, sig, j);
    }
  }

  lemma UnitsAreShaped(kids: seq<Kid>, comps: seq<seq<nat>>, sig: Signature)
    requires PositionLists(comps, |kids|) && forall i :: 0 <= i < |kids| ==> Shaped(kids[i].tree)
    ensures UnitsShaped(UnitsOf(kids, comps, sig))
  {
    hide Shaped, InSigOrder;
    forall k | 0 <= k < |comps|
      ensures UnitOf(kids, comps[k], sig).members != []
      ensures forall i :: 0 <= i < |UnitOf(kids, comps[k], sig).members| ==> Shaped(UnitOf(kids, comps[k], sig).members[i]) {
      var trees := TreesOf(kids, comps[k]);
      SameMembersShaped(trees, InSigOrder(trees, sig));
    }
  }

  /** Whatever order ties were left in, the post-hoc groups are well-formed. */
  lemma CutIsShaped(ordered: seq<Kid>, guard: nat, sig: Signature, groups: seq<ChildGroup>)
    requires CutAtGaps(ordered, guard, sig, groups) && forall i :: 0 <= i < |ordered| ==> Shaped(ordered[i].tree)
    ensures GroupsShaped(groups)
  {
    hide Shaped, GroupShaped, UnitsOf, Blocks;
    var rep :| |rep| == |ordered| && Labels(rep, RaceEdges(ordered, 0)) && PositionLists(Comps(rep), |ordered|)
               && groups == Blocks(UnitsOf(ordered, Comps(rep), sig), GapBoundary(guard), sig, 0);
    UnitsAreShaped(ordered, Comps(rep), sig);
    BlocksShaped(UnitsOf(ordered, Comps(rep), sig), GapBoundary(guard), sig, 0);
  }

  // ---- the keyed groups ----

  lemma {:induction false} TreesAtShaped(entries: seq<Entry>, v: nat)
    requires forall i :: 0 <= i < |entries| ==> Shaped(entries[i].tree)
    ensures forall i :: 0 <= i < |TreesAt(entries, v)| ==> Shaped(TreesAt(entries, v)[i])
    ensures (exists i :: 0 <= i < |entries| && entries[i].key == v) ==> TreesAt(entries, v) != []
  {
    hide Shaped;
    if entries != [] {
      var n := |entries| - 1;
      TreesAtShaped(entries[..n], v);
      assert forall i :: 0 <= i < n ==> entries[i] == entries[..n][i];
    }
  }

  lemma KeyedGroupShaped(kids: seq<Kid>, pg: nat, keys: seq<nat>, sig: Signature, v: nat)
    requires |keys| == |kids| && v in keys && forall i :: 0 <= i < |kids| ==> Shaped(kids[i].tree)
    ensures GroupShaped(GroupAt(kids, pg, keys, sig, v))
  {
    hide Shaped, TreesAt, OneComponent;
    var entries := EntriesOf(kids, keys);
    var i :| 0 <= i < |keys| && keys[i] == v;
    assert entries[i].key == v;
    TreesAtShaped(entries, v);
    var trees := TreesAt(entries, v);
    SameMembersShaped(trees, StableSort(trees, BySig(sig)));
  }

  lemma {:induction false} KeyedGroupsShaped(kids: seq<Kid>, pg: nat, keys: seq<nat>, sig: Signature, vs: seq<nat>)
    requires |keys| == |kids| && forall i :: 0 <= i < |kids| ==> Shaped(kids[i].tree)
    requires forall v :: v in vs ==> v in keys
    ensures GroupsShaped(GroupsAt(kids, pg, keys, sig, vs))
  {
    hide Shaped, GroupShaped, GroupAt;
    if vs != [] {
      KeyedGroupShaped(kids, pg, keys, sig, vs[0]);
      KeyedGroupsShaped(kids, pg, keys, sig, vs[1..]);
    }
  }

  lemma {:induction false} AscendingMembers(s: set<nat>)
    ensures forall v :: v in Ascending(s) <==> v in s
  {
    if s != {} {
      AscendingMembers(s - {Least(s)});
      LeastExists(s);
    }
  }

  lemma EmitShaped(kids: seq<Kid>, pg: nat, keys: seq<nat>, sig: Signature)
    requires |keys| == |kids| && forall i :: 0 <= i < |kids| ==> Shaped(kids[i].tree)
    ensures GroupsShaped(Emit(kids, pg, keys, sig))
  {
    hide Shaped, GroupsAt, Ascending, GroupsShaped;
    AscendingMembers(ToSet(keys));
    KeyedGroupsShaped(kids, pg, keys, sig, Ascending(ToSet(keys)));
  }

  // ---- loop collapse ----

  lemma CollapseGroupShaped(g: ChildGroup)
    requires GroupShaped(g)
    ensures GroupShaped(CollapseGroup(g))
  {
    hide Shaped;
    DedupFacts(g.members);
    forall i | 0 <= i < |Dedup(g.members)| ensures Shaped(Dedup(g.members)[i]) {
      assert Dedup(g.members)[i] in g.members;
    }
  }

  lemma {:induction false} FoldShaped(gs: seq<ChildGroup>)
    requires GroupsShaped(gs)
    ensures GroupsShaped(FoldRuns(gs))
  {
    hide Shaped;
    if gs != [] {
      var n := RunLength(gs[0], gs[1..]);
      FoldShaped(gs[1 + n..]);
    }
  }

  /** Collapsing loops keeps the groups well-formed. */
  lemma CollapseShaped(gs: seq<ChildGroup>)
    requires GroupsShaped(gs)
    ensures GroupsShaped(Collapse(gs))
  {
    hide GroupShaped, CollapseGroup, FoldRuns;
    forall i | 0 <= i < |gs| ensures GroupShaped(CollapseEach(gs)[i]) {
      CollapseGroupShaped(gs[i]);
    }
    FoldShaped(CollapseEach(gs));
  }

  // ---- children ----

  ghost predicate KidsShaped(kids: seq<Kid>) {
    forall i :: 0 <= i < |kids| ==> Shaped(kids[i].tree)
  }

  lemma KidsAppend(kids: seq<Kid>, k: Kid)
    requires KidsShaped(kids) && Shaped(k.tree)
    ensures KidsShaped(kids + [k])
  {
    hide Shaped;
  }

  lemma NoKids()
    ensures KidsShaped([])
  {
  }

  lemma KidsReordered(a: seq<Kid>, b: seq<Kid>)
    requires KidsShaped(a) && multiset(a) == multiset(b)
    ensures KidsShaped(b)
  {
    hide Shaped;
    forall i | 0 <= i < |b| ensures Shaped(b[i].tree) {
      assert b[i] in multiset(a);
    }
  }

  lemma PostHocShaped(kids: seq<Kid>, guard: nat, sig: Signature, groups: seq<ChildGroup>)
    requires KidsShaped(kids) && CutAtGaps(StableSort(kids, ByStartThenId()), guard, sig, groups)
    ensures GroupsShaped(groups)
  {
    hide CutAtGaps, Shaped, GroupsShaped;
    var ordered := StableSort(kids, ByStartThenId());
    KidsReordered(kids, ordered);
    CutIsShaped(ordered, guard, sig, groups);
  }

  lemma InProcessShaped(kids: seq<Kid>, pg: nat, keys: seq<nat>, sig: Signature)
    requires KidsShaped(kids) && |keys| == |kids|
    ensures GroupsShaped(Emit(kids, pg, keys, sig))
  {
    hide Emit, Shaped, GroupsShaped;
    EmitShaped(kids, pg, keys, sig);
  }

  /** Orphans are steps of their own. */
  lemma StepsShaped(kids: seq<Kid>, groups: seq<ChildGroup>)
    requires KidsShaped(kids) && |groups| == |kids|
    requires forall i :: 0 <= i < |kids| ==> groups[i] == Group(false, false, "", [kids[i].tree])
    ensures GroupsShaped(groups)
  {
    hide Shaped;
  }
}
