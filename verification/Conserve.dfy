/** Nothing is dropped: the subtree of every captured span is in the assembled tree. */
module Conserve {
  import opened Ir
  import opened Sorting
  import opened ParentForest
  import opened Siblings
  import opened Runs
  import opened Grouping
  import opened PostHoc
  import opened Loops
  import opened Assembly
  import opened RunIndependence
  import Shapes
  import C = Capture

  /** `t` is `u`, or hangs below it. */
  ghost predicate Within(t: CanonicalSpan, u: CanonicalSpan)
    decreases u
  {
    t == u || exists g, m :: 0 <= g < |u.children| && 0 <= m < |u.children[g].members| && Within(t, u.children[g].members[m])
  }

  lemma {:induction false} WithinTrans(t: CanonicalSpan, u: CanonicalSpan, v: CanonicalSpan)
    requires Within(t, u) && Within(u, v)
    ensures Within(t, v)
    decreases v
  {
    if u != v {
      var g, m :| 0 <= g < |v.children| && 0 <= m < |v.children[g].members| && Within(u, v.children[g].members[m]);
      WithinTrans(t, u, v.children[g].members[m]);
    }
  }

  lemma ChildWithin(t: CanonicalSpan, u: CanonicalSpan)
    requires Occurs(t, u.children)
    ensures Within(t, u)
  {
    var g :| 0 <= g < |u.children| && t in u.children[g].members;
    var m :| 0 <= m < |u.children[g].members| && u.children[g].members[m] == t;
    assert Within(t, u.children[g].members[m]);
  }

  // ---- grouping keeps every child ----

  lemma {:induction false} TreeAtKey(entries: seq<Entry>, i: nat)
    requires i < |entries|
    ensures entries[i].tree in TreesAt(entries, entries[i].key)
  {
    var n := |entries| - 1;
    if i < n { TreeAtKey(entries[..n], i); }
  }

  lemma {:induction false} GroupsHold(kids: seq<Kid>, pg: nat, keys: seq<nat>, sig: Signature, vs: seq<nat>, i: nat)
    requires |keys| == |kids| && i < |kids| && keys[i] in vs
    ensures Occurs(kids[i].tree, GroupsAt(kids, pg, keys, sig, vs))
  {
    hide OneComponent, Occurs, GroupAt;
    OccursSplit(kids[i].tree, [GroupAt(kids, pg, keys, sig, vs[0])], GroupsAt(kids, pg, keys, sig, vs[1..]));
    if keys[i] == vs[0] {
      KeyedGroupHolds(kids, pg, keys, sig, i);
    } else {
      GroupsHold(kids, pg, keys, sig, vs[1..], i);
    }
  }

  lemma KeyedGroupHolds(kids: seq<Kid>, pg: nat, keys: seq<nat>, sig: Signature, i: nat)
    requires |keys| == |kids| && i < |kids|
    ensures Occurs(kids[i].tree, [GroupAt(kids, pg, keys, sig, keys[i])])
  {
    hide OneComponent, TreesAt;
    var entries := EntriesOf(kids, keys);
    TreeAtKey(entries, i);
    var trees := TreesAt(entries, keys[i]);
    assert kids[i].tree in multiset(trees);
    assert kids[i].tree in multiset(StableSort(trees, BySig(sig)));
    assert kids[i].tree in [GroupAt(kids, pg, keys, sig, keys[i])][0].members;
  }

  lemma KidKept(cfg: Config, pg: nat, kids: seq<Kid>, i: nat)
    requires i < |kids|
    ensures Occurs(kids[i].tree, Collapse(GroupsOf(cfg, pg, kids)))
  {
    hide Collapse, Occurs, GroupsAt, StartKeys, GapKeys, Ascending;
    var keys := if cfg.postHoc then GapKeys(kids, cfg.guard) else StartKeys(kids, pg);
    Shapes.AscendingMembers(ToSet(keys));
    GroupsHold(kids, if cfg.postHoc then 0 else pg, keys, cfg.sig, Ascending(ToSet(keys)), i);
    CollapseKeepsSubtrees(kids[i].tree, GroupsOf(cfg, pg, kids));
  }

  // ---- building keeps every span ----

  /** A span's own tree is among its parent's children. */
  lemma BuiltUnderParent(cfg: Config, spans: Spans, s: C.Span, p: C.Span)
    requires s in spans && s.parentId == p.id && Returns(spans, p.id)
    ensures Returns(spans, s.id) && Occurs(Build(cfg, spans, s), Build(cfg, spans, p).children)
  {
    hide Collapse, GroupsOf, Build, Occurs, Returns;
    var kids := ChildrenOf(spans, p.id);
    ChildrenFacts(spans, p.id);
    BuildUnfolds(cfg, spans, p);
    var i :| 0 <= i < |kids| && kids[i] == s;
    KidKept(cfg, p.goroutine, Built(cfg, spans, kids), i);
  }

  /** Climbing from a span to the head it hangs from, by way of one of the head's children. */
  lemma {:induction false} UnderHead(cfg: Config, spans: Spans, s: C.Span, n: nat) returns (h: C.Span, top: CanonicalSpan)
    requires DistinctIds(spans) && s in spans && Grounded(UpOf(spans), s.id, n)
    ensures h in spans && h.parentId !in IdsOf(spans) && Returns(spans, h.id) && Returns(spans, s.id)
    ensures n == 0 ==> h == s
    ensures n > 0 ==> Occurs(top, Build(cfg, spans, h).children) && Within(Build(cfg, spans, s), top)
    decreases n
  {
    hide Build, Within, Occurs, UpOf, ReturnsWithin, DistinctIds;
    UpKeys(spans);
    GroundedReturns(spans, s.id, n);
    if n == 0 {
      h, top := s, Build(cfg, spans, s);
    } else {
      var p :| p in spans && p.id == s.parentId;
      h, top := UnderHead(cfg, spans, p, n - 1);
      BuiltUnderParent(cfg, spans, s, p);
      var t := Build(cfg, spans, s);
      if n == 1 {
        top := t;
        WithinSelf(t);
      } else {
        ChildWithin(t, Build(cfg, spans, p));
        WithinTrans(t, Build(cfg, spans, p), top);
      }
    }
  }

  lemma WithinSelf(t: CanonicalSpan)
    ensures Within(t, t)
  {
  }

  /** An orphan head's tree is one of the trailing steps. */
  lemma OrphanKept(cfg: Config, spans: Spans, root: string, h: C.Span)
    requires AssemblyReturns(spans, root) && h in spans && h.id != root && h.parentId !in IdsOf(spans)
    ensures Returns(spans, h.id) && Occurs(Build(cfg, spans, h), Orphans(cfg, spans, root))
  {
    hide Build, Returns;
    var heads := HeadsOf(spans, IdsOf(spans), root);
    HeadsFacts(spans, IdsOf(spans), root);
    assert Starts(spans, root, h.id);
    var i :| 0 <= i < |heads| && heads[i] == h;
    var kids := OrphanKids(cfg, spans, root);
    assert kids[i] == Kid(h, Build(cfg, spans, h));
    var sorted := StableSort(kids, ByStartThenSig(cfg.sig));
    assert kids[i] in multiset(sorted);
    var j :| 0 <= j < |sorted| && sorted[j] == kids[i];
    assert Orphans(cfg, spans, root)[j] == Group(false, false, "", [sorted[j].tree]);
    assert Orphans(cfg, spans, root)[j].members[0] == Build(cfg, spans, h);
  }

  /**
   * No span is dropped: on whatever the guard accepts, the tree built for any span but the root hangs
   * in the assembled tree, carrying that span's own header.
   */
  lemma EverySpanIsThere(cfg: Config, spans: Spans, root: C.Span, s: C.Span)
    requires DistinctIds(spans) && Acyclic(UpOf(spans)) && root in spans && AssemblyReturns(spans, root.id) && s in spans
    ensures Returns(spans, s.id) && Build(cfg, spans, s).head == cfg.project(C.PayloadOf(s))
    ensures if s.id == root.id then Build(cfg, spans, s).children <= Assemble(cfg, spans, root).children
            else Within(Build(cfg, spans, s), Assemble(cfg, spans, root))
  {
    hide UpOf, Grounded, Within, Occurs, Orphans, Acyclic, Build, GroupsOf, Collapse, ChildrenOf, Returns, AssemblyReturns, DistinctIds;
    var n := DepthOf(spans, s);
    RootReturns(spans, root.id);
    var h, top := UnderHead(cfg, spans, s, n);
    BuildUnfolds(cfg, spans, s);
    AssembledIs(cfg, spans, root);
    if s.id == root.id {
      SameSpan(spans, s, root);
    } else {
      var t, tree, u := Build(cfg, spans, s), Assemble(cfg, spans, root), Build(cfg, spans, h);
      if h.id == root.id {
        SameSpan(spans, h, root);
        assert n > 0;
        OccursSplit(top, u.children, Orphans(cfg, spans, root.id));
        ChildWithin(top, tree);
        WithinTrans(t, top, tree);
      } else {
        OrphanKept(cfg, spans, root.id, h);
        OccursSplit(u, Build(cfg, spans, root).children, Orphans(cfg, spans, root.id));
        ChildWithin(u, tree);
        if n > 0 {
          ChildWithin(top, u);
          WithinTrans(t, top, u);
          WithinTrans(t, u, tree);
        }
      }
    }
  }

  lemma RootReturns(spans: Spans, root: string)
    requires AssemblyReturns(spans, root)
    ensures Returns(spans, root)
  {
    assert Starts(spans, root, root);
  }

  lemma AssembledIs(cfg: Config, spans: Spans, root: C.Span)
    requires AssemblyReturns(spans, root.id) && Returns(spans, root.id)
    ensures Assemble(cfg, spans, root).children == Build(cfg, spans, root).children + Orphans(cfg, spans, root.id)
  {
  }

  lemma DepthOf(spans: Spans, s: C.Span) returns (n: nat)
    requires Acyclic(UpOf(spans)) && s in spans
    ensures Grounded(UpOf(spans), s.id, n)
  {
    UpKeys(spans);
    AcyclicIffGrounded(UpOf(spans));
    n :| Grounded(UpOf(spans), s.id, n);
  }

  lemma SameSpan(spans: Spans, a: C.Span, b: C.Span)
    requires DistinctIds(spans) && a in spans && b in spans && a.id == b.id
    ensures a == b
  {
    var i :| 0 <= i < |spans| && spans[i] == a;
    var j :| 0 <= j < |spans| && spans[j] == b;
    assert i == j;
  }
}
