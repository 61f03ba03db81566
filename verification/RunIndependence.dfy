/**
 * The headline claim of canonicalization: two captures of the same run-independent content, differing
 * only in span ids and in the order the spans arrived, assemble to the same tree.
 */
module RunIndependence {
  import opened Ir
  import opened Sorting
  import opened ParentForest
  import opened Siblings
  import opened Runs
  import opened Grouping
  import opened PostHoc
  import opened Loops
  import opened Assembly
  import opened Canonicalize
  import C = Capture

  /** A renaming of span ids, one to one on every id and parent id that occurs. */
  ghost predicate Renaming(spans: Spans, rho: map<string, string>) {
    && (forall s :: s in spans ==> s.id in rho && s.parentId in rho)
    && (forall a, b :: a in rho && b in rho && rho[a] == rho[b] ==> a == b)
  }

  /** The same span under another name: trace ids and links, which assembly never reads, are free. */
  ghost predicate Renamed(a: C.Span, b: C.Span, rho: map<string, string>) {
    && a.id in rho && a.parentId in rho
    && b.id == rho[a.id] && b.parentId == rho[a.parentId]
    && C.PayloadOf(a) == C.PayloadOf(b)
    && a.start == b.start && a.end == b.end && a.goroutine == b.goroutine
  }

  /** Another arrival order and another choice of ids for the same captured spans. */
  ghost predicate SameRun(spans: Spans, spans': Spans, rho: map<string, string>, p: seq<nat>) {
    && |spans| == |spans'| && Permutation(p, |spans|) && Renaming(spans, rho)
    && forall i :: 0 <= i < |spans| ==> Renamed(spans[i], spans'[p[i]], rho)
  }

  lemma RenamedIn(spans: Spans, spans': Spans, rho: map<string, string>, p: seq<nat>, s: C.Span)
    returns (s': C.Span)
    requires SameRun(spans, spans', rho, p) && s in spans
    ensures s' in spans' && Renamed(s, s', rho)
  {
    var i :| 0 <= i < |spans| && spans[i] == s;
    s' := spans'[p[i]];
  }

  lemma RenamedFrom(spans: Spans, spans': Spans, rho: map<string, string>, p: seq<nat>, s': C.Span)
    returns (s: C.Span)
    requires SameRun(spans, spans', rho, p) && s' in spans'
    ensures s in spans && Renamed(s, s', rho)
  {
    var j :| 0 <= j < |spans'| && spans'[j] == s';
    PermutationOnto(p, |spans|);
    assert j in p;
    var i :| 0 <= i < |p| && p[i] == j;
    s := spans[i];
  }

  lemma PairApart(spans: Spans, spans': Spans, rho: map<string, string>, p: seq<nat>, a: nat, b: nat)
    requires SameRun(spans, spans', rho, p) && DistinctIds(spans) && a < |spans| && b < |spans| && a != b
    ensures spans'[p[a]].id != spans'[p[b]].id
  {
    assert Renamed(spans[a], spans'[p[a]], rho) && Renamed(spans[b], spans'[p[b]], rho);
    assert a < b ==> spans[a].id != spans[b].id;
    assert b < a ==> spans[b].id != spans[a].id;
  }

  lemma DistinctTransfers(spans: Spans, spans': Spans, rho: map<string, string>, p: seq<nat>)
    requires SameRun(spans, spans', rho, p) && DistinctIds(spans)
    ensures DistinctIds(spans')
  {
    hide Renamed;
    PermutationOnto(p, |spans|);
    forall i, j | 0 <= i < j < |spans'| ensures spans'[i].id != spans'[j].id {
      assert i in p && j in p;
      var a :| 0 <= a < |p| && p[a] == i;
      var b :| 0 <= b < |p| && p[b] == j;
      PairApart(spans, spans', rho, p, a, b);
    }
  }

  lemma SpanOf(spans: Spans, a: string) returns (s: C.Span)
    requires a in UpOf(spans)
    ensures s in spans && s.id == a
  {
    UpKeys(spans);
    s :| s in spans && s.id == a;
  }

  lemma SpanLink(spans: Spans, s: C.Span)
    requires DistinctIds(spans) && s in spans
    ensures s.id in UpOf(spans) && UpOf(spans)[s.id] == s.parentId
    ensures s.parentId in UpOf(spans) <==> s.parentId in IdsOf(spans)
  {
    UpKeys(spans);
  }

  /** Parent links correspond, so depth below a head does. */
  lemma {:induction false} GroundTransfers(spans: Spans, spans': Spans, rho: map<string, string>, p: seq<nat>,
                                           a: string, n: nat)
    requires SameRun(spans, spans', rho, p) && DistinctIds(spans) && DistinctIds(spans')
    requires Grounded(UpOf(spans), a, n)
    ensures a in rho && Grounded(UpOf(spans'), rho[a], n)
    decreases n
  {
    hide UpOf, SameRun, DistinctIds;
    var s := SpanOf(spans, a);
    var s' := RenamedIn(spans, spans', rho, p, s);
    SpanLink(spans, s);
    SpanLink(spans', s');
    if n == 0 {
      AbsentTransfers(spans, spans', rho, p, s.parentId);
    } else {
      GroundTransfers(spans, spans', rho, p, s.parentId, n - 1);
    }
  }

  lemma AbsentTransfers(spans: Spans, spans': Spans, rho: map<string, string>, p: seq<nat>, a: string)
    requires SameRun(spans, spans', rho, p) && a in rho
    ensures a in IdsOf(spans) <==> rho[a] in IdsOf(spans')
  {
    if a in IdsOf(spans) {
      var s :| s in spans && s.id == a;
      var s' := RenamedIn(spans, spans', rho, p, s);
    }
    if rho[a] in IdsOf(spans') {
      var s' :| s' in spans' && s'.id == rho[a];
      var s := RenamedFrom(spans, spans', rho, p, s');
    }
  }

  // ---- selections of spans correspond ----

  /** A selection of one run matched, span by span, with a selection of the other. */
  ghost predicate Paired(a: Spans, b: Spans, rho: map<string, string>, q: seq<nat>) {
    && |a| == |b| && Permutation(q, |a|)
    && forall i :: 0 <= i < |a| ==> Renamed(a[i], b[q[i]], rho)
  }

  /** Positions selected by a membership test, in order. */
  function Pick(keep: seq<bool>): (r: seq<nat>) {
    if keep == [] then []
    else
      var n := |keep| - 1;
      Pick(keep[..n]) + if keep[n] then [n] else []
  }

  lemma {:induction false} PickFacts(keep: seq<bool>)
    ensures forall i: nat :: i in Pick(keep) <==> i < |keep| && keep[i]
    ensures forall a, b :: 0 <= a < b < |Pick(keep)| ==> Pick(keep)[a] < Pick(keep)[b]
  {
    if keep != [] {
      var n := |keep| - 1;
      PickFacts(keep[..n]);
      forall i | 0 <= i < |Pick(keep[..n])| ensures Pick(keep[..n])[i] < n {
        assert Pick(keep[..n])[i] in Pick(keep[..n]);
      }
    }
  }

  function Select(spans: Spans, idxs: seq<nat>): (r: Spans)
    requires Positions(idxs, |spans|)
    ensures |r| == |idxs|
    ensures forall i :: 0 <= i < |idxs| ==> r[i] == spans[idxs[i]]
  {
    seq(|idxs|, i requires 0 <= i < |idxs| => spans[idxs[i]])
  }

  lemma PickPositions(keep: seq<bool>)
    ensures Positions(Pick(keep), |keep|)
  {
    PickFacts(keep);
    forall i | 0 <= i < |Pick(keep)| ensures Pick(keep)[i] < |keep| { assert Pick(keep)[i] in Pick(keep); }
  }

  /** Tests that agree across the two runs select corresponding spans. */
  lemma SelectionsPair(spans: Spans, spans': Spans, rho: map<string, string>, p: seq<nat>,
                       keep: seq<bool>, keep': seq<bool>) returns (q: seq<nat>)
    requires SameRun(spans, spans', rho, p)
    requires |keep| == |spans| && |keep'| == |spans'|
    requires forall i :: 0 <= i < |spans| ==> keep[i] == keep'[p[i]]
    ensures Positions(Pick(keep), |spans|) && Positions(Pick(keep'), |spans'|)
    ensures Paired(Select(spans, Pick(keep)), Select(spans', Pick(keep')), rho, q)
  {
    PickPositions(keep);
    PickPositions(keep');
    PickFacts(keep);
    PickFacts(keep');
    PermutationOnto(p, |spans|);
    var a, b := Pick(keep), Pick(keep');
    var image := seq(|a|, i requires 0 <= i < |a| => p[a[i]]);
    forall i, j | 0 <= i < j < |image| ensures image[i] != image[j] {
      assert a[i] < a[j];
    }
    forall x ensures x in image <==> x in b {
      if x in image {
        var i :| 0 <= i < |image| && image[i] == x;
        assert a[i] in a;
        assert keep[a[i]];
      }
      if x in b {
        assert x in p;
        var i :| 0 <= i < |p| && p[i] == x;
        assert i in a;
        var k :| 0 <= k < |a| && a[k] == i;
        assert image[k] == x;
      }
    }
    DistinctMultiset(image, b);
    q := FindPermutation(image, b);
    forall i | 0 <= i < |a| ensures Renamed(Select(spans, a)[i], Select(spans', b)[q[i]], rho) {
      assert image[i] == b[q[i]];
    }
  }

  function ChildTest(spans: Spans, id: string): (r: seq<bool>)
    ensures |r| == |spans|
    ensures forall i :: 0 <= i < |spans| ==> r[i] == (spans[i].parentId == id)
  {
    seq(|spans|, i requires 0 <= i < |spans| => spans[i].parentId == id)
  }

  lemma {:induction false} ChildrenSelected(spans: Spans, id: string)
    ensures Positions(Pick(ChildTest(spans, id)), |spans|)
    ensures ChildrenOf(spans, id) == Select(spans, Pick(ChildTest(spans, id)))
  {
    PickPositions(ChildTest(spans, id));
    if spans != [] {
      var n := |spans| - 1;
      ChildrenSelected(spans[..n], id);
      assert ChildTest(spans, id)[..n] == ChildTest(spans[..n], id);
    }
  }

  function HeadTest(spans: Spans, ids: set<string>, root: string): (r: seq<bool>)
    ensures |r| == |spans|
    ensures forall i :: 0 <= i < |spans| ==> r[i] == (spans[i].id != root && spans[i].parentId !in ids)
  {
    seq(|spans|, i requires 0 <= i < |spans| => spans[i].id != root && spans[i].parentId !in ids)
  }

  lemma {:induction false} HeadsSelected(spans: Spans, ids: set<string>, root: string)
    ensures Positions(Pick(HeadTest(spans, ids, root)), |spans|)
    ensures HeadsOf(spans, ids, root) == Select(spans, Pick(HeadTest(spans, ids, root)))
  {
    PickPositions(HeadTest(spans, ids, root));
    if spans != [] {
      var n := |spans| - 1;
      HeadsSelected(spans[..n], ids, root);
      assert HeadTest(spans, ids, root)[..n] == HeadTest(spans[..n], ids, root);
    }
  }

  lemma ChildrenPair(spans: Spans, spans': Spans, rho: map<string, string>, p: seq<nat>, id: string)
    returns (q: seq<nat>)
    requires SameRun(spans, spans', rho, p) && id in rho
    ensures Paired(ChildrenOf(spans, id), ChildrenOf(spans', rho[id]), rho, q)
  {
    ChildrenSelected(spans, id);
    ChildrenSelected(spans', rho[id]);
    forall i | 0 <= i < |spans| ensures ChildTest(spans, id)[i] == ChildTest(spans', rho[id])[p[i]] {
      assert Renamed(spans[i], spans'[p[i]], rho);
    }
    q := SelectionsPair(spans, spans', rho, p, ChildTest(spans, id), ChildTest(spans', rho[id]));
  }

  lemma HeadsPair(spans: Spans, spans': Spans, rho: map<string, string>, p: seq<nat>, root: string)
    returns (q: seq<nat>)
    requires SameRun(spans, spans', rho, p) && root in rho
    ensures Paired(HeadsOf(spans, IdsOf(spans), root), HeadsOf(spans', IdsOf(spans'), rho[root]), rho, q)
  {
    var test, test' := HeadTest(spans, IdsOf(spans), root), HeadTest(spans', IdsOf(spans'), rho[root]);
    HeadsSelected(spans, IdsOf(spans), root);
    HeadsSelected(spans', IdsOf(spans'), rho[root]);
    forall i | 0 <= i < |spans| ensures test[i] == test'[p[i]] {
      assert Renamed(spans[i], spans'[p[i]], rho);
      AbsentTransfers(spans, spans', rho, p, spans[i].parentId);
    }
    q := SelectionsPair(spans, spans', rho, p, test, test');
  }

  // ---- the trees are equal ----

  lemma GroupsRunFree(cfg: Config, pg: nat, kids: seq<Kid>, kids': seq<Kid>, q: seq<nat>)
    requires Injective(cfg.sig) && Matches(kids, kids', q)
    ensures GroupsOf(cfg, pg, kids) == GroupsOf(cfg, pg, kids')
  {
    hide Emit, StartKeys, GapKeys;
    forall i | 0 <= i < |kids| ensures Anonymous(kids)[i] == Anonymous(kids')[q[i]] {
      assert SameKid(kids[i], kids'[q[i]]);
    }
    PermutationMultiset(Anonymous(kids), Anonymous(kids'), q);
    InProcessRunFree(kids, kids', pg, cfg.sig);
    PostHocRunFree(kids, kids', cfg.guard, cfg.sig);
  }

  /** The recursion comes back in one run exactly as it does in the other. */
  lemma {:induction false} ReturnsTransfers(spans: Spans, spans': Spans, rho: map<string, string>, p: seq<nat>,
                                            a: string, n: nat)
    requires SameRun(spans, spans', rho, p) && a in rho && ReturnsWithin(spans, a, n)
    ensures ReturnsWithin(spans', rho[a], n)
    decreases n
  {
    hide SameRun;
    ChildrenFacts(spans', rho[a]);
    forall k' | k' in ChildrenOf(spans', rho[a]) ensures ReturnsWithin(spans', k'.id, n - 1) {
      var k := RenamedFrom(spans, spans', rho, p, k');
      SameParent(spans, spans', rho, p, k, k', a);
      ChildrenFacts(spans, a);
      ReturnsTransfers(spans, spans', rho, p, k.id, n - 1);
    }
  }

  lemma SameParent(spans: Spans, spans': Spans, rho: map<string, string>, p: seq<nat>, k: C.Span, k': C.Span, a: string)
    requires SameRun(spans, spans', rho, p) && Renamed(k, k', rho) && a in rho && k'.parentId == rho[a]
    ensures k.parentId == a
  {
  }

  lemma {:induction false} BuildRunFree(cfg: Config, spans: Spans, spans': Spans, rho: map<string, string>, p: seq<nat>,
                                        s: C.Span, s': C.Span, n: nat)
    requires Injective(cfg.sig)
    requires SameRun(spans, spans', rho, p) && Renamed(s, s', rho)
    requires ReturnsWithin(spans, s.id, n) && ReturnsWithin(spans', s'.id, n)
    ensures BuildWithin(cfg, spans, s, n) == BuildWithin(cfg, spans', s', n)
    decreases n, 1
  {
    hide SameRun, ChildrenOf, GroupsOf, Collapse;
    var q := ChildrenPair(spans, spans', rho, p, s.id);
    var a, b := ChildrenOf(spans, s.id), ChildrenOf(spans', s'.id);
    KidsRunFree(cfg, spans, spans', rho, p, a, b, q, n - 1);
    GroupsRunFree(cfg, s.goroutine, BuildKids(cfg, spans, a, n - 1), BuildKids(cfg, spans', b, n - 1), q);
  }

  lemma KidsRunFree(cfg: Config, spans: Spans, spans': Spans, rho: map<string, string>, p: seq<nat>,
                    a: Spans, b: Spans, q: seq<nat>, n: nat)
    requires Injective(cfg.sig)
    requires SameRun(spans, spans', rho, p) && Paired(a, b, rho, q)
    requires forall k :: k in a ==> ReturnsWithin(spans, k.id, n)
    requires forall k :: k in b ==> ReturnsWithin(spans', k.id, n)
    ensures Matches(BuildKids(cfg, spans, a, n), BuildKids(cfg, spans', b, n), q)
    decreases n, 2
  {
    hide BuildWithin, ReturnsWithin, SameRun;
    var kids, kids' := BuildKids(cfg, spans, a, n), BuildKids(cfg, spans', b, n);
    forall i | 0 <= i < |a| ensures SameKid(kids[i], kids'[q[i]]) {
      assert Renamed(a[i], b[q[i]], rho);
      BuildRunFree(cfg, spans, spans', rho, p, a[i], b[q[i]], n);
    }
  }

  lemma StartTransfers(spans: Spans, spans': Spans, rho: map<string, string>, p: seq<nat>, root: string, id': string)
    returns (id: string)
    requires SameRun(spans, spans', rho, p) && root in rho && Starts(spans', rho[root], id')
    ensures Starts(spans, root, id) && id in rho && rho[id] == id'
  {
    if id' == rho[root] {
      id := root;
    } else {
      HeadsFacts(spans, IdsOf(spans), root);
      HeadsFacts(spans', IdsOf(spans'), rho[root]);
      var h' :| h' in HeadsOf(spans', IdsOf(spans'), rho[root]) && h'.id == id';
      var h := RenamedFrom(spans, spans', rho, p, h');
      AbsentTransfers(spans, spans', rho, p, h.parentId);
      assert h in HeadsOf(spans, IdsOf(spans), root);
      id := h.id;
    }
  }

  /** Whether the assembly comes back does not depend on ids or arrival order. */
  lemma AssemblyTransfers(spans: Spans, spans': Spans, rho: map<string, string>, p: seq<nat>, root: string)
    requires SameRun(spans, spans', rho, p) && root in rho && AssemblyReturns(spans, root)
    ensures AssemblyReturns(spans', rho[root])
  {
    hide SameRun, ReturnsWithin, Starts;
    forall id' | Starts(spans', rho[root], id') ensures Returns(spans', id') {
      var id := StartTransfers(spans, spans', rho, p, root, id');
      var n: nat :| ReturnsWithin(spans, id, n);
      ReturnsTransfers(spans, spans', rho, p, id, n);
    }
  }

  lemma OrphansRunFree(cfg: Config, spans: Spans, spans': Spans, rho: map<string, string>, p: seq<nat>, root: string)
    requires Injective(cfg.sig)
    requires SameRun(spans, spans', rho, p) && root in rho
    requires AssemblyReturns(spans, root) && AssemblyReturns(spans', rho[root])
    ensures Orphans(cfg, spans, root) == Orphans(cfg, spans', rho[root])
  {
    hide SameRun, Build, BuildKids, ReturnsWithin, Returns, HeadsOf, AssemblyReturns;
    var a, b := HeadsOf(spans, IdsOf(spans), root), HeadsOf(spans', IdsOf(spans'), rho[root]);
    var n := |IdsOf(spans)|;
    HeadsReturn(spans, root, n);
    HeadsReturn(spans', rho[root], |IdsOf(spans')|);
    var q := HeadsPair(spans, spans', rho, p, root);
    forall k' | k' in b ensures ReturnsWithin(spans', k'.id, n) {
      HeadReturnsToo(spans, spans', rho, p, a, b, q, n, k');
    }
    KidsRunFree(cfg, spans, spans', rho, p, a, b, q, n);
    KidsAre(cfg, spans, a, n);
    KidsAre(cfg, spans', b, n);
    SameOrphans(cfg.sig, OrphanKids(cfg, spans, root), OrphanKids(cfg, spans', rho[root]), q);
  }

  lemma HeadReturnsToo(spans: Spans, spans': Spans, rho: map<string, string>, p: seq<nat>, a: Spans, b: Spans,
                       q: seq<nat>, n: nat, k': C.Span)
    requires SameRun(spans, spans', rho, p) && Paired(a, b, rho, q) && k' in b
    requires forall k :: k in a ==> ReturnsWithin(spans, k.id, n)
    ensures ReturnsWithin(spans', k'.id, n)
  {
    hide SameRun, ReturnsWithin;
    var j :| 0 <= j < |b| && b[j] == k';
    PermutationOnto(q, |a|);
    assert j in q;
    var i :| 0 <= i < |q| && q[i] == j;
    assert Renamed(a[i], b[q[i]], rho);
    ReturnsTransfers(spans, spans', rho, p, a[i].id, n);
  }

  lemma SameOrphans(sig: Signature, kids: seq<Kid>, kids': seq<Kid>, q: seq<nat>)
    requires Injective(sig) && Matches(kids, kids', q)
    ensures PlainGroups(StableSort(kids, ByStartThenSig(sig))) == PlainGroups(StableSort(kids', ByStartThenSig(sig)))
  {
    var less := ByStartThenSig(sig);
    ByStartThenSigWeak(sig);
    StableSortSorted(kids, less);
    StableSortSorted(kids', less);
    MapMultiset(RankOf, StableSort(kids, less), kids);
    MapMultiset(RankOf, StableSort(kids', less), kids');
    forall i | 0 <= i < |kids| ensures Map(RankOf, kids)[i] == Map(RankOf, kids')[q[i]] {
      assert SameKid(kids[i], kids'[q[i]]);
    }
    PermutationMultiset(Map(RankOf, kids), Map(RankOf, kids'), q);
    OrphanOrderFree(StableSort(kids, less), StableSort(kids', less), sig);
  }

  /**
   * Run independence, in both ordering profiles: whatever the span ids and the arrival order, the
   * specified tree is the same, wherever the assembly comes back at all, and so is the clock condition
   * under which it is the tree that is built.
   */
  lemma RunIndependent(cfg: Config, spans: Spans, spans': Spans, rho: map<string, string>, p: seq<nat>,
                       root: C.Span, root': C.Span)
    requires Injective(cfg.sig)
    requires SameRun(spans, spans', rho, p) && AssemblyReturns(spans, root.id) && Renamed(root, root', rho)
    ensures AssemblyReturns(spans', root'.id)
    ensures Assemble(cfg, spans, root) == Assemble(cfg, spans', root')
    ensures ClockOk(cfg, spans) ==> ClockOk(cfg, spans')
  {
    hide SameRun, ReturnsWithin, BuildWithin, Build, Orphans, ClockOk;
    if ClockOk(cfg, spans) { ClockTransfers(cfg, spans, spans', rho, p); }
    AssemblyTransfers(spans, spans', rho, p, root.id);
    assert Starts(spans, root.id, root.id);
    var n: nat :| ReturnsWithin(spans, root.id, n);
    ReturnsTransfers(spans, spans', rho, p, root.id, n);
    BuildIs(cfg, spans, root, n);
    BuildIs(cfg, spans', root', n);
    BuildRunFree(cfg, spans, spans', rho, p, root, root', n);
    OrphansRunFree(cfg, spans, spans', rho, p, root.id);
  }

  /** The tie condition is about the clock alone. */
  lemma ClockTransfers(cfg: Config, spans: Spans, spans': Spans, rho: map<string, string>, p: seq<nat>)
    requires SameRun(spans, spans', rho, p) && ClockOk(cfg, spans)
    ensures ClockOk(cfg, spans')
  {
    if cfg.postHoc {
      PermutationOnto(p, |spans|);
      forall i, j | 0 <= i < j < |spans'| && spans'[i].parentId == spans'[j].parentId && spans'[i].parentId in IdsOf(spans')
        ensures TieSafe(spans'[i], spans'[j], cfg.guard)
      {
        assert i in p && j in p;
        var a :| 0 <= a < |p| && p[a] == i;
        var b :| 0 <= b < |p| && p[b] == j;
        PairTransfers(cfg, spans, spans', rho, p, a, b);
      }
    }
  }

  lemma PairTransfers(cfg: Config, spans: Spans, spans': Spans, rho: map<string, string>, p: seq<nat>, a: nat, b: nat)
    requires SameRun(spans, spans', rho, p) && ClockOk(cfg, spans) && cfg.postHoc
    requires a < |spans| && b < |spans| && a != b
    requires spans'[p[a]].parentId == spans'[p[b]].parentId && spans'[p[a]].parentId in IdsOf(spans')
    ensures TieSafe(spans'[p[a]], spans'[p[b]], cfg.guard)
  {
    assert Renamed(spans[a], spans'[p[a]], rho) && Renamed(spans[b], spans'[p[b]], rho);
    AbsentTransfers(spans, spans', rho, p, spans[a].parentId);
    assert a < b ==> TieSafe(spans[a], spans[b], cfg.guard);
    assert b < a ==> TieSafe(spans[b], spans[a], cfg.guard);
  }

  /** Another arrival order and another choice of ids for a whole capture, verdict and root included. */
  ghost predicate SameFlow(flow: Flow, flow': Flow, rho: map<string, string>, p: seq<nat>) {
    && SameRun(flow.spans, flow'.spans, rho, p) && flow.complete == flow'.complete
    && flow.root.RootSpan? == flow'.root.RootSpan?
    && (flow.root.RootSpan? ==> Renamed(flow.root.span, flow'.root.span, rho))
  }

  /**
   * Two canonicalizations of one run come to the same outcome, refusals included: the clock condition
   * that makes `Run` give this outcome holds of both captures or of neither.
   */
  lemma OutcomeRunFree(cfg: Config, flow: Flow, flow': Flow, rho: map<string, string>, p: seq<nat>)
    requires Injective(cfg.sig) && SameFlow(flow, flow', rho, p)
    requires flow.complete && flow.root.RootSpan? ==> AssemblyReturns(flow.spans, flow.root.span.id)
    ensures flow'.complete && flow'.root.RootSpan? ==> AssemblyReturns(flow'.spans, flow'.root.span.id)
    ensures OutcomeOf(cfg, flow) == OutcomeOf(cfg, flow')
    ensures ClockOk(cfg, flow.spans) <==> ClockOk(cfg, flow'.spans)
  {
    hide SameRun, Assemble, AssemblyReturns, Acyclic, UpOf, DistinctIds, ClockOk;
    GuardRunFree(flow.spans, flow'.spans, rho, p);
    if flow.complete && flow.root.RootSpan? {
      RunIndependent(cfg, flow.spans, flow'.spans, rho, p, flow.root.span, flow'.root.span);
    }
    if ClockOk(cfg, flow.spans) { ClockTransfers(cfg, flow.spans, flow'.spans, rho, p); }
    if ClockOk(cfg, flow'.spans) {
      var rho', q := InverseRun(flow.spans, flow'.spans, rho, p);
      ClockTransfers(cfg, flow'.spans, flow.spans, rho', q);
    }
  }

  ghost function Preimage(rho: map<string, string>, b: string): (a: string)
    requires b in rho.Values
    ensures a in rho && rho[a] == b
  {
    var a :| a in rho && rho[a] == b;
    a
  }

  lemma InverseRun(spans: Spans, spans': Spans, rho: map<string, string>, p: seq<nat>)
    returns (rho': map<string, string>, q: seq<nat>)
    requires SameRun(spans, spans', rho, p)
    ensures SameRun(spans', spans, rho', q)
  {
    rho' := map b | b in rho.Values :: Preimage(rho, b);
    PermutationOnto(p, |spans|);
    q := FindPermutation(Range(|spans|), p);
    forall j | 0 <= j < |spans'| ensures Renamed(spans'[j], spans[q[j]], rho') {
      assert Range(|spans|)[j] == p[q[j]];
      assert Renamed(spans[q[j]], spans'[j], rho);
    }
  }

  /** The guard's verdict does not depend on ids or arrival order either. */
  lemma GuardRunFree(spans: Spans, spans': Spans, rho: map<string, string>, p: seq<nat>)
    requires SameRun(spans, spans', rho, p)
    ensures DistinctIds(spans) && Acyclic(UpOf(spans)) <==> DistinctIds(spans') && Acyclic(UpOf(spans'))
  {
    if DistinctIds(spans) && Acyclic(UpOf(spans)) {
      GuardTransfers(spans, spans', rho, p);
    }
    if DistinctIds(spans') && Acyclic(UpOf(spans')) {
      var rho', q := InverseRun(spans, spans', rho, p);
      GuardTransfers(spans', spans, rho', q);
    }
  }

  lemma GuardTransfers(spans: Spans, spans': Spans, rho: map<string, string>, p: seq<nat>)
    requires SameRun(spans, spans', rho, p)
    requires DistinctIds(spans) && Acyclic(UpOf(spans))
    ensures DistinctIds(spans') && Acyclic(UpOf(spans'))
  {
    hide UpOf, Acyclic, Grounded, SameRun;
    DistinctTransfers(spans, spans', rho, p);
    AcyclicIffGrounded(UpOf(spans));
    AcyclicIffGrounded(UpOf(spans'));
    forall b | b in UpOf(spans') ensures HasGround(UpOf(spans'), b) {
      var s' := SpanOf(spans', b);
      var s := RenamedFrom(spans, spans', rho, p, s');
      SpanLink(spans, s);
      var n: nat :| Grounded(UpOf(spans), s.id, n);
      GroundTransfers(spans, spans', rho, p, s.id, n);
    }
  }
}
