/**
 * Tree assembly: indexing the captured spans, the recursive build, surfacing orphan heads, and the
 * completeness guard that refuses a capture whose assembled tree does not account for every span.
 */
module Assembly {
  import opened Ir
  import opened Sorting
  import opened ParentForest
  import opened Siblings
  import opened Runs
  import opened Grouping
  import opened PostHoc
  import opened Loops
  import C = Capture

  type Spans = seq<C.Span>

  /** What canonicalization takes from its configuration and from packages outside this model. */
  datatype Config = Config(
    sig: Signature,
    project: C.Payload -> Header,
    guard: nat,
    postHoc: bool
  )

  // ---- indexes ----

  function IdsOf(spans: Spans): set<string> {
    set s | s in spans :: s.id
  }

  /** `byID`: a later span with the same id replaces an earlier one. */
  function UpOf(spans: Spans): Up {
    if spans == [] then map[]
    else
      var n := |spans| - 1;
      UpOf(spans[..n])[spans[n].id := spans[n].parentId]
  }

  /** `childrenOf`, for a known parent id. */
  function ChildrenOf(spans: Spans, id: string): Spans {
    if spans == [] then []
    else
      var n := |spans| - 1;
      ChildrenOf(spans[..n], id) + if spans[n].parentId == id then [spans[n]] else []
  }

  ghost predicate DistinctIds(spans: Spans) {
    forall i, j :: 0 <= i < j < |spans| ==> spans[i].id != spans[j].id
  }

  lemma {:induction false} UpKeys(spans: Spans)
    ensures forall a :: a in UpOf(spans) <==> a in IdsOf(spans)
    ensures forall s :: s in spans && DistinctIds(spans) ==> UpOf(spans)[s.id] == s.parentId
  {
    if spans != [] {
      var n := |spans| - 1;
      UpKeys(spans[..n]);
      assert spans == spans[..n] + [spans[n]];
      assert forall s :: s in spans <==> s in spans[..n] || s == spans[n];
      if DistinctIds(spans) {
        assert DistinctIds(spans[..n]);
        forall s | s in spans[..n] ensures s.id != spans[n].id {
          var i :| 0 <= i < n && spans[..n][i] == s;
          assert spans[i].id != spans[n].id;
        }
      }
    }
  }

  lemma {:induction false} ChildrenFacts(spans: Spans, id: string)
    ensures forall s :: s in ChildrenOf(spans, id) <==> s in spans && s.parentId == id
  {
    if spans != [] {
      var n := |spans| - 1;
      ChildrenFacts(spans[..n], id);
      assert spans == spans[..n] + [spans[n]];
    }
  }

  /** `byID` after a prefix of the spans: the last span seen under each id. */
  ghost predicate IndexedById(spans: Spans, byId: map<string, C.Span>) {
    && byId.Keys == UpOf(spans).Keys
    && forall a :: a in byId ==> byId[a] in spans && byId[a].id == a && byId[a].parentId == UpOf(spans)[a]
  }

  /** `childrenOf`, for the parents in `ids`, after a prefix of the spans. */
  ghost predicate IndexedByParent(spans: Spans, ids: set<string>, children: map<string, Spans>) {
    forall a :: a in ids ==> Listed(children, a) == ChildrenOf(spans, a)
  }

  function Listed(children: map<string, Spans>, id: string): Spans {
    if id in children then children[id] else []
  }

  lemma IndexStep(spans: Spans, i: nat)
    requires i < |spans|
    ensures spans[..i + 1] == spans[..i] + [spans[i]]
    ensures UpOf(spans[..i + 1]) == UpOf(spans[..i])[spans[i].id := spans[i].parentId]
    ensures forall a :: ChildrenOf(spans[..i + 1], a) ==
                        ChildrenOf(spans[..i], a) + if spans[i].parentId == a then [spans[i]] else []
  {
    assert spans[..i + 1][..i] == spans[..i];
  }

  /** The two indexing loops of `Canonicalize`. */
  method BuildIndex(spans: Spans) returns (byId: map<string, C.Span>, children: map<string, Spans>)
    ensures IndexedById(spans, byId) && byId.Keys == IdsOf(spans)
    ensures IndexedByParent(spans, byId.Keys, children)
  {
    hide UpOf, ChildrenOf;
    byId := map[];
    EmptyIndex();
    assert spans[..0] == [];
    for i := 0 to |spans|
      invariant IndexedById(spans[..i], byId)
    {
      IndexStep(spans, i);
      byId := byId[spans[i].id := spans[i]];
    }
    children := map[];
    for i := 0 to |spans|
      invariant IndexedByParent(spans[..i], byId.Keys, children)
    {
      IndexStep(spans, i);
      var p := spans[i].parentId;
      if p in byId {
        children := children[p := Listed(children, p) + [spans[i]]];
      }
    }
    assert spans[..|spans|] == spans;
    UpKeys(spans);
  }

  lemma EmptyIndex()
    ensures UpOf([]) == map[] && forall a :: ChildrenOf([], a) == []
  {
  }

  // ---- when the recursion comes back ----

  /**
   * `build`, called on a span with this id, comes back within `n` nested calls: it calls itself once for
   * every span listed under the id. Nothing guards that recursion, so on a cycle of children it never does.
   */
  ghost predicate ReturnsWithin(spans: Spans, id: string, n: nat)
    decreases n
  {
    n > 0 && forall k :: k in ChildrenOf(spans, id) ==> ReturnsWithin(spans, k.id, n - 1)
  }

  ghost predicate Returns(spans: Spans, id: string) {
    exists n: nat :: ReturnsWithin(spans, id, n)
  }

  /** Some chain of `k` captured spans, each under the one before, leads from id `a` down to id `b`. */
  ghost predicate NthDown(spans: Spans, a: string, k: nat, b: string)
    decreases k
  {
    if k == 0 then a == b else exists s :: s in spans && s.parentId == a && NthDown(spans, s.id, k - 1, b)
  }

  ghost predicate Below(spans: Spans, a: string, b: string) {
    exists k: nat :: NthDown(spans, a, k, b)
  }

  ghost predicate OnChildCycle(spans: Spans, a: string) {
    exists k: nat :: k > 0 && NthDown(spans, a, k, a)
  }

  lemma {:induction false} ReturnsBelow(spans: Spans, a: string, n: nat, k: nat, b: string)
    requires ReturnsWithin(spans, a, n) && NthDown(spans, a, k, b)
    ensures k < n && ReturnsWithin(spans, b, n - k)
    decreases k
  {
    hide ChildrenOf;
    if k > 0 {
      var s :| s in spans && s.parentId == a && NthDown(spans, s.id, k - 1, b);
      ChildrenFacts(spans, a);
      assert ReturnsWithin(spans, s.id, n - 1);
      ReturnsBelow(spans, s.id, n - 1, k - 1, b);
    }
  }

  lemma {:induction false} CycleNeverReturns(spans: Spans, a: string, k: nat, n: nat)
    requires k > 0 && NthDown(spans, a, k, a)
    ensures !ReturnsWithin(spans, a, n)
    decreases n
  {
    if ReturnsWithin(spans, a, n) {
      ReturnsBelow(spans, a, n, k, a);
      CycleNeverReturns(spans, a, k, n - k);
    }
  }

  /** A call that is still out after `n` nested calls has walked a chain of `n` links. */
  lemma {:induction false} StillOut(spans: Spans, a: string, n: nat) returns (ids: seq<string>)
    requires a in IdsOf(spans) && !ReturnsWithin(spans, a, n)
    ensures |ids| == n + 1 && ids[0] == a && forall x :: x in ids ==> x in IdsOf(spans)
    ensures forall i, j :: 0 <= i <= j < |ids| ==> NthDown(spans, ids[i], j - i, ids[j])
    decreases n
  {
    if n == 0 {
      ids := [a];
    } else {
      ChildrenFacts(spans, a);
      var k :| k in ChildrenOf(spans, a) && !ReturnsWithin(spans, k.id, n - 1);
      var rest := StillOut(spans, k.id, n - 1);
      ids := [a] + rest;
      forall i, j | 0 <= i <= j < |ids| ensures NthDown(spans, ids[i], j - i, ids[j]) {
        if 0 < i {
          assert NthDown(spans, rest[i - 1], (j - 1) - (i - 1), rest[j - 1]);
        } else if 0 < j {
          assert NthDown(spans, rest[0], (j - 1) - 0, rest[j - 1]);
        }
      }
    }
  }

  /** The recursion from an id comes back exactly when no cycle of children hangs below it. */
  lemma ReturnsIff(spans: Spans, a: string)
    requires a in IdsOf(spans)
    ensures Returns(spans, a) <==> forall b :: Below(spans, a, b) ==> !OnChildCycle(spans, b)
    ensures Returns(spans, a) <==> ReturnsWithin(spans, a, |IdsOf(spans)|)
  {
    hide ReturnsWithin, NthDown;
    if Returns(spans, a) {
      var n: nat :| ReturnsWithin(spans, a, n);
      forall b | Below(spans, a, b) ensures !OnChildCycle(spans, b) {
        var k: nat :| NthDown(spans, a, k, b);
        ReturnsBelow(spans, a, n, k, b);
        forall j: nat | j > 0 ensures !NthDown(spans, b, j, b) {
          if NthDown(spans, b, j, b) { CycleNeverReturns(spans, b, j, n - k); }
        }
      }
    }
    if !ReturnsWithin(spans, a, |IdsOf(spans)|) {
      var ids := StillOut(spans, a, |IdsOf(spans)|);
      var i, j := PigeonHole(ids, IdsOf(spans));
      assert NthDown(spans, ids[0], i - 0, ids[i]);
      assert NthDown(spans, ids[i], j - i, ids[j]);
      assert Below(spans, a, ids[i]) && OnChildCycle(spans, ids[i]);
    }
  }

  /** With distinct ids the child lists are the parent links, so whatever hangs from a head comes back. */
  lemma {:induction false} GroundedReturns(spans: Spans, a: string, n: nat)
    requires DistinctIds(spans) && Grounded(UpOf(spans), a, n)
    ensures n < |UpOf(spans)| && ReturnsWithin(spans, a, |UpOf(spans)| - n)
    decreases |UpOf(spans)| - n
  {
    hide UpOf, ChildrenOf;
    GroundedBound(UpOf(spans), a, n);
    forall k | k in ChildrenOf(spans, a) ensures ReturnsWithin(spans, k.id, |UpOf(spans)| - n - 1) {
      ChildGrounded(spans, a, n, k);
      GroundedReturns(spans, k.id, n + 1);
    }
  }

  lemma ChildGrounded(spans: Spans, id: string, n: nat, k: C.Span)
    requires DistinctIds(spans) && Grounded(UpOf(spans), id, n) && k in ChildrenOf(spans, id)
    ensures k in spans && Grounded(UpOf(spans), k.id, n + 1) && n + 1 < |UpOf(spans)|
  {
    ChildrenFacts(spans, id);
    UpKeys(spans);
    assert UpOf(spans)[k.id] == id;
    GroundedBound(UpOf(spans), k.id, n + 1);
  }

  // ---- build ----

  /** How one span's built children become groups. */
  ghost function GroupsOf(cfg: Config, pg: nat, kids: seq<Kid>): seq<ChildGroup> {
    if cfg.postHoc
    then Emit(kids, 0, GapKeys(kids, cfg.guard), cfg.sig)
    else Emit(kids, pg, StartKeys(kids, pg), cfg.sig)
  }

  /** The canonical tree under one span, by a recursion that comes back within `n` nested calls. */
  ghost function BuildWithin(cfg: Config, spans: Spans, s: C.Span, n: nat): CanonicalSpan
    requires ReturnsWithin(spans, s.id, n)
    decreases n, 1, 0
  {
    Tree(cfg.project(C.PayloadOf(s)),
         Collapse(GroupsOf(cfg, s.goroutine, BuildKids(cfg, spans, ChildrenOf(spans, s.id), n - 1))))
  }

  ghost function BuildKids(cfg: Config, spans: Spans, kids: Spans, n: nat): (r: seq<Kid>)
    requires forall k :: k in kids ==> ReturnsWithin(spans, k.id, n)
    ensures |r| == |kids|
    ensures forall i :: 0 <= i < |kids| ==> r[i] == Kid(kids[i], BuildWithin(cfg, spans, kids[i], n))
    decreases n, 2, 0
  {
    seq(|kids|, i requires 0 <= i < |kids| => Kid(kids[i], BuildWithin(cfg, spans, kids[i], n)))
  }

  /** The tree does not depend on how generously the calls are counted. */
  lemma {:induction false} BuildSteady(cfg: Config, spans: Spans, s: C.Span, m: nat, n: nat)
    requires ReturnsWithin(spans, s.id, m) && ReturnsWithin(spans, s.id, n)
    ensures BuildWithin(cfg, spans, s, m) == BuildWithin(cfg, spans, s, n)
    decreases m, 1, 0
  {
    hide ChildrenOf, GroupsOf, Collapse;
    KidsSteady(cfg, spans, ChildrenOf(spans, s.id), m - 1, n - 1);
  }

  lemma {:induction false} KidsSteady(cfg: Config, spans: Spans, kids: Spans, m: nat, n: nat)
    requires forall k :: k in kids ==> ReturnsWithin(spans, k.id, m) && ReturnsWithin(spans, k.id, n)
    ensures BuildKids(cfg, spans, kids, m) == BuildKids(cfg, spans, kids, n)
    decreases m, 2, 0
  {
    hide BuildWithin, ReturnsWithin;
    var a, b := BuildKids(cfg, spans, kids, m), BuildKids(cfg, spans, kids, n);
    forall i | 0 <= i < |kids| ensures a[i] == b[i] { BuildSteady(cfg, spans, kids[i], m, n); }
  }

  /** `build`, for a span whose recursion comes back. */
  ghost function Build(cfg: Config, spans: Spans, s: C.Span): CanonicalSpan
    requires Returns(spans, s.id)
  {
    var n: nat :| ReturnsWithin(spans, s.id, n);
    BuildWithin(cfg, spans, s, n)
  }

  lemma BuildIs(cfg: Config, spans: Spans, s: C.Span, n: nat)
    requires ReturnsWithin(spans, s.id, n)
    ensures Returns(spans, s.id) && Build(cfg, spans, s) == BuildWithin(cfg, spans, s, n)
  {
    hide ReturnsWithin, BuildWithin;
    forall m: nat | ReturnsWithin(spans, s.id, m) ensures BuildWithin(cfg, spans, s, m) == BuildWithin(cfg, spans, s, n) {
      BuildSteady(cfg, spans, s, m, n);
    }
  }

  // ---- orphans ----

  /** Spans other than the root whose parent was not captured. */
  function HeadsOf(spans: Spans, ids: set<string>, root: string): Spans {
    if spans == [] then []
    else
      var n := |spans| - 1;
      HeadsOf(spans[..n], ids, root) +
      if spans[n].id != root && spans[n].parentId !in ids then [spans[n]] else []
  }

  lemma {:induction false} HeadsFacts(spans: Spans, ids: set<string>, root: string)
    ensures forall s :: s in HeadsOf(spans, ids, root) <==> s in spans && s.id != root && s.parentId !in ids
  {
    if spans != [] {
      var n := |spans| - 1;
      HeadsFacts(spans[..n], ids, root);
      assert spans == spans[..n] + [spans[n]];
    }
  }

  /** An id the assembly starts from: the root's, or an orphan head's. */
  ghost predicate Starts(spans: Spans, root: string, id: string) {
    id == root || exists h :: h in HeadsOf(spans, IdsOf(spans), root) && h.id == id
  }

  /** Both recursions of the assembly come back: `build` from the root and `build` from every orphan head. */
  ghost predicate AssemblyReturns(spans: Spans, root: string) {
    forall id :: Starts(spans, root, id) ==> Returns(spans, id)
  }

  /** What a caller can check: nothing that hangs from the root or an orphan head is on a cycle of children. */
  lemma AssemblyReturnsIff(spans: Spans, root: C.Span)
    requires root in spans
    ensures AssemblyReturns(spans, root.id) <==>
            forall a, b :: Starts(spans, root.id, a) && Below(spans, a, b) ==> !OnChildCycle(spans, b)
  {
    hide Returns, Below, OnChildCycle;
    HeadsFacts(spans, IdsOf(spans), root.id);
    forall a | Starts(spans, root.id, a)
      ensures Returns(spans, a) <==> forall b :: Below(spans, a, b) ==> !OnChildCycle(spans, b)
    {
      ReturnsIff(spans, a);
    }
  }

  /** A root the assembly can start from: captured, with its parent outside the capture. */
  ghost predicate IsEntry(spans: Spans, root: C.Span) {
    root in spans && root.parentId !in IdsOf(spans)
  }

  /** Distinct ids are enough, parent cycles or not: a cycle has no head. */
  lemma DistinctReturns(spans: Spans, root: C.Span)
    requires DistinctIds(spans) && IsEntry(spans, root)
    ensures AssemblyReturns(spans, root.id)
  {
    UpKeys(spans);
    HeadsFacts(spans, IdsOf(spans), root.id);
    forall id | Starts(spans, root.id, id) ensures Returns(spans, id) {
      assert Grounded(UpOf(spans), id, 0);
      GroundedReturns(spans, id, 0);
    }
  }

  /** Repeated ids are not: the second span `a` is listed under itself, and the guard is never reached. */
  lemma RepeatedIdDiverges(r: C.Span, a: C.Span, n: nat)
    requires r.id == "r" && r.parentId == "" && a.id == "a" && a.parentId == "r"
    ensures var spans := [r, a, a.(parentId := "a")];
            IsEntry(spans, r) && !AssemblyReturns(spans, "r") && !ReturnsWithin(spans, "r", n)
  {
    var again := a.(parentId := "a");
    var spans := [r, a, again];
    assert again in spans && a in spans;
    assert NthDown(spans, again.id, 0, "a");
    assert NthDown(spans, "a", 1, "a");
    assert NthDown(spans, "r", 1, "a") by { assert NthDown(spans, a.id, 0, "a"); }
    assert IsEntry(spans, r) by { assert IdsOf(spans) == {"r", "a"}; }
    forall m: nat ensures !ReturnsWithin(spans, "r", m) {
      if ReturnsWithin(spans, "r", m) {
        ReturnsBelow(spans, "r", m, 1, "a");
        CycleNeverReturns(spans, "a", 1, m - 1);
      }
    }
    assert Starts(spans, "r", "r") && !Returns(spans, "r");
  }

  /** One trailing step per orphan. */
  function PlainGroups(kids: seq<Kid>): (r: seq<ChildGroup>)
    ensures |r| == |kids|
    ensures forall i :: 0 <= i < |kids| ==> r[i] == Group(false, false, "", [kids[i].tree])
  {
    seq(|kids|, i requires 0 <= i < |kids| => Group(false, false, "", [kids[i].tree]))
  }

  /** Spans with the trees built for them. */
  ghost function Built(cfg: Config, spans: Spans, kids: Spans): (r: seq<Kid>)
    requires forall k :: k in kids ==> Returns(spans, k.id)
    ensures |r| == |kids|
    ensures forall i :: 0 <= i < |kids| ==> r[i] == Kid(kids[i], Build(cfg, spans, kids[i]))
  {
    seq(|kids|, i requires 0 <= i < |kids| => Kid(kids[i], Build(cfg, spans, kids[i])))
  }

  ghost function OrphanKids(cfg: Config, spans: Spans, root: string): seq<Kid>
    requires AssemblyReturns(spans, root)
  {
    Built(cfg, spans, HeadsOf(spans, IdsOf(spans), root))
  }

  ghost function Orphans(cfg: Config, spans: Spans, root: string): seq<ChildGroup>
    requires AssemblyReturns(spans, root)
  {
    PlainGroups(StableSort(OrphanKids(cfg, spans, root), ByStartThenSig(cfg.sig)))
  }

  /** The assembled tree: what hangs from the root, then every orphan subtree. */
  ghost function Assemble(cfg: Config, spans: Spans, root: C.Span): CanonicalSpan
    requires AssemblyReturns(spans, root.id)
  {
    assert Starts(spans, root.id, root.id);
    var tree := Build(cfg, spans, root);
    tree.(children := tree.children + Orphans(cfg, spans, root.id))
  }

  /** `build` is its own recursion: the children of a span are built, grouped and collapsed. */
  lemma BuildUnfolds(cfg: Config, spans: Spans, s: C.Span)
    requires Returns(spans, s.id)
    ensures forall k :: k in ChildrenOf(spans, s.id) ==> Returns(spans, k.id)
    ensures Build(cfg, spans, s) ==
            Tree(cfg.project(C.PayloadOf(s)),
                 Collapse(GroupsOf(cfg, s.goroutine, Built(cfg, spans, ChildrenOf(spans, s.id)))))
  {
    hide GroupsOf, Collapse, ChildrenOf;
    var n: nat :| ReturnsWithin(spans, s.id, n);
    var kids := ChildrenOf(spans, s.id);
    forall k | k in kids ensures Returns(spans, k.id) {
      assert ReturnsWithin(spans, k.id, n - 1);
    }
    BuildIs(cfg, spans, s, n);
    KidsAre(cfg, spans, kids, n - 1);
  }

  lemma KidsAre(cfg: Config, spans: Spans, kids: Spans, n: nat)
    requires forall k :: k in kids ==> ReturnsWithin(spans, k.id, n) && Returns(spans, k.id)
    ensures BuildKids(cfg, spans, kids, n) == Built(cfg, spans, kids)
  {
    hide Build, BuildWithin, ReturnsWithin, Returns;
    var a, b := BuildKids(cfg, spans, kids, n), Built(cfg, spans, kids);
    forall i | 0 <= i < |kids| ensures a[i] == b[i] { BuildIs(cfg, spans, kids[i], n); }
  }

  // ---- start ties among orphans ----

  datatype Ranked = Ranked(start: nat, tree: CanonicalSpan)

  function RankLess(sig: Signature): (Ranked, Ranked) -> bool {
    (a: Ranked, b: Ranked) => if a.start != b.start then a.start < b.start else LessBySig(a.tree, b.tree, sig)
  }

  function RankOf(k: Kid): Ranked {
    Ranked(k.span.start, k.tree)
  }

  /** However `sort.Slice` leaves ties, the orphan groups come out the same. */
  lemma OrphanOrderFree(a: seq<Kid>, b: seq<Kid>, sig: Signature)
    requires Injective(sig)
    requires Sorted(a, ByStartThenSig(sig)) && Sorted(b, ByStartThenSig(sig))
    requires multiset(Map(RankOf, a)) == multiset(Map(RankOf, b))
    ensures PlainGroups(a) == PlainGroups(b)
  {
    var ra, rb, less := Map(RankOf, a), Map(RankOf, b), RankLess(sig);
    forall i, j | 0 <= i < j < |ra| ensures !less(ra[j], ra[i]) {
      assert !ByStartThenSig(sig)(a[j], a[i]);
    }
    forall i, j | 0 <= i < j < |rb| ensures !less(rb[j], rb[i]) {
      assert !ByStartThenSig(sig)(b[j], b[i]);
    }
    assert Connex(less) by {
      BySigConnex(sig);
      forall x, y | x != y ensures less(x, y) || less(y, x) {
        assert x.tree != y.tree ==> BySig(sig)(x.tree, y.tree) || BySig(sig)(y.tree, x.tree);
      }
    }
    SortedUnique(ra, rb, less);
    forall i | 0 <= i < |a| ensures PlainGroups(a)[i] == PlainGroups(b)[i] {
      assert ra[i] == rb[i];
    }
  }
}
