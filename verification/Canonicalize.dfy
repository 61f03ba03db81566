/** The canonicalizer: the stateful passes of `Canonicalize`, each proved against the specification. */
module Canonicalize {
  import opened Ir
  import opened Sorting
  import opened ParentForest
  import opened Siblings
  import opened Runs
  import opened Grouping
  import opened PostHoc
  import opened Loops
  import opened Assembly
  import C = Capture
  import S = Shapes
  import P = Promote

  /** Post hoc, siblings that share a start must tie safely, or their ids would decide the cut. */
  ghost predicate ClockOk(cfg: Config, spans: Spans) {
    cfg.postHoc ==>
      forall i, j :: 0 <= i < j < |spans| && spans[i].parentId == spans[j].parentId && spans[i].parentId in IdsOf(spans) ==>
        TieSafe(spans[i], spans[j], cfg.guard)
  }

  // ---- the completeness guard ----

  /** Everything new in `after` hangs below something, and nothing new is missing its children. */
  ghost predicate WalkedBelow(spans: Spans, before: set<string>, after: set<string>) {
    && before <= after <= IdsOf(spans) + before
    && forall a, k :: a in after && a !in before && k in spans && k.parentId == a ==> k.id in after
  }

  /** Everything new in `after` was led down to from `top`. */
  ghost predicate LedTo(spans: Spans, top: string, before: set<string>, after: set<string>) {
    forall a :: a in after && a !in before ==> Below(spans, top, a)
  }

  /** The recursive `walk` of `reachableIDs`: the seen-set bounds it on any input, cycles included. */
  method WalkDown(spans: Spans, children: map<string, Spans>, s: C.Span, seen: set<string>) returns (after: set<string>)
    requires s in spans && IndexedByParent(spans, IdsOf(spans), children)
    ensures WalkedBelow(spans, seen, after) && s.id in after && LedTo(spans, s.id, seen, after)
    decreases IdsOf(spans) - seen, 1
  {
    hide ChildrenOf, LedTo;
    if s.id in seen {
      NothingLed(spans, s.id, seen);
      return seen;
    }
    after := seen + {s.id};
    SelfLed(spans, s.id, seen);
    var kids := Listed(children, s.id);
    ChildrenFacts(spans, s.id);
    assert kids == ChildrenOf(spans, s.id);
    for i := 0 to |kids|
      invariant WalkedExcept(spans, seen, after, s.id)
      invariant s.id in after && LedTo(spans, s.id, seen, after)
      invariant forall l :: 0 <= l < i ==> kids[l].id in after
    {
      assert kids[i] in ChildrenOf(spans, s.id);
      ghost var before := after;
      after := WalkDown(spans, children, kids[i], after);
      WalkCompose(spans, seen, before, after, s.id);
      LedCompose(spans, s.id, kids[i], seen, before, after);
    }
  }

  /** Closed downwards, except possibly at `open`, whose children are still being visited. */
  ghost predicate WalkedExcept(spans: Spans, before: set<string>, after: set<string>, open: string) {
    && before <= after <= IdsOf(spans) + before
    && forall a, k :: a in after && a !in before && a != open && k in spans && k.parentId == a ==> k.id in after
  }

  lemma WalkCompose(spans: Spans, a: set<string>, b: set<string>, c: set<string>, open: string)
    requires WalkedExcept(spans, a, b, open) && WalkedBelow(spans, b, c)
    ensures WalkedExcept(spans, a, c, open)
  {
  }

  lemma NothingLed(spans: Spans, top: string, seen: set<string>)
    ensures LedTo(spans, top, seen, seen)
  {
  }

  lemma SelfLed(spans: Spans, top: string, seen: set<string>)
    ensures LedTo(spans, top, seen, seen + {top})
  {
    assert NthDown(spans, top, 0, top);
  }

  lemma LedCompose(spans: Spans, top: string, k: C.Span, a: set<string>, b: set<string>, c: set<string>)
    requires k in spans && k.parentId == top && LedTo(spans, top, a, b) && LedTo(spans, k.id, b, c)
    ensures LedTo(spans, top, a, c)
  {
    forall x | x in c && x !in a ensures Below(spans, top, x) {
      if x !in b {
        var n: nat :| NthDown(spans, k.id, n, x);
        assert NthDown(spans, top, n + 1, x);
      }
    }
  }

  /** A start of `reachableIDs`: the root, or the indexed span of an id, when its parent was not captured. */
  ghost predicate Walked(byId: map<string, C.Span>, root: string, id: string) {
    id == root || (id in byId && byId[id].parentId !in byId)
  }

  /** `reachableIDs`: exactly what hangs from the root or from the last span under some parentless id. */
  method ReachableIds(spans: Spans, byId: map<string, C.Span>, root: C.Span, children: map<string, Spans>)
    returns (seen: set<string>)
    requires root in spans && IndexedById(spans, byId) && byId.Keys == IdsOf(spans)
    requires IndexedByParent(spans, IdsOf(spans), children)
    ensures seen <= IdsOf(spans)
    ensures forall a :: a in seen <==> exists top :: Walked(byId, root.id, top) && Below(spans, top, a)
  {
    hide WalkedBelow, HeadsSeen, UpOf, ChildrenOf, IndexedByParent, Below, LedTo, AllLed;
    seen := WalkDown(spans, children, root, {});
    var pending := byId.Keys;
    AllPending(byId, root.id, seen);
    WalkStart(spans, byId, root.id, seen);
    while pending != {}
      invariant pending <= byId.Keys
      invariant WalkedBelow(spans, {}, seen) && root.id in seen
      invariant HeadsSeen(byId, pending, root.id, seen)
      invariant AllLed(spans, byId, root.id, seen)
      decreases |pending|
    {
      var id :| id in pending;
      ghost var before := seen;
      if id != root.id && byId[id].parentId !in byId {
        seen := WalkDown(spans, children, byId[id], seen);
        WalkJoin(spans, before, seen);
        LedJoin(spans, byId, root.id, id, before, seen);
      }
      HeadStep(byId, pending, id, root.id, before, seen);
      pending := pending - {id};
    }
    SeenIsReached(spans, byId, root.id, seen);
  }

  /** Every id seen so far is below a start. */
  ghost predicate AllLed(spans: Spans, byId: map<string, C.Span>, root: string, seen: set<string>) {
    forall a :: a in seen ==> exists top :: Walked(byId, root, top) && Below(spans, top, a)
  }

  lemma WalkStart(spans: Spans, byId: map<string, C.Span>, root: string, seen: set<string>)
    requires LedTo(spans, root, {}, seen)
    ensures AllLed(spans, byId, root, seen)
  {
  }

  lemma LedJoin(spans: Spans, byId: map<string, C.Span>, root: string, top: string, b: set<string>, c: set<string>)
    requires Walked(byId, root, top) && AllLed(spans, byId, root, b) && LedTo(spans, top, b, c)
    ensures AllLed(spans, byId, root, c)
  {
  }

  /** Every orphan head that is no longer pending has been visited. */
  ghost predicate HeadsSeen(byId: map<string, C.Span>, pending: set<string>, root: string, seen: set<string>) {
    forall a :: a in byId && a !in pending && a != root && byId[a].parentId !in byId ==> a in seen
  }

  lemma AllPending(byId: map<string, C.Span>, root: string, seen: set<string>)
    ensures HeadsSeen(byId, byId.Keys, root, seen)
  {
  }

  lemma HeadStep(byId: map<string, C.Span>, pending: set<string>, id: string, root: string,
                 before: set<string>, after: set<string>)
    requires HeadsSeen(byId, pending, root, before) && before <= after
    requires id in byId && id != root && byId[id].parentId !in byId ==> id in after
    ensures HeadsSeen(byId, pending - {id}, root, after)
  {
  }

  lemma WalkJoin(spans: Spans, b: set<string>, c: set<string>)
    requires WalkedBelow(spans, {}, b) && WalkedBelow(spans, b, c)
    ensures WalkedBelow(spans, {}, c) && b <= c
  {
  }

  lemma SeenIsReached(spans: Spans, byId: map<string, C.Span>, root: string, seen: set<string>)
    requires byId.Keys == IdsOf(spans)
    requires WalkedBelow(spans, {}, seen) && root in seen
    requires HeadsSeen(byId, {}, root, seen) && AllLed(spans, byId, root, seen)
    ensures seen <= IdsOf(spans)
    ensures forall a :: a in seen <==> exists top :: Walked(byId, root, top) && Below(spans, top, a)
  {
    forall top, a | Walked(byId, root, top) && Below(spans, top, a) ensures a in seen {
      var k: nat :| NthDown(spans, top, k, a);
      ClosedBelow(spans, seen, top, k, a);
    }
  }

  lemma {:induction false} ClosedBelow(spans: Spans, seen: set<string>, top: string, k: nat, a: string)
    requires WalkedBelow(spans, {}, seen) && top in seen && NthDown(spans, top, k, a)
    ensures a in seen
    decreases k
  {
    if k > 0 {
      var s :| s in spans && s.parentId == top && NthDown(spans, s.id, k - 1, a);
      ClosedBelow(spans, seen, s.id, k - 1, a);
    }
  }

  lemma DistinctAppend(front: Spans, last: C.Span)
    ensures IdsOf(front + [last]) == IdsOf(front) + {last.id}
    ensures DistinctIds(front + [last]) <==> DistinctIds(front) && last.id !in IdsOf(front)
  {
    var spans := front + [last];
    assert forall i :: 0 <= i < |front| ==> spans[i] == front[i] && front[i] in front;
    if DistinctIds(spans) {
      forall s | s in front ensures s.id != last.id {
        var i :| 0 <= i < |front| && front[i] == s;
        assert spans[i].id != spans[|front|].id;
      }
      forall i, j | 0 <= i < j < |front| ensures front[i].id != front[j].id { assert spans[i].id != spans[j].id; }
    }
  }

  lemma {:induction false} DistinctCount(spans: Spans)
    ensures |IdsOf(spans)| <= |spans|
    ensures |IdsOf(spans)| == |spans| <==> DistinctIds(spans)
  {
    if spans == [] {
      assert IdsOf(spans) == {};
    } else {
      hide IdsOf, DistinctIds;
      var n := |spans| - 1;
      DistinctCount(spans[..n]);
      DistinctAppend(spans[..n], spans[n]);
      assert spans == spans[..n] + [spans[n]];
    }
  }

  /** Climbing `k` known parents from `a` to `b` is a chain of `k` spans leading down from `b` to `a`. */
  lemma {:induction false} UpIsDown(spans: Spans, a: string, k: nat, b: string, j: nat, c: string)
    requires DistinctIds(spans) && NthUp(UpOf(spans), a, k, b) && NthDown(spans, a, j, c)
    ensures NthDown(spans, b, k + j, c)
    decreases k
  {
    hide UpOf, DistinctIds;
    if k > 0 {
      UpKeys(spans);
      var s :| s in spans && s.id == a;
      assert NthDown(spans, s.parentId, j + 1, c);
      UpIsDown(spans, s.parentId, k - 1, b, j + 1, c);
    }
  }

  /** An id below a recursion that comes back is its own ancestor at no distance. */
  lemma NoCycleBelow(spans: Spans, top: string, a: string, k: nat)
    requires DistinctIds(spans) && Returns(spans, top) && Below(spans, top, a) && k > 0
    ensures !NthUp(UpOf(spans), a, k, a)
  {
    hide UpOf, DistinctIds, ReturnsWithin, NthUp;
    if NthUp(UpOf(spans), a, k, a) {
      assert NthDown(spans, a, 0, a);
      UpIsDown(spans, a, k, a, 0, a);
      hide NthDown;
      var n: nat :| ReturnsWithin(spans, top, n);
      var j: nat :| NthDown(spans, top, j, a);
      ReturnsBelow(spans, top, n, j, a);
      CycleNeverReturns(spans, a, k, n - j);
    }
  }

  /** A capture whose every id hangs from somewhere the recursion comes back from has no parent cycle. */
  lemma ReachedIsAcyclic(spans: Spans, root: string)
    requires DistinctIds(spans) && AssemblyReturns(spans, root)
    requires forall a :: a in IdsOf(spans) ==> exists top :: Starts(spans, root, top) && Below(spans, top, a)
    ensures Acyclic(UpOf(spans))
  {
    hide UpOf, DistinctIds, HeadsOf, Starts, Below, Returns, NthUp;
    UpKeys(spans);
    forall a, k: nat | a in UpOf(spans) && k > 0 ensures !NthUp(UpOf(spans), a, k, a) {
      var top :| Starts(spans, root, top) && Below(spans, top, a);
      NoCycleBelow(spans, top, a, k);
    }
  }

  /** Without a cycle every id hangs from a head, and no head is missed. */
  lemma {:induction false} GroundedIsReached(spans: Spans, byId: map<string, C.Span>, root: string, a: string, n: nat, k: nat, c: string)
    returns (top: string)
    requires DistinctIds(spans) && IndexedById(spans, byId)
    requires Grounded(UpOf(spans), a, n) && NthDown(spans, a, k, c)
    ensures Walked(byId, root, top) && NthDown(spans, top, k + n, c)
    decreases n
  {
    hide UpOf, DistinctIds;
    UpKeys(spans);
    if n == 0 {
      top := a;
    } else {
      var s :| s in spans && s.id == a;
      assert NthDown(spans, s.parentId, k + 1, c);
      top := GroundedIsReached(spans, byId, root, s.parentId, n - 1, k + 1, c);
    }
  }

  /**
   * The completeness guard accepts exactly when ids are distinct and each hangs from the root or a head.
   * Once the recursions it follows have come back, that is: when ids are distinct and no parent cycle
   * was captured. For a root whose parent is absent it is that on any input.
   */
  method Complete(spans: Spans, byId: map<string, C.Span>, root: C.Span, children: map<string, Spans>) returns (ok: bool)
    requires root in spans && IndexedById(spans, byId) && byId.Keys == IdsOf(spans)
    requires IndexedByParent(spans, IdsOf(spans), children)
    ensures AssemblyReturns(spans, root.id) || IsEntry(spans, root) ==>
              (ok <==> DistinctIds(spans) && Acyclic(UpOf(spans)))
    ensures ok ==> DistinctIds(spans)
  {
    hide UpOf, DistinctIds, Starts, Acyclic, IndexedById, IndexedByParent, Below, Returns;
    var seen := ReachableIds(spans, byId, root, children);
    ok := |seen| == |spans|;
    DistinctCount(spans);
    SubsetCardinality(seen, IdsOf(spans));
    if DistinctIds(spans) {
      if IsEntry(spans, root) { DistinctReturns(spans, root); }
      if AssemblyReturns(spans, root.id) { GuardIsExact(spans, byId, root, seen); }
    }
  }

  lemma GuardIsExact(spans: Spans, byId: map<string, C.Span>, root: C.Span, seen: set<string>)
    requires root in spans && IndexedById(spans, byId) && byId.Keys == IdsOf(spans) && seen <= IdsOf(spans)
    requires forall a :: a in seen <==> exists top :: Walked(byId, root.id, top) && Below(spans, top, a)
    requires DistinctIds(spans) && AssemblyReturns(spans, root.id)
    ensures seen == IdsOf(spans) <==> Acyclic(UpOf(spans))
  {
    hide UpOf, DistinctIds, Acyclic, Returns, Grounded;
    UpKeys(spans);
    if seen == IdsOf(spans) {
      forall a | a in IdsOf(spans) ensures exists top :: Starts(spans, root.id, top) && Below(spans, top, a) {
        var top :| Walked(byId, root.id, top) && Below(spans, top, a);
        HeadsFacts(spans, IdsOf(spans), root.id);
        if top != root.id { assert byId[top] in HeadsOf(spans, IdsOf(spans), root.id); }
        assert Starts(spans, root.id, top);
      }
      ReachedIsAcyclic(spans, root.id);
    }
    if Acyclic(UpOf(spans)) {
      AcyclicIffGrounded(UpOf(spans));
      forall a | a in IdsOf(spans) ensures a in seen {
        var n: nat :| Grounded(UpOf(spans), a, n);
        assert NthDown(spans, a, 0, a);
        var top := GroundedIsReached(spans, byId, root.id, a, n, 0, a);
        assert Below(spans, top, a);
      }
    }
  }

  // ---- the canonicalizer ----

  datatype Flow = Flow(spans: Spans, root: Root, complete: bool)

  datatype Root = NoRoot | RootSpan(span: C.Span)

  datatype Outcome = Incomplete | Rootless | Canonical(tree: CanonicalSpan)

  /** Copies of a subtree met twice among the first `n` members, by operation. */
  ghost predicate RepeatedOp(members: seq<CanonicalSpan>, op: string) {
    exists i, j :: 0 <= i < j < |members| && members[i] == members[j] && members[i].head.op == op
  }

  lemma RepeatedOpStep(members: seq<CanonicalSpan>, m: CanonicalSpan, op: string)
    ensures RepeatedOp(members + [m], op) <==> RepeatedOp(members, op) || (m in members && m.head.op == op)
  {
    var longer := members + [m];
    if RepeatedOp(members, op) {
      var i, j :| 0 <= i < j < |members| && members[i] == members[j] && members[i].head.op == op;
      assert longer[i] == longer[j];
    }
    if m in members && m.head.op == op {
      var i :| 0 <= i < |members| && members[i] == m;
      assert longer[i] == longer[|members|];
    }
  }

  lemma DedupStep(members: seq<CanonicalSpan>, m: CanonicalSpan)
    ensures Dedup(members + [m]) == if m in members then Dedup(members) else Dedup(members) + [m]
  {
    assert (members + [m])[..|members|] == members;
    DedupFacts(members);
  }

  class Canonicalizer {
    const cfg: Config
    var loops: set<string>

    constructor (cfg: Config)
      ensures this.cfg == cfg && loops == {}
    {
      this.cfg := cfg;
      loops := {};
    }

    /** The member loop of `collapseLoops`: drop copies by signature, note their operations. */
    method DedupMembers(members: seq<CanonicalSpan>) returns (deduped: seq<CanonicalSpan>, collapsed: bool)
      requires Injective(cfg.sig)
      modifies this
      ensures deduped == Dedup(members)
      ensures collapsed <==> |Dedup(members)| < |members|
      ensures forall op :: op in loops <==> op in old(loops) || RepeatedOp(members, op)
    {
      hide Dedup, RepeatedOp;
      deduped, collapsed := [], false;
      var seen: set<string> := {};
      assert members[..0] == [];
      DedupFacts([]);
      NoRepeats();
      for k := 0 to |members|
        invariant deduped == Dedup(members[..k])
        invariant |deduped| <= k && (collapsed <==> |deduped| < k)
        invariant forall m :: cfg.sig(m) in seen <==> m in members[..k]
        invariant forall op :: op in loops <==> op in old(loops) || RepeatedOp(members[..k], op)
      {
        var m := members[k];
        assert members[..k + 1] == members[..k] + [m];
        DedupStep(members[..k], m);
        forall op ensures RepeatedOp(members[..k + 1], op) <==>
                          RepeatedOp(members[..k], op) || (m in members[..k] && m.head.op == op) {
          RepeatedOpStep(members[..k], m, op);
        }
        if cfg.sig(m) in seen {
          collapsed := true;
          loops := loops + {m.head.op};
        } else {
          seen := seen + {cfg.sig(m)};
          deduped := deduped + [m];
        }
      }
      assert members[..|members|] == members;
    }

    lemma NoRepeats()
      ensures forall op :: !RepeatedOp([], op)
    {
    }

    method CollapseLoops(groups: seq<ChildGroup>) returns (out: seq<ChildGroup>)
      requires Injective(cfg.sig)
      modifies this
      ensures out == Collapse(groups)
      ensures forall op :: op in loops <==> op in old(loops) || Folds(groups, op)
    {
      var each: seq<ChildGroup> := [];
      for gi := 0 to |groups|
        invariant |each| == gi && forall k :: 0 <= k < gi ==> each[k] == CollapseGroup(groups[k])
        invariant forall op :: op in loops <==> op in old(loops) || RacyRepeats(groups[..gi], op)
      {
        var g := groups[gi];
        assert groups[..gi + 1] == groups[..gi] + [g];
        forall op ensures RacyRepeats(groups[..gi + 1], op) <==> RacyRepeats(groups[..gi], op) || RacyRepeat(g, op) {
          RacyRepeatsStep(groups[..gi], g, op);
        }
        if g.concurrent || g.unordered {
          var deduped, collapsed := DedupMembers(g.members);
          if collapsed {
            g := g.(multiplicity := LOOP, members := deduped);
          }
        }
        each := each + [g];
      }
      assert groups[..|groups|] == groups;
      assert each == CollapseEach(groups);
      label Deduped:
      out := FoldSteps(each);
      forall op ensures StepRepeat(each, op) <==> StepRepeat(groups, op) {
        StepsUntouched(groups, op);
      }
    }

    /** The second loop of `collapseLoops`: fold runs of equal consecutive steps. */
    method FoldSteps(groups: seq<ChildGroup>) returns (out: seq<ChildGroup>)
      requires Injective(cfg.sig)
      modifies this
      ensures out == FoldRuns(groups)
      ensures forall op :: op in loops <==> op in old(loops) || StepRepeat(groups, op)
    {
      hide FoldRuns, RunLength, StepRepeat, StepRepeatBefore;
      out := [];
      var i := 0;
      NoRepeatYet(groups);
      FoldNone();
      while i < |groups|
        invariant 0 <= i <= |groups|
        invariant out + FoldRuns(groups[i..]) == FoldRuns(groups)
        invariant 0 < i < |groups| ==> !SameStep(groups[i - 1], groups[i])
        invariant forall op :: op in loops <==> op in old(loops) || StepRepeatBefore(groups, i, op)
      {
        var g := groups[i];
        var j := i + 1;
        if g.concurrent || g.unordered || |g.members| != 1 {
          assert !Step(g);
          NotAStep(g, groups[i + 1..]);
        } else {
          var sig := cfg.sig(g.members[0]);
          ghost var known := loops;
          while j < |groups| && !groups[j].concurrent && !groups[j].unordered && |groups[j].members| == 1
                && cfg.sig(groups[j].members[0]) == sig
            invariant i < j <= |groups| && loops == known
            invariant forall k :: i < k < j ==> SameStep(g, groups[k])
            invariant RunLength(g, groups[i + 1..]) == (j - i - 1) + RunLength(g, groups[j..])
          {
            RunGoesOn(g, groups, j);
            j := j + 1;
          }
          RunEnds(g, groups, j);
          if j - i > 1 {
            g := g.(multiplicity := LOOP);
            loops := loops + {g.members[0].head.op};
          }
        }
        FoldStep(groups, i, j, out, g);
        forall op ensures StepRepeatBefore(groups, j, op) <==>
                          StepRepeatBefore(groups, i, op) || (j - i > 1 && LedBy(g, op)) {
          RepeatExtends(groups, i, j, op);
        }
        out := out + [g];
        i := j;
      }
      assert groups[|groups|..] == [];
      AllRepeats(groups);
    }

    /** `build`: the span's own header, then its children built, grouped and collapsed. */
    method BuildSpan(spans: Spans, children: map<string, Spans>, s: C.Span, ghost n: nat) returns (tree: CanonicalSpan)
      requires Injective(cfg.sig)
      requires IndexedByParent(spans, IdsOf(spans), children)
      requires s in spans && ReturnsWithin(spans, s.id, n)
      modifies this
      ensures ClockOk(cfg, spans) ==> tree == BuildWithin(cfg, spans, s, n)
      ensures tree.head == cfg.project(C.PayloadOf(s)) && S.Shaped(tree)
      ensures old(loops) <= loops
      decreases n, 1
    {
      hide ChildrenOf, Emit, Collapse, StartKeys, GapKeys, S.Shaped, S.GroupsShaped;
      var kids := Listed(children, s.id);
      assert kids == ChildrenOf(spans, s.id);
      ChildrenFacts(spans, s.id);
      var built := BuildEach(spans, children, kids, n - 1);
      var groups := OrderSiblings(s.goroutine, built);
      if ClockOk(cfg, spans) {
        BuiltSafe(cfg, spans, built, s.id);
      }
      S.CollapseShaped(groups);
      groups := CollapseLoops(groups);
      tree := Tree(cfg.project(C.PayloadOf(s)), groups);
      S.ShapedIffGroups(tree);
    }

    method BuildEach(spans: Spans, children: map<string, Spans>, kids: Spans, ghost n: nat) returns (built: seq<Kid>)
      requires Injective(cfg.sig)
      requires IndexedByParent(spans, IdsOf(spans), children)
      requires forall k :: k in kids ==> k in spans && ReturnsWithin(spans, k.id, n)
      modifies this
      ensures |built| == |kids| && forall i :: 0 <= i < |kids| ==> built[i].span == kids[i]
      ensures ClockOk(cfg, spans) ==> built == BuildKids(cfg, spans, kids, n)
      ensures S.KidsShaped(built)
      ensures old(loops) <= loops
      decreases n, 2
    {
      hide ReturnsWithin, BuildWithin, S.Shaped, S.KidsShaped;
      built := [];
      S.NoKids();
      for i := 0 to |kids|
        invariant |built| == i && forall k :: 0 <= k < i ==> built[k].span == kids[k]
        invariant ClockOk(cfg, spans) ==> built == BuildKids(cfg, spans, kids[..i], n)
        invariant S.KidsShaped(built)
        invariant old(loops) <= loops
      {
        assert kids[..i + 1][..i] == kids[..i];
        var tree := BuildSpan(spans, children, kids[i], n);
        S.KidsAppend(built, Kid(kids[i], tree));
        built := built + [Kid(kids[i], tree)];
      }
      assert kids[..|kids|] == kids;
    }

    /** `group`, once the children are built: nothing to order, or one of the two profiles. */
    method OrderSiblings(pg: nat, kids: seq<Kid>) returns (groups: seq<ChildGroup>)
      requires Injective(cfg.sig)
      ensures (cfg.postHoc ==> TiesSafe(kids, cfg.guard)) ==> groups == GroupsOf(cfg, pg, kids)
      ensures S.KidsShaped(kids) ==> S.GroupsShaped(groups)
    {
      hide S.KidsShaped, S.GroupShaped, CutAtGaps, Emit;
      if kids == [] {
        NoGroups(cfg, pg);
        return [];
      }
      if cfg.postHoc {
        groups := OrderPostHoc(kids, cfg.guard, cfg.sig);
        if S.KidsShaped(kids) { S.PostHocShaped(kids, cfg.guard, cfg.sig, groups); }
      } else {
        groups := OrderInProcess(kids, pg, cfg.sig);
        if S.KidsShaped(kids) { S.InProcessShaped(kids, pg, StartKeys(kids, pg), cfg.sig); }
      }
    }

    /** `orphans`: every head without a captured parent becomes a trailing step of its own. */
    method SurfaceOrphans(spans: Spans, byId: map<string, C.Span>, root: C.Span, children: map<string, Spans>)
      returns (extra: seq<ChildGroup>)
      requires Injective(cfg.sig)
      requires byId.Keys == IdsOf(spans) && IndexedByParent(spans, IdsOf(spans), children)
      requires AssemblyReturns(spans, root.id)
      modifies this
      ensures ClockOk(cfg, spans) ==> extra == Orphans(cfg, spans, root.id)
      ensures S.GroupsShaped(extra)
      ensures old(loops) <= loops
    {
      hide ChildrenOf, ReturnsWithin, Build, S.KidsShaped, S.GroupsShaped;
      var heads: Spans := [];
      assert spans[..0] == [];
      for i := 0 to |spans|
        invariant heads == HeadsOf(spans[..i], IdsOf(spans), root.id)
      {
        assert spans[..i + 1][..i] == spans[..i];
        if spans[i].id != root.id && spans[i].parentId !in byId {
          heads := heads + [spans[i]];
        }
      }
      assert spans[..|spans|] == spans;
      ghost var n := |IdsOf(spans)|;
      HeadsReturn(spans, root.id, n);
      var built := BuildEach(spans, children, heads, n);
      KidsAre(cfg, spans, heads, n);
      ByStartThenSigWeak(cfg.sig);
      var ordered := SortSlice(built, ByStartThenSig(cfg.sig));
      StableSortSorted(built, ByStartThenSig(cfg.sig));
      MapMultiset(RankOf, ordered, StableSort(built, ByStartThenSig(cfg.sig)));
      OrphanOrderFree(ordered, StableSort(built, ByStartThenSig(cfg.sig)), cfg.sig);
      extra := PlainGroups(ordered);
      S.KidsReordered(built, ordered);
      S.StepsShaped(ordered, extra);
    }

    /**
     * `Canonicalize` up to salience filtering, in its own order: the tree is built before the guard looks
     * at the capture, so the whole comes back only where the recursion does.
     */
    method Run(flow: Flow) returns (outcome: Outcome)
      requires Injective(cfg.sig)
      requires flow.complete && flow.root.RootSpan? ==> flow.root.span in flow.spans && AssemblyReturns(flow.spans, flow.root.span.id)
      modifies this
      ensures !flow.complete ==> outcome == Incomplete
      ensures flow.complete && flow.root.NoRoot? ==> outcome == Rootless
      ensures flow.complete && flow.root.RootSpan? ==>
                if DistinctIds(flow.spans) && Acyclic(UpOf(flow.spans)) then outcome.Canonical? else outcome == Incomplete
      ensures ClockOk(cfg, flow.spans) ==> outcome == OutcomeOf(cfg, flow)
      ensures !flow.complete || flow.root.NoRoot? ==> loops == old(loops)
      ensures outcome.Canonical? ==> S.Shaped(outcome.tree)
    {
      hide UpOf, ChildrenOf, ReturnsWithin, Acyclic, Build, Orphans, ClockOk, S.Shaped, S.GroupShaped;
      if !flow.complete {
        return Incomplete;
      }
      if flow.root.NoRoot? {
        return Rootless;
      }
      var spans, root := flow.spans, flow.root.span;
      var byId, children := BuildIndex(spans);
      ghost var n := |IdsOf(spans)|;
      assert Starts(spans, root.id, root.id);
      ReturnsIff(spans, root.id);
      BuildIs(cfg, spans, root, n);
      var tree := BuildSpan(spans, children, root, n);
      var extra := SurfaceOrphans(spans, byId, root, children);
      var accepted := Complete(spans, byId, root, children);
      if !accepted {
        return Incomplete;
      }
      outcome := Canonical(tree.(children := tree.children + extra));
      S.ShapedIffGroups(tree);
      S.ShapedIffGroups(outcome.tree);
    }

    /**
     * `Canonicalize`: the assembled tree with everything below the salience threshold contracted away.
     * Every tree the assembly can produce is well-formed, so the contraction cannot panic.
     */
    method Snapshot(flow: Flow, threshold: int) returns (outcome: Outcome)
      requires Injective(cfg.sig)
      requires flow.complete && flow.root.RootSpan? ==> flow.root.span in flow.spans && AssemblyReturns(flow.spans, flow.root.span.id)
      modifies this
      ensures !flow.complete ==> outcome == Incomplete
      ensures flow.complete && flow.root.NoRoot? ==> outcome == Rootless
      ensures flow.complete && flow.root.RootSpan? ==>
                if DistinctIds(flow.spans) && Acyclic(UpOf(flow.spans)) then outcome.Canonical? else outcome == Incomplete
      ensures outcome.Canonical? ==> S.Shaped(outcome.tree)
      ensures outcome.Canonical? && ClockOk(cfg, flow.spans) ==>
                && P.Steps(Assemble(cfg, flow.spans, flow.root.span))
                && outcome.tree == P.Contract(Assemble(cfg, flow.spans, flow.root.span), Salient(threshold), OpOf())
    {
      hide UpOf, Acyclic, Assemble, AssemblyReturns, P.Steps, P.OneClaim, P.Contract;
      outcome := Run(flow);
      if outcome.Canonical? {
        var r := P.FilterSpan(outcome.tree, Salient(threshold), OpOf());
        P.ContractShape(outcome.tree, Salient(threshold), OpOf());
        outcome := Canonical(r.tree);
      }
    }
  }

  /** What canonicalization makes of a capture whose assembly comes back, up to salience filtering. */
  ghost function OutcomeOf(cfg: Config, flow: Flow): Outcome
    requires flow.complete && flow.root.RootSpan? ==> AssemblyReturns(flow.spans, flow.root.span.id)
  {
    if !flow.complete then Incomplete
    else if flow.root.NoRoot? then Rootless
    else if DistinctIds(flow.spans) && Acyclic(UpOf(flow.spans)) then Canonical(Assemble(cfg, flow.spans, flow.root.span))
    else Incomplete
  }

  lemma HeadsReturn(spans: Spans, root: string, n: nat)
    requires AssemblyReturns(spans, root) && n == |IdsOf(spans)|
    ensures forall s :: s in HeadsOf(spans, IdsOf(spans), root) ==>
              s in spans && Returns(spans, s.id) && ReturnsWithin(spans, s.id, n)
  {
    hide Returns, ReturnsWithin;
    HeadsFacts(spans, IdsOf(spans), root);
    forall s | s in HeadsOf(spans, IdsOf(spans), root) ensures Returns(spans, s.id) && ReturnsWithin(spans, s.id, n) {
      assert Starts(spans, root, s.id);
      ReturnsIff(spans, s.id);
    }
  }


  /** Kept: important enough, or a tagged waypoint. */
  function Salient(threshold: int): Header -> bool {
    (h: Header) => h.tier <= threshold || (FQN_TAG in h.attrs && h.attrs[FQN_TAG] != "")
  }

  function OpOf(): Header -> string {
    (h: Header) => h.op
  }

  lemma NoGroups(cfg: Config, pg: nat)
    ensures GroupsOf(cfg, pg, []) == []
  {
    assert ToSet(StartKeys([], pg)) == {} && ToSet(GapKeys([], cfg.guard)) == {};
  }

  /** The children listed under a captured span inherit the tie condition. */
  lemma BuiltSafe(cfg: Config, spans: Spans, built: seq<Kid>, parent: string)
    requires ClockOk(cfg, spans) && parent in IdsOf(spans)
    requires |built| == |ChildrenOf(spans, parent)|
    requires forall i :: 0 <= i < |built| ==> built[i].span == ChildrenOf(spans, parent)[i]
    ensures cfg.postHoc ==> TiesSafe(built, cfg.guard)
  {
    hide ChildrenOf, TieSafe;
    if cfg.postHoc {
      forall i, j | 0 <= i < j < |built| ensures TieSafe(built[i].span, built[j].span, cfg.guard) {
        var a, b := ListedAt(spans, parent, i, j);
      }
    }
  }

  /** Two places in a child list are two places in the capture. */
  lemma {:induction false} ListedAt(spans: Spans, id: string, i: nat, j: nat) returns (a: nat, b: nat)
    requires i < j < |ChildrenOf(spans, id)|
    ensures a < b < |spans| && spans[a] == ChildrenOf(spans, id)[i] && spans[b] == ChildrenOf(spans, id)[j]
    ensures spans[a].parentId == id && spans[b].parentId == id
  {
    var n := |spans| - 1;
    var c := ChildrenOf(spans[..n], id);
    if j < |c| {
      a, b := ListedAt(spans[..n], id, i, j);
    } else {
      ChildrenFacts(spans[..n], id);
      assert c[i] in spans[..n];
      a :| 0 <= a < n && spans[..n][a] == c[i];
      b := n;
    }
  }

  lemma FoldNone()
    ensures FoldRuns([]) == []
  {
  }

  lemma NotAStep(g: ChildGroup, gs: seq<ChildGroup>)
    requires !Step(g)
    ensures RunLength(g, gs) == 0
  {
  }

  /** Emitting one representative advances the fold past its run. */
  lemma FoldStep(groups: seq<ChildGroup>, i: nat, j: nat, out: seq<ChildGroup>, g: ChildGroup)
    requires i < j <= |groups|
    requires RunLength(groups[i], groups[i + 1..]) == j - i - 1
    requires g == Mark(groups[i], j - i > 1)
    ensures out + FoldRuns(groups[i..]) == (out + [g]) + FoldRuns(groups[j..])
  {
    hide FoldRuns, RunLength;
    var s := groups[i..];
    assert s[0] == groups[i] && s[1..] == groups[i + 1..] && s[1 + (j - i - 1)..] == groups[j..];
    FoldHead(s, j - i - 1, groups[j..]);
    assert out + ([g] + FoldRuns(groups[j..])) == (out + [g]) + FoldRuns(groups[j..]);
  }

  lemma RunGoesOn(g: ChildGroup, groups: seq<ChildGroup>, j: nat)
    requires Step(g) && j < |groups| && Step(groups[j]) && groups[j].members[0] == g.members[0]
    ensures SameStep(g, groups[j]) && RunLength(g, groups[j..]) == 1 + RunLength(g, groups[j + 1..])
  {
    assert groups[j].members == [groups[j].members[0]] && g.members == [g.members[0]];
    assert groups[j..][0] == groups[j] && groups[j..][1..] == groups[j + 1..];
  }

  lemma RunEnds(g: ChildGroup, groups: seq<ChildGroup>, j: nat)
    requires j <= |groups| && (j < |groups| ==> !SameStep(g, groups[j]))
    ensures RunLength(g, groups[j..]) == 0
  {
    if j < |groups| { assert groups[j..][0] == groups[j]; }
  }

  lemma NoRepeatYet(groups: seq<ChildGroup>)
    ensures forall op :: !StepRepeatBefore(groups, 0, op)
  {
  }

  lemma AllRepeats(groups: seq<ChildGroup>)
    ensures forall op :: StepRepeatBefore(groups, |groups|, op) <==> StepRepeat(groups, op)
  {
  }

  lemma RacyRepeatsStep(gs: seq<ChildGroup>, g: ChildGroup, op: string)
    ensures RacyRepeats(gs + [g], op) <==> RacyRepeats(gs, op) || RacyRepeat(g, op)
  {
    var longer := gs + [g];
    if RacyRepeats(gs, op) {
      var i :| 0 <= i < |gs| && RacyRepeat(gs[i], op);
      assert RacyRepeat(longer[i], op);
    }
    if RacyRepeat(g, op) {
      assert RacyRepeat(longer[|gs|], op);
    }
  }

  /** A repeated pair of steps that ends before position `n`. */
  ghost predicate StepRepeatBefore(gs: seq<ChildGroup>, n: nat, op: string)
    requires n <= |gs|
  {
    exists i: nat :: i + 1 < n && RepeatAt(gs, i, op)
  }

  predicate LedBy(g: ChildGroup, op: string) {
    g.members != [] && g.members[0].head.op == op
  }

  lemma RepeatExtends(groups: seq<ChildGroup>, i: nat, j: nat, op: string)
    requires i < j <= |groups|
    requires 0 < i ==> !SameStep(groups[i - 1], groups[i])
    requires forall k :: i < k < j ==> SameStep(groups[i], groups[k])
    ensures StepRepeatBefore(groups, j, op) <==>
            StepRepeatBefore(groups, i, op) || (j - i > 1 && LedBy(groups[i], op))
  {
    if StepRepeatBefore(groups, j, op) {
      var k: nat :| k + 1 < j && RepeatAt(groups, k, op);
      assert k + 1 == i ==> !SameStep(groups[i - 1], groups[i]);
    }
    if j - i > 1 && LedBy(groups[i], op) {
      assert RepeatAt(groups, i, op);
    }
  }

  /** Removing copies inside racing groups leaves the steps alone. */
  lemma StepsUntouched(groups: seq<ChildGroup>, op: string)
    ensures StepRepeat(CollapseEach(groups), op) <==> StepRepeat(groups, op)
  {
    hide RepeatAt;
    var each := CollapseEach(groups);
    if StepRepeat(groups, op) {
      var i: nat :| RepeatAt(groups, i, op);
      StepUntouched(groups, i, op);
    }
    if StepRepeat(each, op) {
      var i: nat :| RepeatAt(each, i, op);
      StepUntouched(groups, i, op);
    }
  }

  lemma StepUntouched(groups: seq<ChildGroup>, i: nat, op: string)
    ensures RepeatAt(CollapseEach(groups), i, op) <==> RepeatAt(groups, i, op)
  {
    hide CollapseGroup;
    if i + 1 < |groups| {
      CollapseGroupFacts(groups[i]);
      CollapseGroupFacts(groups[i + 1]);
    }
  }
}
