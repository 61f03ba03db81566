/**
 * In what order things are listed, and what is kept: the spans of a run, the members of a racing group, the
 * orphans behind the tree, the groups that stand for a repetition, and the nodes that salience filtering keeps.
 */
module Arrangement {
  import opened Ir
  import opened Sorting
  import opened UnionFind
  import opened Siblings
  import opened Runs
  import opened Grouping
  import opened PostHoc
  import opened Assembly
  import opened Loops
  import opened Canonicalize
  import Sc = Scoping
  import Fr = Fragments
  import L = TraceLinks
  import P = Promote
  import Se = Settling
  import C = Capture

  // ---- the spans of a run ----

  function KindName(k: Kind): string {
    match k
    case Server => "server"
    case Client => "client"
    case Internal => "internal"
    case Producer => "producer"
    case Consumer => "consumer"
  }

  lemma KindOrder(a: Kind, b: Kind)
    ensures Sc.KindRank(a) < Sc.KindRank(b) <==> StrLess(KindName(a), KindName(b))
    ensures Sc.KindRank(a) == Sc.KindRank(b) <==> a == b
  {
    KindHeads(a);
    KindHeads(b);
    if KindName(a)[0] == KindName(b)[0] == 'c' { ClientConsumer(); }
    if a == b { StrIrreflexive(KindName(a)); }
  }

  lemma KindHeads(k: Kind)
    ensures KindName(k)[0] == match k case Server => 's' case Client => 'c' case Internal => 'i' case Producer => 'p' case Consumer => 'c'
  {
  }

  lemma ClientConsumer()
    ensures StrLess("client", "consumer") && !StrLess("consumer", "client")
  {
    assert "client"[1..][0] == 'l' && "consumer"[1..][0] == 'o';
  }

  /** Two spans in the order of start, name, kind, parent and id, the texts in byte order. */
  ghost predicate ListedBefore(a: C.Span, b: C.Span) {
    || a.start < b.start
    || (a.start == b.start && FirstDiffers([a.name, KindName(a.kind), a.parentId, a.id], [b.name, KindName(b.kind), b.parentId, b.id]))
  }

  lemma SpanOrderIs(a: C.Span, b: C.Span)
    ensures Sc.SpanLess(a, b) <==> ListedBefore(a, b)
  {
    hide StrLess, BytesBefore;
    var x, y := [a.name, KindName(a.kind), a.parentId, a.id], [b.name, KindName(b.kind), b.parentId, b.id];
    forall k: nat | k < 4 ensures StrLess(x[k], y[k]) <==> BytesBefore(x[k], y[k]) { StrLessIff(x[k], y[k]); }
    forall k: nat | k < 4 ensures StrLess(x[k], y[k]) ==> x[k] != y[k] {
      if x[k] == y[k] { StrIrreflexive(x[k]); }
    }
    KindOrder(a.kind, b.kind);
    KindNames(a.kind, b.kind);
    var k: nat := if x[0] != y[0] then 0 else if x[1] != y[1] then 1 else if x[2] != y[2] then 2 else 3;
    assert x[..k] == y[..k];
    assert a.start == b.start ==> (Sc.SpanLess(a, b) <==> StrLess(x[k], y[k]));
    if m: nat :| m < 4 && x[..m] == y[..m] && BytesBefore(x[m], y[m]) {
      assert forall j :: 0 <= j < m ==> x[..m][j] == x[j] && y[..m][j] == y[j];
      assert m == k;
    }
  }

  lemma KindNames(a: Kind, b: Kind)
    ensures KindName(a) == KindName(b) <==> a == b
  {
    KindHeads(a);
    KindHeads(b);
    assert "client"[1] == 'l' && "consumer"[1] == 'o';
  }

  /** A span belongs to the run that its baggage names; without a run to look for, every span does. */
  predicate NamesRun(s: C.Span, runId: string) {
    runId == "" || ("test.run.id" in s.attrs && s.attrs["test.run.id"] == runId)
  }

  /** What scoping returns: every span of the run as often as it was captured, in that order, and no other. */
  lemma ScopedAre(spans: seq<C.Span>, runId: string, scoped: seq<C.Span>)
    requires multiset(scoped) == multiset(Sc.RunSpans(spans, runId)) && Sorted(scoped, Sc.SpanLess)
    ensures forall s :: multiset(scoped)[s] == if NamesRun(s, runId) then multiset(spans)[s] else 0
    ensures forall i, j :: 0 <= i < j < |scoped| ==> !ListedBefore(scoped[j], scoped[i])
  {
    hide Sc.SpanLess, Sc.RunSpans, ListedBefore;
    forall s ensures multiset(scoped)[s] == if NamesRun(s, runId) then multiset(spans)[s] else 0 { Sc.RunSpansCount(spans, runId, s); }
    forall i, j | 0 <= i < j < |scoped| ensures !ListedBefore(scoped[j], scoped[i]) { SpanOrderIs(scoped[j], scoped[i]); }
  }

  /** An entry is found exactly when one place in the list, and only one, has its parent outside. */
  lemma EntryFoundIff(spans: seq<C.Span>)
    ensures forall i :: L.AloneOnTop(spans, i) ==> Sc.EntryOf(spans) == [spans[i]]
    ensures Sc.EntryOf(spans) != [] ==> exists i :: L.AloneOnTop(spans, i)
  {
    hide Fr.Parentless, Fr.ParentlessAt;
    forall i | L.AloneOnTop(spans, i) ensures Sc.EntryOf(spans) == [spans[i]] { EntryAt(spans, i); }
    if Sc.EntryOf(spans) != [] { OnlyTop(spans); }
  }

  lemma EntryAt(spans: seq<C.Span>, i: int)
    requires L.AloneOnTop(spans, i)
    ensures 0 <= i < |spans| && Sc.EntryOf(spans) == [spans[i]]
  {
    hide Fr.Parentless, Fr.ParentlessAt;
    L.OnTopIs(spans, i);
  }

  lemma OnlyTop(spans: seq<C.Span>)
    requires |Fr.ParentlessAt(spans, |spans|)| == 1
    ensures exists i :: L.AloneOnTop(spans, i)
  {
    hide Fr.Parentless, Fr.ParentlessAt;
    var at := Fr.ParentlessAt(spans, |spans|);
    assert at[0] in at && forall j :: j in at ==> j == at[0];
    assert L.AloneOnTop(spans, at[0]);
  }

  // ---- what a header is computed from ----

  /** A span with this payload, on top of everything a payload leaves out. */
  function WithPayload(rest: C.Span, p: C.Payload): C.Span {
    rest.(name := p.name, kind := p.kind, attrs := p.attrs, status := p.status, errorType := p.errorType, asyncLink := p.asyncLink)
  }

  /** The payload is all of a span but its ids, its clock, its links and its goroutine: put back, it gives the span. */
  lemma PayloadIsTheRest(s: C.Span, rest: C.Span)
    requires rest.traceId == s.traceId && rest.id == s.id && rest.parentId == s.parentId
    requires rest.start == s.start && rest.end == s.end && rest.links == s.links && rest.goroutine == s.goroutine
    ensures WithPayload(rest, C.PayloadOf(s)) == s
  {
  }

  // ---- members of a group ----

  /** Operations in byte order. */
  ghost predicate InOpOrder(members: seq<CanonicalSpan>) {
    forall i, j :: 0 <= i < j < |members| ==> !BytesBefore(members[j].head.op, members[i].head.op)
  }

  /** Equal operations in the order of their signatures. */
  ghost predicate InSignatureOrder(members: seq<CanonicalSpan>, sig: Signature) {
    forall i, j :: 0 <= i < j < |members| && members[i].head.op == members[j].head.op ==>
                     !BytesBefore(sig(members[j]), sig(members[i]))
  }

  lemma SigOrderIs(members: seq<CanonicalSpan>, sig: Signature)
    requires Sorted(members, BySig(sig))
    ensures InOpOrder(members) && InSignatureOrder(members, sig)
  {
    hide StrLess, BytesBefore;
    forall i, j | 0 <= i < j < |members|
      ensures !BytesBefore(members[j].head.op, members[i].head.op)
      ensures members[i].head.op == members[j].head.op ==> !BytesBefore(sig(members[j]), sig(members[i]))
    {
      assert !BySig(sig)(members[j], members[i]);
      StrLessIff(members[j].head.op, members[i].head.op);
      StrLessIff(sig(members[j]), sig(members[i]));
      if members[i].head.op == members[j].head.op { StrIrreflexive(members[i].head.op); }
    }
  }

  /** Whatever the keys, the members of every group are listed by operation, then signature. */
  lemma {:induction false} GroupsListMembers(kids: seq<Kid>, pg: nat, keys: seq<nat>, sig: Signature, vs: seq<nat>, k: nat)
    requires |keys| == |kids| && k < |GroupsAt(kids, pg, keys, sig, vs)|
    ensures InOpOrder(GroupsAt(kids, pg, keys, sig, vs)[k].members) && InSignatureOrder(GroupsAt(kids, pg, keys, sig, vs)[k].members, sig)
  {
    hide TreesAt, StableSort, OneComponent, RaceEdges, InOpOrder, InSignatureOrder;
    if k == 0 {
      BySigWeak(sig);
      StableSortSorted(TreesAt(EntriesOf(kids, keys), vs[0]), BySig(sig));
      SigOrderIs(StableSort(TreesAt(EntriesOf(kids, keys), vs[0]), BySig(sig)), sig);
    } else {
      GroupsListMembers(kids, pg, keys, sig, vs[1..], k - 1);
    }
  }

  /** So in both profiles. */
  lemma MembersInOrder(cfg: Config, pg: nat, kids: seq<Kid>, k: nat)
    requires k < |GroupsOf(cfg, pg, kids)|
    ensures InOpOrder(GroupsOf(cfg, pg, kids)[k].members) && InSignatureOrder(GroupsOf(cfg, pg, kids)[k].members, cfg.sig)
  {
    hide GroupsAt, InOpOrder, InSignatureOrder;
    if cfg.postHoc {
      GroupsListMembers(kids, 0, GapKeys(kids, cfg.guard), cfg.sig, Ascending(ToSet(GapKeys(kids, cfg.guard))), k);
    } else {
      GroupsListMembers(kids, pg, StartKeys(kids, pg), cfg.sig, Ascending(ToSet(StartKeys(kids, pg))), k);
    }
  }

  // ---- orphans ----

  /** Steps behind the root's own children, one for every orphan head, by start, then operation, then signature. */
  ghost predicate OrphanSteps(steps: seq<ChildGroup>, heads: seq<Kid>, sig: Signature) {
    && |steps| == |heads|
    && (forall i :: 0 <= i < |heads| ==> steps[i] == Group(false, false, "", [heads[i].tree]))
    && (forall i, j :: 0 <= i < j < |heads| ==> heads[i].span.start <= heads[j].span.start)
    && (forall i, j :: 0 <= i < j < |heads| && heads[i].span.start == heads[j].span.start ==>
          !BytesBefore(heads[j].tree.head.op, heads[i].tree.head.op))
    && (forall i, j :: 0 <= i < j < |heads| && heads[i].span.start == heads[j].span.start && heads[i].tree.head.op == heads[j].tree.head.op ==>
          !BytesBefore(sig(heads[j].tree), sig(heads[i].tree)))
  }

  lemma OrphansComeLast(cfg: Config, spans: Spans, root: C.Span) returns (heads: seq<Kid>)
    requires AssemblyReturns(spans, root.id)
    ensures Returns(spans, root.id)
    ensures multiset(heads) == multiset(OrphanKids(cfg, spans, root.id))
    ensures var own, all := Build(cfg, spans, root).children, Assemble(cfg, spans, root).children;
            own <= all && OrphanSteps(all[|own|..], heads, cfg.sig)
    ensures Assemble(cfg, spans, root).head == cfg.project(C.PayloadOf(root))
  {
    hide Build, OrphanKids, Returns, StableSort, StrLess, BytesBefore, GroupsOf, Collapse;
    assert Starts(spans, root.id, root.id);
    BuildUnfolds(cfg, spans, root);
    var less, sig := ByStartThenSig(cfg.sig), cfg.sig;
    heads := StableSort(OrphanKids(cfg, spans, root.id), less);
    ByStartThenSigWeak(sig);
    StableSortSorted(OrphanKids(cfg, spans, root.id), less);
    forall i, j | 0 <= i < j < |heads| && heads[i].span.start == heads[j].span.start
      ensures !BytesBefore(heads[j].tree.head.op, heads[i].tree.head.op)
      ensures heads[i].tree.head.op == heads[j].tree.head.op ==> !BytesBefore(sig(heads[j].tree), sig(heads[i].tree))
    {
      assert !less(heads[j], heads[i]);
      StrLessIff(heads[j].tree.head.op, heads[i].tree.head.op);
      StrLessIff(sig(heads[j].tree), sig(heads[i].tree));
      if heads[i].tree.head.op == heads[j].tree.head.op { StrIrreflexive(heads[i].tree.head.op); }
    }
    forall i, j | 0 <= i < j < |heads| ensures heads[i].span.start <= heads[j].span.start { assert !less(heads[j], heads[i]); }
    var own := Build(cfg, spans, root).children;
    assert Assemble(cfg, spans, root).children[|own|..] == PlainGroups(heads);
  }

  // ---- repetition ----

  const REPEATED := "1..*"

  /** A racing or unordered group holds some subtree twice. */
  ghost predicate HoldsTwice(g: ChildGroup) {
    (g.concurrent || g.unordered) && exists i, j :: 0 <= i < j < |g.members| && g.members[i] == g.members[j]
  }

  /** Two groups are the same single step. */
  predicate RepeatsStep(g: ChildGroup, h: ChildGroup) {
    && !g.concurrent && !g.unordered && !h.concurrent && !h.unordered
    && |g.members| == |h.members| == 1 && g.members[0] == h.members[0]
  }

  /** A group is marked exactly when it holds a subtree twice, and its claims stay what they are. */
  lemma GroupMark(g: ChildGroup)
    ensures var c := CollapseGroup(g);
            && c.concurrent == g.concurrent && c.unordered == g.unordered
            && (if HoldsTwice(g) then c.multiplicity == REPEATED && |c.members| < |g.members| else c == g)
  {
    hide Dedup;
    DedupFacts(g.members);
  }

  /** A group that does not repeat the step before it. */
  predicate StartsAt(gs: seq<ChildGroup>, i: nat) {
    i < |gs| && (i == 0 || !RepeatsStep(gs[i - 1], gs[i]))
  }

  /** Where the groups that are left start. */
  ghost predicate RunStarts(gs: seq<ChildGroup>, starts: seq<nat>) {
    && (forall k, l :: 0 <= k < l < |starts| ==> starts[k] < starts[l])
    && forall i: nat :: i in starts <==> StartsAt(gs, i)
  }

  predicate GoesOn(gs: seq<ChildGroup>, i: nat) {
    i + 1 < |gs| && RepeatsStep(gs[i], gs[i + 1])
  }

  /** One group for each, marked exactly when the next one repeats it. */
  ghost predicate FoldedAt(gs: seq<ChildGroup>, starts: seq<nat>, folded: seq<ChildGroup>) {
    |folded| == |starts| && forall k :: 0 <= k < |starts| ==> starts[k] < |gs| && folded[k] == Marked(gs, starts[k])
  }

  function Marked(gs: seq<ChildGroup>, i: nat): ChildGroup
    requires i < |gs|
  {
    if GoesOn(gs, i) then gs[i].(multiplicity := REPEATED) else gs[i]
  }

  lemma SameStepIs(g: ChildGroup, h: ChildGroup)
    ensures SameStep(g, h) <==> RepeatsStep(g, h)
  {
    if RepeatsStep(g, h) { assert g.members == [g.members[0]] && h.members == [h.members[0]]; }
  }

  /** Folding leaves one group for every run of equal steps, marked exactly when the run is longer than one. */
  lemma {:induction false} RunsFold(gs: seq<ChildGroup>) returns (starts: seq<nat>)
    ensures RunStarts(gs, starts) && FoldedAt(gs, starts, FoldRuns(gs))
    decreases |gs|
  {
    hide RepeatsStep, SameStep;
    if gs == [] {
      starts := [];
    } else {
      var n := RunLength(gs[0], gs[1..]);
      var rest := gs[1 + n..];
      var later := RunsFold(rest);
      FoldHead(gs, n, rest);
      RunIs(gs, n);
      starts := [0] + Shifted(later, n + 1);
      StartsAre(gs, n, rest, later, starts);
      FoldsAre(gs, n, rest, later, starts);
    }
  }

  function Shifted(s: seq<nat>, step: nat): (r: seq<nat>)
    ensures |r| == |s| && forall k :: 0 <= k < |s| ==> r[k] == s[k] + step
  {
    seq(|s|, k requires 0 <= k < |s| => s[k] + step)
  }

  lemma RunIs(gs: seq<ChildGroup>, n: nat)
    requires gs != [] && n == RunLength(gs[0], gs[1..])
    ensures n < |gs| && (forall i :: 0 < i <= n ==> RepeatsStep(gs[i - 1], gs[i]))
    ensures n + 1 < |gs| ==> !RepeatsStep(gs[n], gs[n + 1])
  {
    RunFacts(gs[0], gs[1..]);
    forall i | 0 < i <= n ensures RepeatsStep(gs[i - 1], gs[i]) {
      assert SameStep(gs[0], gs[1..][i - 1]);
      if i > 1 { assert SameStep(gs[0], gs[1..][i - 2]); }
      SameStepIs(gs[i - 1], gs[i]);
    }
    if n + 1 < |gs| {
      assert !SameStep(gs[0], gs[1..][n]);
      if n > 0 { assert SameStep(gs[0], gs[1..][n - 1]); }
      SameStepIs(gs[n], gs[n + 1]);
    }
  }

  lemma StartsAre(gs: seq<ChildGroup>, n: nat, rest: seq<ChildGroup>, later: seq<nat>, starts: seq<nat>)
    requires n < |gs| && rest == gs[n + 1..] && RunStarts(rest, later) && starts == [0] + Shifted(later, n + 1)
    requires forall i :: 0 < i <= n ==> RepeatsStep(gs[i - 1], gs[i])
    requires n + 1 < |gs| ==> !RepeatsStep(gs[n], gs[n + 1])
    ensures RunStarts(gs, starts)
  {
    hide RepeatsStep;
    var moved := Shifted(later, n + 1);
    forall i: nat ensures i in starts <==> StartsAt(gs, i) {
      assert i in starts <==> i == 0 || i in moved;
      if i > n {
        var j: nat := i - (n + 1);
        ShiftedIn(later, n + 1, j);
        assert j in later <==> StartsAt(rest, j);
        assert j < |rest| ==> rest[j] == gs[i] && (j > 0 ==> rest[j - 1] == gs[i - 1]);
      } else {
        assert i !in moved;
      }
    }
  }

  lemma ShiftedIn(s: seq<nat>, step: nat, j: nat)
    ensures j + step in Shifted(s, step) <==> j in s
  {
    if j in s { var k :| 0 <= k < |s| && s[k] == j; assert Shifted(s, step)[k] == j + step; }
  }

  lemma FoldsAre(gs: seq<ChildGroup>, n: nat, rest: seq<ChildGroup>, later: seq<nat>, starts: seq<nat>)
    requires gs != [] && n == RunLength(gs[0], gs[1..]) && n < |gs| && rest == gs[n + 1..]
    requires FoldedAt(rest, later, FoldRuns(rest)) && starts == [0] + Shifted(later, n + 1)
    requires FoldRuns(gs) == [Mark(gs[0], n > 0)] + FoldRuns(rest)
    requires forall i :: 0 < i <= n ==> RepeatsStep(gs[i - 1], gs[i])
    requires n + 1 < |gs| ==> !RepeatsStep(gs[n], gs[n + 1])
    ensures FoldedAt(gs, starts, FoldRuns(gs))
  {
    hide RepeatsStep, FoldRuns, GoesOn, RunLength;
    var folded := FoldRuns(gs);
    FirstGoesOn(gs, n);
    forall k | 0 <= k < |starts| ensures starts[k] < |gs| && folded[k] == Marked(gs, starts[k]) {
      if k > 0 {
        var j := later[k - 1];
        assert starts[k] == j + n + 1 && folded[k] == FoldRuns(rest)[k - 1] == Marked(rest, j);
        LaterMark(gs, n, rest, j);
      }
    }
  }

  lemma FirstGoesOn(gs: seq<ChildGroup>, n: nat)
    requires n < |gs| && (forall i :: 0 < i <= n ==> RepeatsStep(gs[i - 1], gs[i]))
    requires n + 1 < |gs| ==> !RepeatsStep(gs[n], gs[n + 1])
    ensures Marked(gs, 0) == Mark(gs[0], n > 0)
  {
    hide RepeatsStep;
    if n > 0 { assert RepeatsStep(gs[1 - 1], gs[1]); }
  }

  lemma LaterMark(gs: seq<ChildGroup>, n: nat, rest: seq<ChildGroup>, j: nat)
    requires n < |gs| && rest == gs[n + 1..] && j < |rest|
    ensures Marked(rest, j) == Marked(gs, j + n + 1)
  {
    hide RepeatsStep;
    assert rest[j] == gs[j + n + 1];
    assert j + 1 < |rest| ==> rest[j + 1] == gs[j + n + 2];
  }

  // ---- salience ----

  /** Important enough to stay, or a waypoint that names its function. */
  predicate Matters(h: Header, threshold: int) {
    h.tier <= threshold || ("flowmap.fqn" in h.attrs && h.attrs["flowmap.fqn"] != "")
  }

  /** What matters stays, as often as before, and as often below a repetition. */
  lemma WhatMattersStays(t: CanonicalSpan, threshold: int, h: Header, looped: bool)
    requires P.Steps(t) && Matters(h, threshold)
    ensures P.Count(P.Contract(t, Salient(threshold), OpOf()), h, false, looped) == P.Count(t, h, false, looped)
  {
    P.ContractCounts(t, Salient(threshold), OpOf(), h, false, looped);
  }

  /** A step that does not matter goes, and its own children take its place. */
  lemma OtherStepsGo(top: Header, leaf: Header, threshold: int)
    requires !Matters(leaf, threshold)
    ensures var t := Tree(top, [Group(false, false, "", [Tree(leaf, [])])]);
            P.Steps(t) && P.Contract(t, Salient(threshold), OpOf()) == Tree(top, [])
  {
    hide P.Slot;
    var keep, inner := Salient(threshold), Tree(leaf, []);
    var g := Group(false, false, "", [inner]);
    LeafStays(leaf, keep);
    OneMember(inner);
    assert P.ContractMembers([inner], keep, OpOf()) == [P.Contract(inner, keep, OpOf())] by { assert [inner][1..] == []; }
    assert P.Slot(g, keep, OpOf()) == [] by { SlotEmpty(leaf, threshold); }
    assert [g][1..] == [] && g.(members := [inner]) == g;
    assert P.ContractGroups([g], keep, OpOf()) == P.Slot(g, keep, OpOf()) + [];
  }

  lemma LeafStays(leaf: Header, keep: Header -> bool)
    ensures P.Steps(Tree(leaf, [])) && P.Contract(Tree(leaf, []), keep, OpOf()) == Tree(leaf, [])
  {
  }

  lemma OneMember(inner: CanonicalSpan)
    requires P.Steps(inner)
    ensures P.StepsMembers([inner]) && P.StepsGroups([Group(false, false, "", [inner])])
  {
    var g := Group(false, false, "", [inner]);
    assert [inner][1..] == [] && [g][1..] == [];
    assert P.StepsMembers([inner]);
  }

  lemma SlotEmpty(leaf: Header, threshold: int)
    requires !Matters(leaf, threshold)
    ensures P.Slot(Group(false, false, "", [Tree(leaf, [])]), Salient(threshold), OpOf()) == []
  {
  }

  /** A child group that says nothing a race or an unordered group around it would not say. */
  predicate Joinable(inner: ChildGroup, g: ChildGroup) {
    && inner.multiplicity == ""
    && ((!inner.concurrent && !inner.unordered) || (inner.concurrent && g.concurrent) || (inner.unordered && !g.concurrent))
  }

  /** What one member of a race or an unordered group leaves: itself, nothing, or the children of a wrapper it was. */
  function Leaves(m: CanonicalSpan, g: ChildGroup, threshold: int): seq<CanonicalSpan> {
    if Matters(m.head, threshold) then [m]
    else if m.children == [] then []
    else if |m.children| == 1 && Joinable(m.children[0], g) then m.children[0].members
    else [m]
  }

  function AllLeaves(ms: seq<CanonicalSpan>, g: ChildGroup, threshold: int): seq<CanonicalSpan> {
    if ms == [] then [] else Leaves(ms[0], g, threshold) + AllLeaves(ms[1..], g, threshold)
  }

  lemma {:induction false} SurvivorsAre(ms: seq<CanonicalSpan>, g: ChildGroup, threshold: int)
    ensures P.AllSurvivors(ms, Salient(threshold), P.KindOf(g)) == AllLeaves(ms, g, threshold)
  {
    if ms != [] { SurvivorsAre(ms[1..], g, threshold); }
  }

  /**
   * What filtering makes of a race or an unordered group: the members that are left keep its claim and its mark;
   * one alone is a plain step with the mark, and none is no group.
   */
  lemma RaceFiltered(g: ChildGroup, threshold: int)
    requires (g.concurrent || g.unordered) && !(g.concurrent && g.unordered)
    ensures var left, r := AllLeaves(g.members, g, threshold), P.Slot(g, Salient(threshold), OpOf());
            if left == [] then r == []
            else if |left| == 1 then r == [Group(false, false, g.multiplicity, left)]
            else |r| == 1 && multiset(r[0].members) == multiset(left) && r[0] == g.(members := r[0].members)
  {
    hide AllLeaves, P.AllSurvivors, StableSort;
    SurvivorsAre(g.members, g, threshold);
  }

  /** What it makes of a step: the step, or its children in its place, which take its mark where they have none. */
  lemma StepFiltered(g: ChildGroup, threshold: int)
    requires !g.concurrent && !g.unordered && |g.members| == 1
    ensures var m, r := g.members[0], P.Slot(g, Salient(threshold), OpOf());
            if Matters(m.head, threshold) then r == [g]
            else |r| == |m.children| && forall k :: 0 <= k < |r| ==>
                   r[k] == m.children[k].(multiplicity := if m.children[k].multiplicity == "" then g.multiplicity else m.children[k].multiplicity)
  {
    SpliceIs(g.members[0].children, g.multiplicity);
  }

  lemma {:induction false} SpliceIs(gs: seq<ChildGroup>, outer: string)
    ensures |P.Splice(gs, outer)| == |gs|
    ensures forall k :: 0 <= k < |gs| ==>
              P.Splice(gs, outer)[k] == gs[k].(multiplicity := if gs[k].multiplicity == "" then outer else gs[k].multiplicity)
  {
    if gs != [] { SpliceIs(gs[1..], outer); }
  }

  /** After filtering, the members of a racing or unordered group are at least two, by operation in byte order. */
  lemma FilteredInOrder(t: CanonicalSpan, threshold: int, k: nat)
    requires P.Steps(t) && k < |P.Contract(t, Salient(threshold), OpOf()).children|
    ensures var g := P.Contract(t, Salient(threshold), OpOf()).children[k];
            g.concurrent || g.unordered ==> |g.members| > 1 && InOpOrder(g.members)
  {
    hide P.Contract, StrLess, BytesBefore, StableSort;
    var r := P.Contract(t, Salient(threshold), OpOf());
    Se.ContractFormed(t, Salient(threshold), OpOf());
    FullAt(r.children, k);
    var g := r.children[k];
    if g.concurrent || g.unordered {
      var less := P.ByOp(OpOf());
      Se.ByOpWeak(OpOf());
      StableSortSorted(g.members, less);
      forall i, j | 0 <= i < j < |g.members| ensures !BytesBefore(g.members[j].head.op, g.members[i].head.op) {
        assert !less(g.members[j], g.members[i]);
        StrLessIff(g.members[j].head.op, g.members[i].head.op);
      }
    }
  }

  lemma {:induction false} FullAt(gs: seq<ChildGroup>, k: nat)
    requires Se.FormedGroups(gs, OpOf()) && k < |gs|
    ensures Se.Full(gs[k], OpOf())
  {
    hide Se.Full;
    if k > 0 { FullAt(gs[1..], k - 1); }
  }
}
