/** Scoping a raw span set to one run: the spans of the run in a reproducible order, and their one root. */
module Scoping {
  import opened Ir
  import opened Sorting
  import opened Assembly
  import opened Fragments
  import C = Capture

  const CORRELATION_KEY := "test.run.id"

  predicate InRun(s: C.Span, runId: string) {
    runId == "" || C.Attr(s, CORRELATION_KEY) == runId
  }

  function RunSpans(spans: Spans, runId: string): Spans {
    if spans == [] then []
    else
      var n := |spans| - 1;
      RunSpans(spans[..n], runId) + if InRun(spans[n], runId) then [spans[n]] else []
  }

  lemma {:induction false} RunSpansCount(spans: Spans, runId: string, s: C.Span)
    ensures multiset(RunSpans(spans, runId))[s] == if InRun(s, runId) then multiset(spans)[s] else 0
  {
    if spans != [] {
      var n := |spans| - 1;
      RunSpansCount(spans[..n], runId, s);
      assert spans == spans[..n] + [spans[n]];
    }
  }

  /** The byte order of the kind names. */
  function KindRank(k: Kind): nat {
    match k
    case Client => 0
    case Consumer => 1
    case Internal => 2
    case Producer => 3
    case Server => 4
  }

  predicate SpanLess(a: C.Span, b: C.Span) {
    if a.start != b.start then a.start < b.start
    else if a.name != b.name then StrLess(a.name, b.name)
    else if KindRank(a.kind) != KindRank(b.kind) then KindRank(a.kind) < KindRank(b.kind)
    else if a.parentId != b.parentId then StrLess(a.parentId, b.parentId)
    else StrLess(a.id, b.id)
  }

  lemma SpanAsymmetric(a: C.Span, b: C.Span)
    requires SpanLess(a, b)
    ensures !SpanLess(b, a)
  {
    hide StrLess;
    StrOrder();
  }

  lemma SpanCotransitive(a: C.Span, b: C.Span, c: C.Span)
    requires SpanLess(a, c)
    ensures SpanLess(a, b) || SpanLess(b, c)
  {
    hide StrLess;
    StrOrder();
    assert StrLess(a.name, c.name) ==> StrLess(a.name, b.name) || StrLess(b.name, c.name);
    assert StrLess(a.parentId, c.parentId) ==> StrLess(a.parentId, b.parentId) || StrLess(b.parentId, c.parentId);
    assert StrLess(a.id, c.id) ==> StrLess(a.id, b.id) || StrLess(b.id, c.id);
    assert a.name != b.name ==> StrLess(a.name, b.name) || StrLess(b.name, a.name);
    assert a.parentId != b.parentId ==> StrLess(a.parentId, b.parentId) || StrLess(b.parentId, a.parentId);
  }

  lemma SpanOrder()
    ensures StrictWeak(SpanLess)
  {
    forall a, b | SpanLess(a, b) ensures !SpanLess(b, a) { SpanAsymmetric(a, b); }
    forall a, b, c | SpanLess(a, c) ensures SpanLess(a, b) || SpanLess(b, c) { SpanCotransitive(a, b, c); }
  }

  lemma DistinctNeverTie(a: C.Span, b: C.Span)
    requires a.id != b.id
    ensures SpanLess(a, b) || SpanLess(b, a)
  {
    hide StrLess;
    StrOrder();
  }

  /** Spans with distinct ids have one sorted arrangement. */
  lemma {:induction false} OneArrangement(a: Spans, b: Spans)
    requires DistinctIds(a) && multiset(a) == multiset(b)
    requires Sorted(a, SpanLess) && Sorted(b, SpanLess)
    ensures a == b
  {
    hide SpanLess;
    SameLength(a, b);
    if a != [] {
      SameHead(a, b);
      TailMultiset(a);
      TailMultiset(b);
      OneArrangement(a[1..], b[1..]);
      assert a == [a[0]] + a[1..] && b == [b[0]] + b[1..];
    }
  }

  lemma SameHead(a: Spans, b: Spans)
    requires DistinctIds(a) && multiset(a) == multiset(b) && a != [] && b != []
    requires Sorted(a, SpanLess) && Sorted(b, SpanLess)
    ensures a[0] == b[0]
  {
    assert a[0] in multiset(b) && b[0] in multiset(a);
    var i :| 0 <= i < |b| && b[i] == a[0];
    var j :| 0 <= j < |a| && a[j] == b[0];
    assert i == 0 || !SpanLess(b[i], b[0]);
    assert j == 0 || !SpanLess(a[j], a[0]);
    if j > 0 { DistinctNeverTie(a[0], a[j]); }
  }

  /** The entry of a span set, when exactly one span's parent lies outside it. */
  ghost function EntryOf(spans: Spans): seq<C.Span> {
    var parentless := ParentlessAt(spans, |spans|);
    if |parentless| == 1 then [spans[parentless[0]]] else []
  }

  /** `Scope`: the run's spans, sorted, and the entry if it is unambiguous. */
  method Scope(spans: Spans, runId: string) returns (scoped: Spans, root: seq<C.Span>)
    ensures multiset(scoped) == multiset(RunSpans(spans, runId)) && Sorted(scoped, SpanLess)
    ensures root == EntryOf(scoped)
  {
    hide SpanLess, RunSpans;
    var kept := KeepRun(spans, runId);
    SpanOrder();
    scoped := SortSlice(kept, SpanLess);
    root := FindEntry(scoped);
  }

  method KeepRun(spans: Spans, runId: string) returns (kept: Spans)
    ensures kept == RunSpans(spans, runId)
  {
    kept := [];
    assert spans[..0] == [];
    for i := 0 to |spans|
      invariant kept == RunSpans(spans[..i], runId)
    {
      assert spans[..i + 1][..i] == spans[..i];
      if InRun(spans[i], runId) {
        kept := kept + [spans[i]];
      }
    }
    assert spans[..|spans|] == spans;
  }

  /** The second parentless span makes the entry ambiguous. */
  method FindEntry(spans: Spans) returns (root: seq<C.Span>)
    ensures root == EntryOf(spans)
  {
    hide IdsOf, ParentlessAt;
    ParentlessStart(spans);
    var ids := set s | s in spans :: s.id;
    assert ids == IdsOf(spans) by { IdsAre(spans); }
    root := [];
    for i := 0 to |spans|
      invariant |ParentlessAt(spans, i)| <= 1
      invariant root == if |ParentlessAt(spans, i)| == 1 then [spans[ParentlessAt(spans, i)[0]]] else []
    {
      ParentlessStep(spans, i);
      if spans[i].parentId !in ids {
        if root == [] {
          root := [spans[i]];
        } else {
          MoreParentless(spans, i + 1, |spans|);
          return [];
        }
      }
    }
  }

  lemma IdsAre(spans: Spans)
    ensures IdsOf(spans) == set s | s in spans :: s.id
  {
  }

  lemma {:induction false} MoreParentless(spans: Spans, i: nat, n: nat)
    requires i <= n <= |spans|
    ensures |ParentlessAt(spans, i)| <= |ParentlessAt(spans, n)|
  {
    hide ParentlessAt;
    if i < n {
      ParentlessStep(spans, n - 1);
      MoreParentless(spans, i, n - 1);
    }
  }

  lemma ParentlessStart(spans: Spans)
    ensures ParentlessAt(spans, 0) == []
  {
  }

  lemma ParentlessStep(spans: Spans, i: nat)
    requires i < |spans|
    ensures ParentlessAt(spans, i + 1) == ParentlessAt(spans, i) + if spans[i].parentId !in IdsOf(spans) then [i] else []
  {
  }

  /** Arrival order does not matter: neither to the scoped spans nor to the root. */
  lemma ScopeOrderFree(a: Spans, b: Spans, runId: string, x: Spans, y: Spans)
    requires DistinctIds(a) && multiset(a) == multiset(b)
    requires multiset(x) == multiset(RunSpans(a, runId)) && Sorted(x, SpanLess)
    requires multiset(y) == multiset(RunSpans(b, runId)) && Sorted(y, SpanLess)
    ensures x == y && EntryOf(x) == EntryOf(y)
  {
    hide SpanLess, RunSpans;
    assert multiset(x) == multiset(y) by {
      forall s ensures multiset(x)[s] == multiset(y)[s] {
        RunSpansCount(a, runId, s);
        RunSpansCount(b, runId, s);
      }
    }
    ScopedDistinct(a, runId, x);
    OneArrangement(x, y);
  }

  lemma ScopedDistinct(a: Spans, runId: string, x: Spans)
    requires DistinctIds(a) && multiset(x) == multiset(RunSpans(a, runId))
    ensures DistinctIds(x)
  {
    hide RunSpans;
    var p := FindPermutation(x, RunSpans(a, runId));
    RunDistinct(a, runId);
    forall i, j | 0 <= i < j < |x| ensures x[i].id != x[j].id {
      assert p[i] < p[j] || p[j] < p[i];
    }
  }

  lemma {:induction false} RunDistinct(a: Spans, runId: string)
    requires DistinctIds(a)
    ensures DistinctIds(RunSpans(a, runId)) && forall s :: s in RunSpans(a, runId) ==> s in a
  {
    if a != [] {
      var n := |a| - 1;
      var front := RunSpans(a[..n], runId);
      RunDistinct(a[..n], runId);
      assert a == a[..n] + [a[n]];
      forall i | 0 <= i < |front| ensures front[i].id != a[n].id {
        assert front[i] in front;
        var k :| 0 <= k < n && a[..n][k] == front[i];
        assert a[k].id != a[n].id;
      }
    }
  }

  /** A root found by scoping is an entry the assembly can start from, with no orphan head beside it. */
  lemma ScopedEntryIsWhole(spans: Spans)
    requires EntryOf(spans) != []
    ensures IsEntry(spans, EntryOf(spans)[0])
    ensures HeadsOf(spans, IdsOf(spans), EntryOf(spans)[0].id) == []
  {
    var parentless, root := ParentlessAt(spans, |spans|), EntryOf(spans)[0];
    assert parentless[0] in parentless;
    forall s | s in spans ensures s.id == root.id || s.parentId in IdsOf(spans) {
      var i :| 0 <= i < |spans| && spans[i] == s;
      if Parentless(spans, s) { assert i in parentless; }
    }
    NoHeads(spans, root.id);
  }

  /** `AgreedStamp`: blanks are ignored, and two different stamps agree on none. */
  method AgreedStamp(stamps: seq<string>) returns (stamp: string, ok: bool)
    ensures ok <==> forall i, j :: 0 <= i < |stamps| && 0 <= j < |stamps| && stamps[i] != "" && stamps[j] != "" ==> stamps[i] == stamps[j]
    ensures stamp != "" <==> ok && exists i :: 0 <= i < |stamps| && stamps[i] != ""
    ensures stamp != "" ==> stamp in stamps
  {
    stamp := "";
    for i := 0 to |stamps|
      invariant stamp == "" ==> forall j :: 0 <= j < i ==> stamps[j] == ""
      invariant stamp != "" ==> stamp in stamps[..i] && forall j :: 0 <= j < i ==> stamps[j] == "" || stamps[j] == stamp
    {
      if stamps[i] == "" {
        continue;
      }
      if stamp == "" {
        stamp := stamps[i];
      } else if stamp != stamps[i] {
        return "", false;
      }
    }
    return stamp, true;
  }
}
