/**
 * The tie condition is exact: wherever two siblings do not tie safely, swapping their ids changes
 * what `groupPostHoc` emits for some set of siblings that contains them.
 */
module Ties {
  import opened Ir
  import opened Sorting
  import opened UnionFind
  import opened Siblings
  import opened Runs
  import opened Grouping
  import opened PostHoc
  import C = Capture

  ghost predicate Apart(kids: seq<Kid>) {
    forall i, j :: 0 <= i < j < |kids| ==> !C.Overlaps(kids[i].span, kids[j].span)
  }

  function Lone(k: Kid): Unit {
    Unit([k.tree], k.span.start, k.span.end, k.span.start != 0 && k.span.end != 0)
  }

  function LoneUnits(kids: seq<Kid>): (r: seq<Unit>)
    ensures |r| == |kids|
    ensures forall i :: 0 <= i < |kids| ==> r[i] == Lone(kids[i])
  {
    seq(|kids|, i requires 0 <= i < |kids| => Lone(kids[i]))
  }

  lemma {:induction false} DistinctFirsts(rep: seq<nat>, n: nat)
    requires n <= |rep| && forall i, j :: 0 <= i < j < |rep| ==> rep[i] != rep[j]
    ensures Firsts(rep, n) == Range(n)
  {
    if n > 0 { DistinctFirsts(rep, n - 1); }
  }

  lemma {:induction false} DistinctClass(rep: seq<nat>, i: nat, n: nat)
    requires n <= |rep| && i < |rep| && forall i, j :: 0 <= i < j < |rep| ==> rep[i] != rep[j]
    ensures Class(rep, rep[i], n) == if i < n then [i] else []
  {
    if n > 0 { DistinctClass(rep, i, n - 1); }
  }

  lemma NoEdges(i: nat, j: nat)
    requires i != j
    ensures !Connected({}, i, j)
  {
  }

  lemma ApartComponents(kids: seq<Kid>, rep: seq<nat>)
    requires Apart(kids) && |rep| == |kids| && Labels(rep, RaceEdges(kids, 0))
    ensures |Comps(rep)| == |kids|
    ensures forall k :: 0 <= k < |kids| ==> Comps(rep)[k] == [k]
  {
    assert RaceEdges(kids, 0) == {};
    forall i, j | 0 <= i < j < |rep| ensures rep[i] != rep[j] {
      NoEdges(i, j);
    }
    DistinctFirsts(rep, |rep|);
    forall k | 0 <= k < |kids| ensures Comps(rep)[k] == [k] {
      assert Firsts(rep, |rep|)[k] == k;
      CompFacts(rep, k);
      DistinctClass(rep, k, |rep|);
    }
  }

  /** Siblings that do not overlap are cut one unit each. */
  lemma ApartCut(kids: seq<Kid>, guard: nat, sig: Signature, groups: seq<ChildGroup>)
    requires Apart(kids) && CutAtGaps(kids, guard, sig, groups)
    ensures groups == Blocks(LoneUnits(kids), GapBoundary(guard), sig, 0)
  {
    hide Blocks;
    var rep :| |rep| == |kids| && Labels(rep, RaceEdges(kids, 0))
            && PositionLists(Comps(rep), |kids|)
            && groups == Blocks(UnitsOf(kids, Comps(rep), sig), GapBoundary(guard), sig, 0);
    ApartComponents(kids, rep);
    forall k | 0 <= k < |kids| ensures UnitsOf(kids, Comps(rep), sig)[k] == Lone(kids[k]) {
      LoneUnit(kids, k, sig);
    }
    assert UnitsOf(kids, Comps(rep), sig) == LoneUnits(kids);
  }

  lemma LoneUnit(kids: seq<Kid>, k: nat, sig: Signature)
    requires k < |kids|
    ensures UnitOf(kids, [k], sig) == Lone(kids[k])
  {
    assert TreesOf(kids, [k]) == [kids[k].tree];
  }

  // ---- what two or three lone units become ----

  predicate Gap(a: C.Span, b: C.Span, guard: nat) {
    a.start != 0 && a.end != 0 && b.start != 0 && b.end != 0 && b.start > a.end + guard
  }

  lemma BlocksAt(units: seq<Unit>, boundary: Boundary, sig: Signature, i: nat, j: nat)
    requires i < j <= |units|
    requires forall k :: i < k < j ==> !boundary(units[k - 1], units[k])
    requires j < |units| ==> boundary(units[j - 1], units[j])
    ensures Blocks(units, boundary, sig, i) == [BlockGroup(units[i..j], sig)] + Blocks(units, boundary, sig, j)
  {
    RunEndAt(units, boundary, i + 1, j);
  }

  lemma {:induction false} RunEndAt(units: seq<Unit>, boundary: Boundary, i: nat, j: nat)
    requires 0 < i <= j <= |units|
    requires forall k :: i <= k < j ==> !boundary(units[k - 1], units[k])
    requires j < |units| ==> boundary(units[j - 1], units[j])
    ensures RunEnd(units, boundary, i) == j
    decreases j - i
  {
    if i < j { RunEndAt(units, boundary, i + 1, j); }
  }

  /** The first group of lone siblings: as many as precede the first gap. */
  lemma FirstGroup(kids: seq<Kid>, guard: nat, sig: Signature, n: nat)
    requires 0 < n <= |kids|
    requires forall k :: 0 < k < n ==> !Gap(kids[k - 1].span, kids[k].span, guard)
    requires n < |kids| ==> Gap(kids[n - 1].span, kids[n].span, guard)
    ensures var groups := Blocks(LoneUnits(kids), GapBoundary(guard), sig, 0);
            && groups != []
            && |groups[0].members| == n
            && (n == 1 ==> groups[0].members == [kids[0].tree])
  {
    var units, boundary := LoneUnits(kids), GapBoundary(guard);
    forall k | 0 < k < |kids| ensures boundary(units[k - 1], units[k]) <==> Gap(kids[k - 1].span, kids[k].span, guard) {}
    BlocksAt(units, boundary, sig, 0, n);
    LoneMembers(kids, n);
    assert units[0..n] == units[..n];
    if n == 1 { assert units[..n] == [units[0]]; }
  }

  lemma {:induction false} LoneMembers(kids: seq<Kid>, n: nat)
    requires n <= |kids|
    ensures |MembersOf(LoneUnits(kids)[..n])| == n
  {
    if n > 0 {
      LoneMembers(kids, n - 1);
      assert LoneUnits(kids)[..n][..n - 1] == LoneUnits(kids)[..n - 1];
    }
  }

  // ---- the witness ----

  /** A third sibling that tells the two orders of an unsafe tie apart, where one is needed. */
  function Telltale(a: C.Span, b: C.Span, guard: nat): seq<nat> {
    var s, lo, hi := a.start, if a.end < b.end then a.end else b.end, if a.end < b.end then b.end else a.end;
    if lo == hi || (lo != 0 && hi + guard <= s) then []
    else if lo == 0 then [(if s < hi + guard then hi + guard else s) + 1]
    else [hi + guard]
  }

  function SpanAt(a: C.Span, start: nat): C.Span {
    a.(start := start, end := start + 1)
  }

  function Rest(a: C.Span, b: C.Span, guard: nat, tree: CanonicalSpan): seq<Kid> {
    var t := Telltale(a, b, guard);
    if t == [] then [] else [Kid(SpanAt(a, t[0]), tree)]
  }

  lemma FirstOrder(x: Kid, y: Kid, rest: seq<Kid>, guard: nat, sig: Signature) returns (n: nat)
    requires |rest| <= 1
    requires Apart([x, y] + rest)
    ensures 0 < n <= 2 + |rest|
    ensures n == 1 <==> Gap(x.span, y.span, guard)
    ensures n == 2 <==> !Gap(x.span, y.span, guard) && (rest == [] || Gap(y.span, rest[0].span, guard))
    ensures forall g: seq<ChildGroup> :: CutAtGaps([x, y] + rest, guard, sig, g) ==>
              g != [] && |g[0].members| == n && (n == 1 ==> g[0].members == [x.tree])
  {
    var kids := [x, y] + rest;
    n := if Gap(x.span, y.span, guard) then 1
         else if rest == [] || Gap(y.span, rest[0].span, guard) then 2 else 3;
    FirstGroup(kids, guard, sig, n);
    forall g: seq<ChildGroup> | CutAtGaps(kids, guard, sig, g)
      ensures g != [] && |g[0].members| == n && (n == 1 ==> g[0].members == [x.tree])
    {
      ApartCut(kids, guard, sig, g);
    }
  }

  /** Two namings of one sibling set, each listed in the order of start and id. */
  function NamedRun(a: C.Span, ta: CanonicalSpan, b: C.Span, tb: CanonicalSpan, rest: seq<Kid>,
                    one: string, two: string): seq<Kid> {
    [Kid(a.(id := one), ta), Kid(b.(id := two), tb)] + rest
  }

  lemma NamedRunSorted(a: C.Span, ta: CanonicalSpan, b: C.Span, tb: CanonicalSpan, rest: seq<Kid>,
                       one: string, two: string)
    requires a.start == b.start && StrLess(one, two)
    requires |rest| <= 1 && forall k :: k in rest ==> a.start < k.span.start
    ensures var run := NamedRun(a, ta, b, tb, rest, one, two);
            StableSort(run, ByStartThenId()) == run
  {
    StrLessAsymmetric(one, two);
    SortedStays(NamedRun(a, ta, b, tb, rest, one, two), ByStartThenId());
  }

  lemma SameSiblings(a: C.Span, ta: CanonicalSpan, b: C.Span, tb: CanonicalSpan, rest: seq<Kid>,
                     one: string, two: string)
    ensures multiset(Anonymous(NamedRun(a, ta, b, tb, rest, one, two)))
         == multiset(Anonymous(NamedRun(b, tb, a, ta, rest, one, two)))
  {
    var p := [1, 0] + seq(|rest|, i => i + 2);
    PermutationMultiset(Anonymous(NamedRun(a, ta, b, tb, rest, one, two)),
                        Anonymous(NamedRun(b, tb, a, ta, rest, one, two)), p);
  }

  /** `a` before `b` and `b` before `a` give different groups. */
  lemma UnsafeTieSplits(a: C.Span, b: C.Span, guard: nat, sig: Signature,
                        ta: CanonicalSpan, tb: CanonicalSpan, tc: CanonicalSpan, one: string, two: string)
    requires !TieSafe(a, b, guard) && ta != tb
    ensures var rest := Rest(a, b, guard, tc);
            forall g, h ::
              (CutAtGaps(NamedRun(a, ta, b, tb, rest, one, two), guard, sig, g) &&
               CutAtGaps(NamedRun(b, tb, a, ta, rest, one, two), guard, sig, h)) ==> g != h
  {
    hide CutAtGaps;
    var rest := Rest(a, b, guard, tc);
    var n := FirstOrder(Kid(a.(id := one), ta), Kid(b.(id := two), tb), rest, guard, sig);
    var m := FirstOrder(Kid(b.(id := one), tb), Kid(a.(id := two), ta), rest, guard, sig);
  }

  /**
   * Ids decide: for every pair of siblings that ties unsafely there is a sibling set containing it
   * whose groups change when nothing but the two ids is exchanged.
   */
  lemma IdsDecideUnsafeTies(a: C.Span, b: C.Span, guard: nat, sig: Signature,
                            ta: CanonicalSpan, tb: CanonicalSpan, tc: CanonicalSpan, one: string, two: string)
    requires !TieSafe(a, b, guard) && ta != tb && StrLess(one, two)
    ensures var rest := Rest(a, b, guard, tc);
            var run := NamedRun(a, ta, b, tb, rest, one, two);
            var run' := NamedRun(b, tb, a, ta, rest, one, two);
            && multiset(Anonymous(run)) == multiset(Anonymous(run'))
            && forall g, h ::
                 (CutAtGaps(StableSort(run, ByStartThenId()), guard, sig, g) &&
                  CutAtGaps(StableSort(run', ByStartThenId()), guard, sig, h)) ==> g != h
  {
    hide CutAtGaps;
    var rest := Rest(a, b, guard, tc);
    NamedRunSorted(a, ta, b, tb, rest, one, two);
    NamedRunSorted(b, tb, a, ta, rest, one, two);
    SameSiblings(a, ta, b, tb, rest, one, two);
    UnsafeTieSplits(a, b, guard, sig, ta, tb, tc, one, two);
  }

  // ---- pair by pair ----

  /** All ties but the one between the first two are safe. */
  ghost predicate OthersSafe(kids: seq<Kid>, guard: nat) {
    forall i, j :: 0 <= i < j < |kids| && j > 1 ==> TieSafe(kids[i].span, kids[j].span, guard)
  }

  ghost predicate SameGroups(kids: seq<Kid>, kids': seq<Kid>, guard: nat, sig: Signature) {
    forall g, h ::
      (CutAtGaps(StableSort(kids, ByStartThenId()), guard, sig, g) && CutAtGaps(StableSort(kids', ByStartThenId()), guard, sig, h))
      ==> g == h
  }

  /** Among siblings that otherwise tie safely, exchanging the two ids is never seen. */
  ghost predicate ExchangeSilent(a: C.Span, b: C.Span, guard: nat, sig: Signature,
                                 ta: CanonicalSpan, tb: CanonicalSpan, one: string, two: string) {
    forall rest :: OthersSafe(NamedRun(a, ta, b, tb, rest, one, two), guard) ==>
                     SameGroups(NamedRun(a, ta, b, tb, rest, one, two), NamedRun(b, tb, a, ta, rest, one, two), guard, sig)
  }

  lemma SafeExchange(a: C.Span, b: C.Span, guard: nat, sig: Signature,
                     ta: CanonicalSpan, tb: CanonicalSpan, rest: seq<Kid>, one: string, two: string)
    requires Injective(sig) && TieSafe(a, b, guard) && OthersSafe(NamedRun(a, ta, b, tb, rest, one, two), guard)
    ensures SameGroups(NamedRun(a, ta, b, tb, rest, one, two), NamedRun(b, tb, a, ta, rest, one, two), guard, sig)
  {
    hide CutAtGaps, Emit, GapKeys, Injective, StableSort;
    var run, run' := NamedRun(a, ta, b, tb, rest, one, two), NamedRun(b, tb, a, ta, rest, one, two);
    BothSafe(a, b, guard, ta, tb, rest, one, two);
    SameSiblings(a, ta, b, tb, rest, one, two);
    PostHocRunFree(run, run', guard, sig);
    forall g, h | CutAtGaps(StableSort(run, ByStartThenId()), guard, sig, g) && CutAtGaps(StableSort(run', ByStartThenId()), guard, sig, h)
      ensures g == h
    {
      SafeIsKeyed(run, guard, sig, g);
      SafeIsKeyed(run', guard, sig, h);
    }
  }

  lemma BothSafe(a: C.Span, b: C.Span, guard: nat, ta: CanonicalSpan, tb: CanonicalSpan, rest: seq<Kid>, one: string, two: string)
    requires TieSafe(a, b, guard) && OthersSafe(NamedRun(a, ta, b, tb, rest, one, two), guard)
    ensures TiesSafe(NamedRun(a, ta, b, tb, rest, one, two), guard) && TiesSafe(NamedRun(b, tb, a, ta, rest, one, two), guard)
  {
    var run, run' := NamedRun(a, ta, b, tb, rest, one, two), NamedRun(b, tb, a, ta, rest, one, two);
    assert run[0].span == a.(id := one) && run[1].span == b.(id := two);
    assert run'[0].span == b.(id := one) && run'[1].span == a.(id := two);
    assert forall k :: 2 <= k < |run| ==> run[k] == rest[k - 2] == run'[k];
    forall i, j | 0 <= i < j < |run'| ensures TieSafe(run'[i].span, run'[j].span, guard) {
      if j > 1 { assert TieSafe(run[if i == 0 then 1 else if i == 1 then 0 else i].span, run[j].span, guard); }
    }
  }

  lemma ApartLabels(kids: seq<Kid>)
    requires Apart(kids)
    ensures Labels(Range(|kids|), RaceEdges(kids, 0))
  {
    var rep := Range(|kids|);
    assert RaceEdges(kids, 0) == {};
    forall i, j | 0 <= i < |rep| && 0 <= j < |rep| ensures rep[i] == rep[j] <==> Connected({}, i, j) {
      if i == j { ConnectedRefl({}, i); } else { NoEdges(i, j); }
    }
  }

  /** Some cut exists. */
  lemma ApartHasCut(kids: seq<Kid>, guard: nat, sig: Signature) returns (g: seq<ChildGroup>)
    requires Apart(kids)
    ensures CutAtGaps(kids, guard, sig, g)
  {
    hide Labels, RaceEdges, Apart, Comps, ComponentList, Blocks, UnitsOf;
    var rep := Range(|kids|);
    ApartLabels(kids);
    CompsFacts(rep);
    ComponentPositions(rep, Comps(rep));
    g := Blocks(UnitsOf(kids, Comps(rep), sig), GapBoundary(guard), sig, 0);
  }

  /** So the tie condition is exact for a pair: it holds exactly when no set of siblings shows the ids of the two. */
  lemma TieSafeIff(a: C.Span, b: C.Span, guard: nat, sig: Signature,
                   ta: CanonicalSpan, tb: CanonicalSpan, one: string, two: string)
    requires Injective(sig) && ta != tb && StrLess(one, two)
    ensures TieSafe(a, b, guard) <==> ExchangeSilent(a, b, guard, sig, ta, tb, one, two)
  {
    hide CutAtGaps, Injective, SameGroups, OthersSafe;
    if TieSafe(a, b, guard) {
      forall rest | OthersSafe(NamedRun(a, ta, b, tb, rest, one, two), guard)
        ensures SameGroups(NamedRun(a, ta, b, tb, rest, one, two), NamedRun(b, tb, a, ta, rest, one, two), guard, sig)
      {
        SafeExchange(a, b, guard, sig, ta, tb, rest, one, two);
      }
    } else {
      UnsafeIsSeen(a, b, guard, sig, ta, tb, one, two);
    }
  }

  lemma UnsafeIsSeen(a: C.Span, b: C.Span, guard: nat, sig: Signature,
                     ta: CanonicalSpan, tb: CanonicalSpan, one: string, two: string)
    requires !TieSafe(a, b, guard) && ta != tb && StrLess(one, two)
    ensures !ExchangeSilent(a, b, guard, sig, ta, tb, one, two)
  {
    hide CutAtGaps, Rest, TieSafe, OthersSafe, Apart, StableSort, NamedRun;
    var rest := Rest(a, b, guard, ta);
    var run, run' := NamedRun(a, ta, b, tb, rest, one, two), NamedRun(b, tb, a, ta, rest, one, two);
    IdsDecideUnsafeTies(a, b, guard, sig, ta, tb, ta, one, two);
    WitnessSorted(a, b, guard, ta, tb, one, two);
    WitnessApart(a, b, guard, ta, tb, one, two);
    var g := ApartHasCut(run, guard, sig);
    var h := ApartHasCut(run', guard, sig);
    assert !SameGroups(run, run', guard, sig);
  }

  lemma WitnessSorted(a: C.Span, b: C.Span, guard: nat, ta: CanonicalSpan, tb: CanonicalSpan, one: string, two: string)
    requires !TieSafe(a, b, guard) && StrLess(one, two)
    ensures var run := NamedRun(a, ta, b, tb, Rest(a, b, guard, ta), one, two); StableSort(run, ByStartThenId()) == run
    ensures var run := NamedRun(b, tb, a, ta, Rest(a, b, guard, ta), one, two); StableSort(run, ByStartThenId()) == run
  {
    hide StrLess, StableSort;
    NamedRunSorted(a, ta, b, tb, Rest(a, b, guard, ta), one, two);
    NamedRunSorted(b, tb, a, ta, Rest(a, b, guard, ta), one, two);
  }

  lemma WitnessApart(a: C.Span, b: C.Span, guard: nat, ta: CanonicalSpan, tb: CanonicalSpan, one: string, two: string)
    requires !TieSafe(a, b, guard)
    ensures var run := NamedRun(a, ta, b, tb, Rest(a, b, guard, ta), one, two); Apart(run) && OthersSafe(run, guard)
    ensures Apart(NamedRun(b, tb, a, ta, Rest(a, b, guard, ta), one, two))
  {
  }
}
