/** Loop collapse: data-dependent repetition folds into one representative marked "1..*". */
module Loops {
  import opened Ir
  import opened Siblings

  // ---- the specification ----

  /** Keep the first copy of every subtree. */
  function Dedup(members: seq<CanonicalSpan>): seq<CanonicalSpan> {
    if members == [] then []
    else
      var n := |members| - 1;
      var d := Dedup(members[..n]);
      if members[n] in d then d else d + [members[n]]
  }

  predicate Racy(g: ChildGroup) {
    g.concurrent || g.unordered
  }

  function CollapseGroup(g: ChildGroup): ChildGroup {
    if Racy(g) && |Dedup(g.members)| < |g.members|
    then g.(multiplicity := LOOP, members := Dedup(g.members))
    else g
  }

  /** A happens-before step: a plain group of one member. */
  predicate Step(g: ChildGroup) {
    !g.concurrent && !g.unordered && |g.members| == 1
  }

  predicate SameStep(g: ChildGroup, h: ChildGroup) {
    Step(g) && Step(h) && g.members == h.members
  }

  /** How many groups from the front repeat the step `g`. */
  function RunLength(g: ChildGroup, gs: seq<ChildGroup>): (n: nat)
    ensures n <= |gs|
  {
    if gs != [] && SameStep(g, gs[0]) then 1 + RunLength(g, gs[1..]) else 0
  }

  function FoldRuns(gs: seq<ChildGroup>): seq<ChildGroup> {
    if gs == [] then []
    else
      var n := RunLength(gs[0], gs[1..]);
      [if n > 0 then gs[0].(multiplicity := LOOP) else gs[0]] + FoldRuns(gs[1 + n..])
  }

  function CollapseEach(gs: seq<ChildGroup>): (r: seq<ChildGroup>)
    ensures |r| == |gs|
    ensures forall i :: 0 <= i < |gs| ==> r[i] == CollapseGroup(gs[i])
  {
    seq(|gs|, i requires 0 <= i < |gs| => CollapseGroup(gs[i]))
  }

  function Collapse(gs: seq<ChildGroup>): seq<ChildGroup> {
    FoldRuns(CollapseEach(gs))
  }

  // ---- what stays and what goes ----

  ghost predicate NoDuplicates<T>(s: seq<T>) {
    forall i, j :: 0 <= i < j < |s| ==> s[i] != s[j]
  }

  lemma {:induction false} DedupKeeps(members: seq<CanonicalSpan>)
    ensures NoDuplicates(Dedup(members))
    ensures forall m :: m in Dedup(members) <==> m in members
    ensures |Dedup(members)| <= |members|
  {
    if members != [] {
      var n := |members| - 1;
      DedupKeeps(members[..n]);
      assert members == members[..n] + [members[n]];
    }
  }

  lemma {:induction false} DedupShrinks(members: seq<CanonicalSpan>)
    ensures NoDuplicates(members) ==> Dedup(members) == members
    ensures !NoDuplicates(members) ==> |Dedup(members)| < |members|
  {
    if members != [] {
      var n := |members| - 1;
      var front := members[..n];
      assert members == front + [members[n]];
      DedupShrinks(front);
      DedupKeeps(front);
      assert NoDuplicates(members) <==> NoDuplicates(front) && members[n] !in front by {
        forall i | 0 <= i < n ensures front[i] == members[i] {}
      }
    }
  }

  lemma DedupFacts(members: seq<CanonicalSpan>)
    ensures NoDuplicates(Dedup(members))
    ensures forall m :: m in Dedup(members) <==> m in members
    ensures |Dedup(members)| <= |members|
    ensures |Dedup(members)| == |members| <==> NoDuplicates(members)
    ensures NoDuplicates(members) ==> Dedup(members) == members
    ensures members != [] ==> Dedup(members) != []
  {
    hide Dedup;
    DedupKeeps(members);
    DedupShrinks(members);
    if members != [] { assert members[0] in Dedup(members); }
  }

  /** No racing pair is equal, and no step repeats the one before it. */
  ghost predicate Collapsed(gs: seq<ChildGroup>) {
    && (forall i :: 0 <= i < |gs| && Racy(gs[i]) ==> NoDuplicates(gs[i].members))
    && (forall i :: 0 <= i < |gs| - 1 ==> !SameStep(gs[i], gs[i + 1]))
  }

  lemma CollapseGroupFacts(g: ChildGroup)
    ensures Racy(CollapseGroup(g)) <==> Racy(g)
    ensures Racy(g) ==> NoDuplicates(CollapseGroup(g).members)
    ensures Step(CollapseGroup(g)) <==> Step(g)
    ensures !Racy(g) ==> CollapseGroup(g) == g
    ensures forall m :: m in CollapseGroup(g).members <==> m in g.members
  {
    DedupFacts(g.members);
  }

  lemma {:induction false} RunFacts(g: ChildGroup, gs: seq<ChildGroup>)
    ensures forall i :: 0 <= i < RunLength(g, gs) ==> SameStep(g, gs[i])
    ensures RunLength(g, gs) < |gs| ==> !SameStep(g, gs[RunLength(g, gs)])
  {
    if gs != [] && SameStep(g, gs[0]) {
      RunFacts(g, gs[1..]);
      forall i | 0 <= i < RunLength(g, gs) ensures SameStep(g, gs[i]) {
        if i > 0 { assert gs[i] == gs[1..][i - 1]; }
      }
    }
  }

  lemma {:induction false} FoldRunsCollapsed(gs: seq<ChildGroup>)
    requires forall i :: 0 <= i < |gs| && Racy(gs[i]) ==> NoDuplicates(gs[i].members)
    ensures Collapsed(FoldRuns(gs))
    ensures gs != [] ==> FoldRuns(gs) != [] && FoldRuns(gs)[0].(multiplicity := "") == gs[0].(multiplicity := "")
    ensures gs == [] ==> FoldRuns(gs) == []
    decreases |gs|
  {
    if gs != [] {
      var n := RunLength(gs[0], gs[1..]);
      RunFacts(gs[0], gs[1..]);
      FoldRunsCollapsed(gs[1 + n..]);
      var out, rest := FoldRuns(gs), FoldRuns(gs[1 + n..]);
      assert out == [out[0]] + rest;
      forall i | 0 <= i < |out| - 1 ensures !SameStep(out[i], out[i + 1]) {
        if i == 0 {
          assert !SameStep(gs[0], gs[1..][n]);
          assert gs[1..][n] == gs[1 + n..][0];
        }
      }
    }
  }

  /** Nothing collapsible is left. */
  lemma CollapseCollapses(gs: seq<ChildGroup>)
    ensures Collapsed(Collapse(gs))
  {
    forall i | 0 <= i < |gs| ensures Racy(CollapseEach(gs)[i]) ==> NoDuplicates(CollapseEach(gs)[i].members) {
      CollapseGroupFacts(gs[i]);
    }
    FoldRunsCollapsed(CollapseEach(gs));
  }

  lemma {:induction false} FoldRunsFixed(gs: seq<ChildGroup>)
    requires Collapsed(gs)
    ensures FoldRuns(gs) == gs
  {
    if gs != [] {
      assert |gs| > 1 ==> gs[1..][0] == gs[1] && !SameStep(gs[0], gs[0 + 1]);
      assert RunLength(gs[0], gs[1..]) == 0;
      forall i | 0 <= i < |gs[1..]| - 1 ensures !SameStep(gs[1..][i], gs[1..][i + 1]) {
        assert !SameStep(gs[i + 1], gs[i + 1 + 1]);
      }
      FoldRunsFixed(gs[1..]);
      assert gs == [gs[0]] + gs[1..];
    }
  }

  lemma CollapsedFixed(gs: seq<ChildGroup>)
    requires Collapsed(gs)
    ensures Collapse(gs) == gs
  {
    forall i | 0 <= i < |gs| ensures CollapseGroup(gs[i]) == gs[i] {
      DedupFacts(gs[i].members);
    }
    assert CollapseEach(gs) == gs;
    FoldRunsFixed(gs);
  }

  /** A second pass finds nothing to do. */
  lemma CollapseIdempotent(gs: seq<ChildGroup>)
    ensures Collapse(Collapse(gs)) == Collapse(gs)
  {
    CollapseCollapses(gs);
    CollapsedFixed(Collapse(gs));
  }

  // ---- no subtree is lost ----

  ghost predicate Occurs(t: CanonicalSpan, gs: seq<ChildGroup>) {
    exists i :: 0 <= i < |gs| && t in gs[i].members
  }

  lemma OccursSplit(t: CanonicalSpan, a: seq<ChildGroup>, b: seq<ChildGroup>)
    ensures Occurs(t, a + b) <==> Occurs(t, a) || Occurs(t, b)
  {
    if Occurs(t, a) {
      var i :| 0 <= i < |a| && t in a[i].members;
      assert (a + b)[i] == a[i];
    }
    if Occurs(t, b) {
      var i :| 0 <= i < |b| && t in b[i].members;
      assert (a + b)[|a| + i] == b[i];
    }
  }

  function Mark(g: ChildGroup, looped: bool): ChildGroup {
    if looped then g.(multiplicity := LOOP) else g
  }

  lemma FoldHead(s: seq<ChildGroup>, n: nat, rest: seq<ChildGroup>)
    requires s != [] && n == RunLength(s[0], s[1..]) && rest == s[1 + n..]
    ensures FoldRuns(s) == [Mark(s[0], n > 0)] + FoldRuns(rest)
  {
  }

  /** Equal steps hold the same subtrees. */
  lemma OccursInRun(t: CanonicalSpan, run: seq<ChildGroup>, g: ChildGroup)
    requires run != [] && forall i :: 0 <= i < |run| ==> run[i].members == g.members
    ensures Occurs(t, run) <==> t in g.members
  {
    assert run[0].members == g.members;
  }

  lemma RunMembers(gs: seq<ChildGroup>, run: seq<ChildGroup>)
    requires gs != [] && run == gs[..1 + RunLength(gs[0], gs[1..])]
    ensures forall i :: 0 <= i < |run| ==> run[i].members == gs[0].members
  {
    RunFacts(gs[0], gs[1..]);
    forall i | 0 <= i < |run| ensures run[i].members == gs[0].members {
      if i > 0 { assert SameStep(gs[0], gs[1..][i - 1]); }
    }
  }

  lemma NothingFolded()
    ensures FoldRuns([]) == []
  {
  }

  lemma {:induction false} FoldRunsKeeps(t: CanonicalSpan, gs: seq<ChildGroup>)
    ensures Occurs(t, FoldRuns(gs)) <==> Occurs(t, gs)
    decreases |gs|
  {
    hide FoldRuns, RunLength, Occurs;
    if gs == [] {
      NothingFolded();
    } else {
      var n := RunLength(gs[0], gs[1..]);
      var rest, first := gs[1 + n..], Mark(gs[0], n > 0);
      FoldRunsKeeps(t, rest);
      FoldHead(gs, n, rest);
      RunMembers(gs, gs[..1 + n]);
      OccursInRun(t, gs[..1 + n], gs[0]);
      OccursInRun(t, [first], gs[0]);
      OccursSplit(t, gs[..1 + n], rest);
      OccursSplit(t, [first], FoldRuns(rest));
      assert gs == gs[..1 + n] + rest;
    }
  }

  /** The distinct child subtrees are exactly those there were before. */
  lemma CollapseKeepsSubtrees(t: CanonicalSpan, gs: seq<ChildGroup>)
    ensures Occurs(t, Collapse(gs)) <==> Occurs(t, gs)
  {
    FoldRunsKeeps(t, CollapseEach(gs));
    if Occurs(t, gs) {
      var i :| 0 <= i < |gs| && t in gs[i].members;
      CollapseGroupFacts(gs[i]);
      assert t in CollapseEach(gs)[i].members;
    }
    if Occurs(t, CollapseEach(gs)) {
      var i :| 0 <= i < |gs| && t in CollapseEach(gs)[i].members;
      CollapseGroupFacts(gs[i]);
    }
  }

  // ---- processing 3 or 300 items ----

  function Repeat<T>(x: T, n: nat): (r: seq<T>)
    ensures |r| == n
    ensures forall i :: 0 <= i < n ==> r[i] == x
  {
    seq(n, i => x)
  }

  lemma {:induction false} RunOverRepeat(g: ChildGroup, h: ChildGroup, n: nat, rest: seq<ChildGroup>)
    ensures RunLength(g, Repeat(h, n) + rest) ==
            if SameStep(g, h) then n + RunLength(g, rest) else if n > 0 then 0 else RunLength(g, rest)
  {
    if n > 0 {
      var s := Repeat(h, n) + rest;
      assert s[0] == h && s[1..] == Repeat(h, n - 1) + rest;
      RunOverRepeat(g, h, n - 1, rest);
    } else {
      assert Repeat(h, n) + rest == rest;
    }
  }

  lemma FoldRepeat(g: ChildGroup, n: nat, rest: seq<ChildGroup>)
    requires Step(g) && n >= 2
    ensures FoldRuns(Repeat(g, n) + rest) == [Mark(g, true)] + FoldRuns(rest[RunLength(g, rest)..])
  {
    hide FoldRuns, RunLength;
    var s, r := Repeat(g, n) + rest, RunLength(g, rest);
    assert s[0] == g && s[1..] == Repeat(g, n - 1) + rest;
    RunOverRepeat(g, g, n - 1, rest);
    assert s[1 + (n - 1 + r)..] == rest[r..];
    FoldHead(s, n - 1 + r, rest[r..]);
  }

  /** A run that ends inside the prefix does not see what follows. */
  lemma FoldInside(h: ChildGroup, tail: seq<ChildGroup>, x: seq<ChildGroup>)
    requires RunLength(h, tail) < |tail|
    ensures FoldRuns([h] + (tail + x)) ==
            [Mark(h, RunLength(h, tail) > 0)] + FoldRuns(tail[RunLength(h, tail)..] + x)
  {
    hide FoldRuns, RunLength;
    var k := RunLength(h, tail);
    DropInto([h], tail + x, k);
    RunOverPrefix(h, tail, x);
    assert (tail + x)[k..] == tail[k..] + x;
    FoldHead([h] + (tail + x), k, tail[k..] + x);
  }

  lemma RunThrough(h: ChildGroup, tail: seq<ChildGroup>, g: ChildGroup, n: nat, post: seq<ChildGroup>)
    requires n >= 1 && RunLength(h, tail) == |tail| && SameStep(h, g)
    ensures RunLength(h, tail + (Repeat(g, n) + post)) == |tail| + n + RunLength(h, post)
  {
    hide RunLength;
    RunOverPrefix(h, tail, Repeat(g, n) + post);
    RunOverRepeat(h, g, n, post);
  }

  lemma DropPast<T>(h: T, a: seq<T>, b: seq<T>, c: seq<T>, r: nat)
    requires r <= |c|
    ensures ([h] + (a + (b + c)))[1 + (|a| + |b| + r)..] == c[r..]
  {
  }

  /** A run that covers the prefix swallows a repetition of its own step whole. */
  lemma FoldThrough(h: ChildGroup, tail: seq<ChildGroup>, g: ChildGroup, n: nat, post: seq<ChildGroup>)
    requires n >= 1 && RunLength(h, tail) == |tail| && SameStep(h, g)
    ensures FoldRuns([h] + (tail + (Repeat(g, n) + post))) ==
            [Mark(h, true)] + FoldRuns(post[RunLength(h, post)..])
  {
    hide FoldRuns, RunLength, SameStep;
    var r := RunLength(h, post);
    var s := [h] + (tail + (Repeat(g, n) + post));
    assert s[1..] == tail + (Repeat(g, n) + post);
    RunThrough(h, tail, g, n, post);
    DropPast(h, tail, Repeat(g, n), post, r);
    FoldHead(s, |tail| + n + r, post[r..]);
  }

  /** A run that covers the prefix stops in front of a different step. */
  lemma FoldUpTo(h: ChildGroup, tail: seq<ChildGroup>, g: ChildGroup, n: nat, post: seq<ChildGroup>)
    requires n >= 1 && RunLength(h, tail) == |tail| && !SameStep(h, g)
    ensures FoldRuns([h] + (tail + (Repeat(g, n) + post))) ==
            [Mark(h, |tail| > 0)] + FoldRuns(Repeat(g, n) + post)
  {
    hide FoldRuns, RunLength;
    var x := Repeat(g, n) + post;
    var s := [h] + (tail + x);
    assert s[1..] == tail + x;
    RunOverPrefix(h, tail, x);
    RunOverRepeat(h, g, n, post);
    assert s[1 + |tail|..] == x by {
      assert s == ([h] + tail) + x;
      DropInto([h] + tail, x, 0);
    }
    FoldHead(s, |tail|, x);
  }

  lemma DropInto<T>(a: seq<T>, b: seq<T>, r: nat)
    requires r <= |b|
    ensures (a + b)[|a| + r..] == b[r..]
    ensures (a + b)[|a|..] == b
  {
  }

  lemma {:induction false} FoldRunsCountBlind(pre: seq<ChildGroup>, g: ChildGroup, n: nat, m: nat, post: seq<ChildGroup>)
    requires Step(g) && n >= 2 && m >= 2
    ensures FoldRuns(pre + (Repeat(g, n) + post)) == FoldRuns(pre + (Repeat(g, m) + post))
    decreases |pre|
  {
    hide FoldRuns, RunLength;
    FoldRepeat(g, n, post);
    FoldRepeat(g, m, post);
    if pre == [] {
      assert pre + (Repeat(g, n) + post) == Repeat(g, n) + post;
      assert pre + (Repeat(g, m) + post) == Repeat(g, m) + post;
    } else {
      var h, tail := pre[0], pre[1..];
      assert pre + (Repeat(g, n) + post) == [h] + (tail + (Repeat(g, n) + post));
      assert pre + (Repeat(g, m) + post) == [h] + (tail + (Repeat(g, m) + post));
      if RunLength(h, tail) < |tail| {
        FoldInside(h, tail, Repeat(g, n) + post);
        FoldInside(h, tail, Repeat(g, m) + post);
        FoldRunsCountBlind(tail[RunLength(h, tail)..], g, n, m, post);
      } else if SameStep(h, g) {
        FoldThrough(h, tail, g, n, post);
        FoldThrough(h, tail, g, m, post);
      } else {
        FoldUpTo(h, tail, g, n, post);
        FoldUpTo(h, tail, g, m, post);
      }
    }
  }

  lemma {:induction false} RunOverPrefix(h: ChildGroup, pre: seq<ChildGroup>, rest: seq<ChildGroup>)
    ensures RunLength(h, pre + rest) ==
            if RunLength(h, pre) < |pre| then RunLength(h, pre) else |pre| + RunLength(h, rest)
  {
    if pre == [] {
      assert pre + rest == rest;
    } else {
      assert (pre + rest)[0] == pre[0] && (pre + rest)[1..] == pre[1..] + rest;
      if SameStep(h, pre[0]) { RunOverPrefix(h, pre[1..], rest); }
    }
  }

  /** Repeating a step `n >= 2` or `m >= 2` times in a row gives the same groups. */
  lemma CollapseRunCountBlind(pre: seq<ChildGroup>, g: ChildGroup, n: nat, m: nat, post: seq<ChildGroup>)
    requires Step(g) && n >= 2 && m >= 2
    ensures Collapse(pre + (Repeat(g, n) + post)) == Collapse(pre + (Repeat(g, m) + post))
  {
    assert CollapseGroup(g) == g;
    assert CollapseEach(pre + (Repeat(g, n) + post)) == CollapseEach(pre) + (Repeat(g, n) + CollapseEach(post));
    assert CollapseEach(pre + (Repeat(g, m) + post)) == CollapseEach(pre) + (Repeat(g, m) + CollapseEach(post));
    FoldRunsCountBlind(CollapseEach(pre), g, n, m, CollapseEach(post));
  }

  lemma DedupKnown(s: seq<CanonicalSpan>, t: CanonicalSpan)
    requires t in s
    ensures Dedup(s + [t]) == Dedup(s)
  {
    assert (s + [t])[..|s|] == s;
    DedupFacts(s);
  }

  lemma {:induction false} DedupRepeat(a: seq<CanonicalSpan>, t: CanonicalSpan, n: nat)
    requires n >= 1
    ensures Dedup(a + Repeat(t, n)) == Dedup(a + [t])
  {
    hide Dedup;
    if n == 1 {
      assert Repeat(t, n) == [t];
    } else {
      var s := a + Repeat(t, n - 1);
      DedupRepeat(a, t, n - 1);
      assert s[|a|] == t && t in s;
      DedupKnown(s, t);
      assert a + Repeat(t, n) == s + [t];
    }
  }

  lemma {:induction false} DedupAppend(a: seq<CanonicalSpan>, b: seq<CanonicalSpan>, tail: seq<CanonicalSpan>)
    requires Dedup(a) == Dedup(b)
    ensures Dedup(a + tail) == Dedup(b + tail)
  {
    if tail == [] {
      assert a + tail == a && b + tail == b;
    } else {
      var n := |tail| - 1;
      DedupAppend(a, b, tail[..n]);
      assert (a + tail)[..|a| + n] == a + tail[..n] && (b + tail)[..|b| + n] == b + tail[..n];
    }
  }

  lemma RepeatedNotDistinct(a: seq<CanonicalSpan>, t: CanonicalSpan, n: nat, b: seq<CanonicalSpan>)
    requires n >= 2
    ensures |Dedup(a + Repeat(t, n) + b)| < |a + Repeat(t, n) + b|
  {
    var s := a + Repeat(t, n) + b;
    DedupFacts(s);
    assert s[|a|] == s[|a| + 1];
  }

  /** Racing or unorderable members repeated `n >= 2` or `m >= 2` times give the same group. */
  lemma CollapseGroupCountBlind(g: ChildGroup, a: seq<CanonicalSpan>, t: CanonicalSpan, n: nat, m: nat,
                                b: seq<CanonicalSpan>)
    requires Racy(g) && n >= 2 && m >= 2
    ensures CollapseGroup(g.(members := a + Repeat(t, n) + b)) == CollapseGroup(g.(members := a + Repeat(t, m) + b))
  {
    DedupRepeat(a, t, n);
    DedupRepeat(a, t, m);
    DedupAppend(a + Repeat(t, n), a + Repeat(t, m), b);
    RepeatedNotDistinct(a, t, n, b);
    RepeatedNotDistinct(a, t, m, b);
  }

  // ---- the manifest of folded operations ----

  ghost predicate RacyRepeat(g: ChildGroup, op: string) {
    Racy(g) && exists i, j :: 0 <= i < j < |g.members| && g.members[i] == g.members[j] && g.members[i].head.op == op
  }

  /** Position `i` holds a step of operation `op` that the next position repeats. */
  ghost predicate RepeatAt(gs: seq<ChildGroup>, i: nat, op: string) {
    i + 1 < |gs| && SameStep(gs[i], gs[i + 1]) && gs[i].members[0].head.op == op
  }

  ghost predicate StepRepeat(gs: seq<ChildGroup>, op: string) {
    exists i: nat :: RepeatAt(gs, i, op)
  }

  ghost predicate RacyRepeats(gs: seq<ChildGroup>, op: string) {
    exists i :: 0 <= i < |gs| && RacyRepeat(gs[i], op)
  }

  /** The operations whose repetition a collapse of `gs` hides. */
  ghost predicate Folds(gs: seq<ChildGroup>, op: string) {
    StepRepeat(gs, op) || RacyRepeats(gs, op)
  }
}
