/**
 * Sibling ordering: how canonicalization turns the children of one span into happens-before
 * groups. The pipeline follows the code (sort, union concurrent siblings, cut the components
 * into runs); the specification `Emit` is stated over the children as an unordered collection.
 */
module Siblings {
  import opened Ir
  import opened Sorting
  import opened UnionFind
  import C = Capture

  /** A captured child together with its already canonicalized subtree. */
  datatype Kid = Kid(span: C.Span, tree: CanonicalSpan)

  type Signature = CanonicalSpan -> string

  /** Subtree signatures are canonical JSON bytes; all that is used is that they identify the subtree. */
  ghost predicate Injective(sig: Signature) {
    forall a, b :: sig(a) == sig(b) ==> a == b
  }

  // ---- orders ----

  predicate LessBySig(a: CanonicalSpan, b: CanonicalSpan, sig: Signature) {
    if a.head.op != b.head.op then StrLess(a.head.op, b.head.op) else StrLess(sig(a), sig(b))
  }

  function BySig(sig: Signature): (CanonicalSpan, CanonicalSpan) -> bool {
    (a: CanonicalSpan, b: CanonicalSpan) => LessBySig(a, b, sig)
  }

  function ByStartThenSig(sig: Signature): (Kid, Kid) -> bool {
    (a: Kid, b: Kid) =>
      if a.span.start != b.span.start then a.span.start < b.span.start else LessBySig(a.tree, b.tree, sig)
  }

  function ByStartThenId(): (Kid, Kid) -> bool {
    (a: Kid, b: Kid) =>
      if a.span.start != b.span.start then a.span.start < b.span.start else StrLess(a.span.id, b.span.id)
  }

  lemma BySigWeak(sig: Signature)
    ensures StrictWeak(BySig(sig))
  {
    var less := BySig(sig);
    forall a, b | less(a, b) ensures !less(b, a) {
      if a.head.op != b.head.op { StrLessAsymmetric(a.head.op, b.head.op); }
      else { StrLessAsymmetric(sig(a), sig(b)); }
    }
    forall a, b, c | less(a, c) ensures less(a, b) || less(b, c) {
      if a.head.op != c.head.op { StrLessCotransitive(a.head.op, b.head.op, c.head.op); }
      else {
        StrLessCotransitive(sig(a), sig(b), sig(c));
        if b.head.op != a.head.op { StrLessConnected(a.head.op, b.head.op); }
      }
    }
  }

  lemma BySigConnex(sig: Signature)
    requires Injective(sig)
    ensures Connex(BySig(sig))
  {
    var less := BySig(sig);
    forall a, b | a != b ensures less(a, b) || less(b, a) {
      if a.head.op != b.head.op { StrLessConnected(a.head.op, b.head.op); }
      else { StrLessConnected(sig(a), sig(b)); }
    }
  }

  lemma ByStartThenSigWeak(sig: Signature)
    ensures StrictWeak(ByStartThenSig(sig))
  {
    BySigWeak(sig);
    var less, inner := ByStartThenSig(sig), BySig(sig);
    forall a, b | less(a, b) ensures !less(b, a) {
      assert a.span.start == b.span.start ==> inner(a.tree, b.tree);
    }
    forall a, b, c | less(a, c) ensures less(a, b) || less(b, c) {
      if a.span.start == b.span.start == c.span.start {
        assert inner(a.tree, c.tree);
        assert inner(a.tree, b.tree) || inner(b.tree, c.tree);
      }
    }
  }

  lemma ByStartThenIdWeak()
    ensures StrictWeak(ByStartThenId())
  {
    var less := ByStartThenId();
    forall a, b | less(a, b) ensures !less(b, a) {
      if a.span.start == b.span.start { StrLessAsymmetric(a.span.id, b.span.id); }
    }
    forall a, b, c | less(a, c) ensures less(a, b) || less(b, c) {
      if a.span.start == b.span.start == c.span.start {
        StrLessCotransitive(a.span.id, b.span.id, c.span.id);
      }
    }
  }

  /** All the sibling pipeline needs to know about how it was sorted. */
  ghost predicate StartSorted(kids: seq<Kid>) {
    forall i, j :: 0 <= i < j < |kids| ==> kids[i].span.start <= kids[j].span.start
  }

  // ---- overlap components ----

  predicate Race(kids: seq<Kid>, pg: nat, i: nat, j: nat)
    requires i < |kids| && j < |kids|
  {
    C.Concurrent(kids[i].span, kids[j].span, pg)
  }

  function RaceEdges(kids: seq<Kid>, pg: nat): Edges {
    set i, j | 0 <= i < j < |kids| && Race(kids, pg, i, j) :: (i, j)
  }

  function RaceEdgesUpTo(kids: seq<Kid>, pg: nat, i: nat, j: nat): Edges {
    set a, b | 0 <= a < b < |kids| && (a < i || (a == i && b < j)) && Race(kids, pg, a, b) :: (a, b)
  }

  lemma AdjacentIffRace(kids: seq<Kid>, pg: nat, a: nat, b: nat)
    ensures Adjacent(RaceEdges(kids, pg), a, b) <==>
            a < |kids| && b < |kids| && a != b && Race(kids, pg, a, b)
  {
  }

  lemma EdgeStep(kids: seq<Kid>, pg: nat, i: nat, j: nat)
    requires i < j < |kids|
    ensures Race(kids, pg, i, j) ==>
              RaceEdgesUpTo(kids, pg, i, j + 1) == RaceEdgesUpTo(kids, pg, i, j) + {(i, j)}
    ensures !Race(kids, pg, i, j) ==> RaceEdgesUpTo(kids, pg, i, j + 1) == RaceEdgesUpTo(kids, pg, i, j)
    ensures Within(RaceEdgesUpTo(kids, pg, i, j), |kids|)
  {
  }

  lemma EdgeRow(kids: seq<Kid>, pg: nat, i: nat)
    ensures RaceEdgesUpTo(kids, pg, 0, 0) == {}
    ensures i < |kids| ==> RaceEdgesUpTo(kids, pg, i, i + 1) == RaceEdgesUpTo(kids, pg, i, 0)
    ensures RaceEdgesUpTo(kids, pg, i, |kids|) == RaceEdgesUpTo(kids, pg, i + 1, 0)
    ensures RaceEdgesUpTo(kids, pg, |kids|, 0) == RaceEdges(kids, pg)
  {
  }

  lemma IdentityLabels(n: nat)
    ensures Labels(Range(n), {})
    ensures Valid(Range(n), Range(n), seq(n, i => 0))
  {
    forall a, b | 0 <= a < n && 0 <= b < n ensures Range(n)[a] == Range(n)[b] <==> Connected({}, a, b) {
      ConnectedRefl({}, a);
      if Connected({}, a, b) {
        var p :| PathFromTo({}, p, a, b);
        assert |p| == 1;
      }
    }
  }

  /** The double loop of `group` and `groupPostHoc`: union every concurrent pair of siblings. */
  method LabelComponents(kids: seq<Kid>, pg: nat) returns (rep: seq<nat>)
    ensures |rep| == |kids|
    ensures Labels(rep, RaceEdges(kids, pg))
  {
    var n := |kids|;
    var uf := new nat[n](i => i);
    ghost var root, rank := Range(n), seq(n, i => 0);
    IdentityLabels(n);
    assert uf[..] == Range(n);
    EdgeRow(kids, pg, 0);
    for i := 0 to n
      invariant Valid(uf[..], root, rank) && |root| == n
      invariant Labels(root, RaceEdgesUpTo(kids, pg, i, 0))
    {
      EdgeRow(kids, pg, i);
      for j := i + 1 to n
        invariant Valid(uf[..], root, rank) && |root| == n
        invariant Labels(root, RaceEdgesUpTo(kids, pg, i, j))
      {
        EdgeStep(kids, pg, i, j);
        if C.Concurrent(kids[i].span, kids[j].span, pg) {
          MergeLabels(root, RaceEdgesUpTo(kids, pg, i, j), i, j);
          root, rank := Union(uf, i, j, root, rank);
        }
      }
    }
    EdgeRow(kids, pg, n);
    rep := ReadRoots(uf, root, rank);
  }

  /** The final `find` of every position. */
  method ReadRoots(uf: array<nat>, ghost root: seq<nat>, ghost rank: seq<nat>) returns (rep: seq<nat>)
    requires Valid(uf[..], root, rank)
    modifies uf
    ensures rep == root
  {
    rep := [];
    for i := 0 to uf.Length
      invariant Valid(uf[..], root, rank)
      invariant |rep| == i && forall k :: 0 <= k < i ==> rep[k] == root[k]
    {
      var r := Find(uf, i, root, rank);
      rep := rep + [r];
    }
  }

  // ---- components in order of their first member ----

  function Class(rep: seq<nat>, r: nat, n: nat): seq<nat>
    requires n <= |rep|
  {
    if n == 0 then [] else Class(rep, r, n - 1) + if rep[n - 1] == r then [n - 1] else []
  }

  function Firsts(rep: seq<nat>, n: nat): seq<nat>
    requires n <= |rep|
  {
    if n == 0 then [] else Firsts(rep, n - 1) + if rep[n - 1] in rep[..n - 1] then [] else [n - 1]
  }

  lemma {:induction false} ClassFacts(rep: seq<nat>, r: nat, n: nat)
    requires n <= |rep|
    ensures forall x :: x in Class(rep, r, n) <==> 0 <= x < n && rep[x] == r
    ensures forall i, j :: 0 <= i < j < |Class(rep, r, n)| ==> Class(rep, r, n)[i] < Class(rep, r, n)[j]
  {
    if n > 0 {
      ClassFacts(rep, r, n - 1);
      var c := Class(rep, r, n - 1);
      forall i | 0 <= i < |c| ensures c[i] < n - 1 { assert c[i] in c; }
    }
  }

  lemma {:induction false} FirstsFacts(rep: seq<nat>, n: nat)
    requires n <= |rep|
    ensures forall x :: x in Firsts(rep, n) <==> 0 <= x < n && rep[x] !in rep[..x]
    ensures forall i, j :: 0 <= i < j < |Firsts(rep, n)| ==> Firsts(rep, n)[i] < Firsts(rep, n)[j]
  {
    if n > 0 {
      FirstsFacts(rep, n - 1);
      var c := Firsts(rep, n - 1);
      forall i | 0 <= i < |c| ensures c[i] < n - 1 { assert c[i] in c; }
    }
  }

  lemma {:induction false} FirstExists(rep: seq<nat>, x: nat) returns (f: nat)
    requires x < |rep|
    ensures f <= x && rep[f] == rep[x] && rep[f] !in rep[..f]
  {
    if rep[x] !in rep[..x] {
      f := x;
    } else {
      var y :| 0 <= y < |rep[..x]| && rep[..x][y] == rep[x];
      f := FirstExists(rep, y);
    }
  }

  ghost predicate InSome(comps: seq<seq<nat>>, x: nat) {
    exists k :: 0 <= k < |comps| && x in comps[k]
  }

  /** What a list of components must be, given the labels: the classes, by first member. */
  ghost predicate ComponentList(rep: seq<nat>, comps: seq<seq<nat>>) {
    && (forall k :: 0 <= k < |comps| ==> comps[k] != [] && comps[k][0] < |rep|)
    && (forall k, x: nat :: 0 <= k < |comps| ==> (x in comps[k] <==> x < |rep| && rep[x] == rep[comps[k][0]]))
    && (forall k, i, j :: 0 <= k < |comps| && 0 <= i < j < |comps[k]| ==> comps[k][i] < comps[k][j])
    && (forall k, l :: 0 <= k < l < |comps| ==> comps[k][0] < comps[l][0])
    && (forall k, l :: 0 <= k < l < |comps| ==> rep[comps[k][0]] != rep[comps[l][0]])
    && (forall x: nat :: x < |rep| ==> InSome(comps, x))
  }

  function Comps(rep: seq<nat>): (comps: seq<seq<nat>>) {
    FirstsFacts(rep, |rep|);
    Map(i requires i in Firsts(rep, |rep|) => Class(rep, rep[i], |rep|), Firsts(rep, |rep|))
  }

  lemma CompFacts(rep: seq<nat>, k: nat)
    requires k < |Comps(rep)|
    ensures Firsts(rep, |rep|)[k] < |rep|
    ensures Comps(rep)[k] != [] && Comps(rep)[k][0] == Firsts(rep, |rep|)[k]
    ensures Comps(rep)[k] == Class(rep, rep[Firsts(rep, |rep|)[k]], |rep|)
    ensures rep[Comps(rep)[k][0]] !in rep[..Comps(rep)[k][0]]
  {
    var n, c, f := |rep|, Comps(rep)[k], Firsts(rep, |rep|)[k];
    FirstsFacts(rep, n);
    assert f in Firsts(rep, n);
    ClassFacts(rep, rep[f], n);
    assert c == Class(rep, rep[f], n);
    assert f in c;
    assert c[0] in c;
    assert forall i :: 0 <= i < f ==> rep[..f][i] == rep[i];
    var i :| 0 <= i < |c| && c[i] == f;
  }

  lemma CompPair(rep: seq<nat>, k: nat, l: nat)
    requires k < l < |Comps(rep)|
    ensures Comps(rep)[k] != [] && Comps(rep)[l] != []
    ensures Comps(rep)[k][0] < Comps(rep)[l][0] < |rep|
    ensures rep[Comps(rep)[k][0]] != rep[Comps(rep)[l][0]]
  {
    FirstsFacts(rep, |rep|);
    CompFacts(rep, k);
    CompFacts(rep, l);
    var a, b := Comps(rep)[k][0], Comps(rep)[l][0];
    assert rep[..b][a] == rep[a];
  }

  lemma CompCover(rep: seq<nat>, x: nat)
    requires x < |rep|
    ensures InSome(Comps(rep), x)
  {
    var n := |rep|;
    var f := FirstExists(rep, x);
    FirstsFacts(rep, n);
    assert f in Firsts(rep, n);
    var k :| 0 <= k < |Comps(rep)| && Firsts(rep, n)[k] == f;
    CompFacts(rep, k);
    ClassFacts(rep, rep[f], n);
    assert x in Comps(rep)[k];
  }

  lemma CompsFacts(rep: seq<nat>)
    ensures ComponentList(rep, Comps(rep))
  {
    var n, comps := |rep|, Comps(rep);
    forall k | 0 <= k < |comps|
      ensures comps[k] != [] && comps[k][0] < |rep|
      ensures forall x: nat :: x in comps[k] <==> x < |rep| && rep[x] == rep[comps[k][0]]
      ensures forall i, j :: 0 <= i < j < |comps[k]| ==> comps[k][i] < comps[k][j]
    {
      CompFacts(rep, k);
      ClassFacts(rep, rep[comps[k][0]], n);
    }
    forall k, l | 0 <= k < l < |comps|
      ensures comps[k][0] < comps[l][0] && rep[comps[k][0]] != rep[comps[l][0]]
    {
      CompPair(rep, k, l);
    }
    forall x: nat | x < n ensures InSome(comps, x) {
      CompCover(rep, x);
    }
  }

  ghost predicate SamePattern(rep: seq<nat>, rep': seq<nat>) {
    |rep| == |rep'| &&
    forall a, b :: 0 <= a < |rep| && 0 <= b < |rep| ==> (rep[a] == rep[b] <==> rep'[a] == rep'[b])
  }

  lemma {:induction false} FirstsPattern(rep: seq<nat>, rep': seq<nat>, n: nat)
    requires SamePattern(rep, rep') && n <= |rep|
    ensures Firsts(rep, n) == Firsts(rep', n)
  {
    if n > 0 {
      FirstsPattern(rep, rep', n - 1);
      if rep[n - 1] in rep[..n - 1] {
        var y :| 0 <= y < n - 1 && rep[..n - 1][y] == rep[n - 1];
        assert rep'[..n - 1][y] == rep'[n - 1];
      }
      if rep'[n - 1] in rep'[..n - 1] {
        var y :| 0 <= y < n - 1 && rep'[..n - 1][y] == rep'[n - 1];
        assert rep[..n - 1][y] == rep[n - 1];
      }
    }
  }

  lemma {:induction false} ClassPattern(rep: seq<nat>, rep': seq<nat>, i: nat, n: nat)
    requires SamePattern(rep, rep') && n <= |rep| && i < |rep|
    ensures Class(rep, rep[i], n) == Class(rep', rep'[i], n)
  {
    if n > 0 {
      ClassPattern(rep, rep', i, n - 1);
    }
  }

  /** Which representatives union-find happened to pick does not show. */
  lemma CompsPattern(rep: seq<nat>, rep': seq<nat>)
    requires SamePattern(rep, rep')
    ensures Comps(rep) == Comps(rep')
  {
    FirstsPattern(rep, rep', |rep|);
    FirstsFacts(rep, |rep|);
    forall k | 0 <= k < |Comps(rep)| ensures Comps(rep)[k] == Comps(rep')[k] {
      assert Firsts(rep, |rep|)[k] in Firsts(rep, |rep|);
      ClassPattern(rep, rep', Firsts(rep, |rep|)[k], |rep|);
    }
  }

  /** What the bucketing loop has collected after the first `i` positions. */
  ghost predicate Bucketed(rep: seq<nat>, i: nat, buckets: map<nat, seq<nat>>, roots: seq<nat>)
    requires i <= |rep|
  {
    && |roots| == |Firsts(rep, i)|
    && (forall k :: 0 <= k < |roots| ==> Firsts(rep, i)[k] < |rep| && roots[k] == rep[Firsts(rep, i)[k]])
    && (forall r :: r in buckets <==> r in rep[..i])
    && (forall r :: r in buckets ==> buckets[r] == Class(rep, r, i))
  }

  lemma FirstsStep(rep: seq<nat>, i: nat)
    requires i < |rep|
    ensures Firsts(rep, i + 1) == Firsts(rep, i) + if rep[i] in rep[..i] then [] else [i]
    ensures forall r :: Class(rep, r, i + 1) == Class(rep, r, i) + if rep[i] == r then [i] else []
    ensures forall r :: r in rep[..i + 1] <==> r in rep[..i] || r == rep[i]
  {
    assert rep[..i + 1] == rep[..i] + [rep[i]];
  }

  lemma BucketStep(rep: seq<nat>, i: nat, buckets: map<nat, seq<nat>>, roots: seq<nat>)
    requires i < |rep| && Bucketed(rep, i, buckets, roots)
    ensures rep[i] !in buckets ==> Bucketed(rep, i + 1, buckets[rep[i] := [i]], roots + [rep[i]])
    ensures rep[i] in buckets ==>
              Bucketed(rep, i + 1, buckets[rep[i] := buckets[rep[i]] + [i]], roots)
  {
    hide Firsts, Class;
    FirstsStep(rep, i);
    if rep[i] !in buckets {
      NoClass(rep, rep[i], i);
    }
  }

  /** The `comps`/`roots` loop: bucket positions by root, roots in order of first appearance. */
  method CollectComponents(rep: seq<nat>) returns (comps: seq<seq<nat>>)
    ensures comps == Comps(rep)
  {
    var buckets: map<nat, seq<nat>> := map[];
    var roots: seq<nat> := [];
    for i := 0 to |rep|
      invariant Bucketed(rep, i, buckets, roots)
    {
      var r := rep[i];
      BucketStep(rep, i, buckets, roots);
      if r !in buckets {
        roots := roots + [r];
        buckets := buckets[r := [i]];
      } else {
        buckets := buckets[r := buckets[r] + [i]];
      }
    }
    RootsBucketed(rep, buckets, roots);
    comps := Map(r requires r in buckets => buckets[r], roots);
    ListedComps(rep, buckets, roots);
  }

  lemma RootsBucketed(rep: seq<nat>, buckets: map<nat, seq<nat>>, roots: seq<nat>)
    requires Bucketed(rep, |rep|, buckets, roots)
    ensures forall r :: r in roots ==> r in buckets
  {
    assert rep[..|rep|] == rep;
    forall r | r in roots ensures r in buckets {
      var k :| 0 <= k < |roots| && roots[k] == r;
      assert rep[Firsts(rep, |rep|)[k]] in rep;
    }
  }

  lemma ListedComps(rep: seq<nat>, buckets: map<nat, seq<nat>>, roots: seq<nat>)
    requires Bucketed(rep, |rep|, buckets, roots)
    requires forall r :: r in roots ==> r in buckets
    ensures Map(r requires r in buckets => buckets[r], roots) == Comps(rep)
  {
    forall k | 0 <= k < |roots| ensures buckets[roots[k]] == Comps(rep)[k] {
      assert roots[k] in roots;
      CompFacts(rep, k);
    }
  }

  lemma {:induction false} NoClass(rep: seq<nat>, r: nat, n: nat)
    requires n <= |rep| && r !in rep[..n]
    ensures Class(rep, r, n) == []
  {
    if n > 0 {
      assert rep[..n][n - 1] == rep[n - 1];
      forall y | y in rep[..n - 1] ensures y in rep[..n] {}
      NoClass(rep, r, n - 1);
    }
  }
}
