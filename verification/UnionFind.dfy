/** Union-find with path halving over sibling positions, and the components it computes. */
module UnionFind {

  type Edges = set<(nat, nat)>

  predicate Adjacent(edges: Edges, a: nat, b: nat) {
    (a, b) in edges || (b, a) in edges
  }

  ghost predicate IsPath(edges: Edges, path: seq<nat>) {
    |path| > 0 && (|path| > 1 ==> Adjacent(edges, path[0], path[1]) && IsPath(edges, path[1..]))
  }

  ghost predicate PathFromTo(edges: Edges, path: seq<nat>, a: nat, b: nat) {
    IsPath(edges, path) && path[0] == a && path[|path| - 1] == b
  }

  /** The reference notion of "same component": some chain of adjacent positions joins the two. */
  ghost predicate Connected(edges: Edges, a: nat, b: nat) {
    exists path :: PathFromTo(edges, path, a, b)
  }

  lemma ConnectedRefl(edges: Edges, a: nat)
    ensures Connected(edges, a, a)
  {
    assert PathFromTo(edges, [a], a, a);
  }

  lemma ConnectedStep(edges: Edges, a: nat, b: nat)
    requires Adjacent(edges, a, b)
    ensures Connected(edges, a, b)
  {
    assert [a, b][1..] == [b];
    assert IsPath(edges, [b]);
    assert PathFromTo(edges, [a, b], a, b);
  }

  lemma {:induction false} PathConcat(edges: Edges, p: seq<nat>, q: seq<nat>, a: nat, b: nat, c: nat)
    requires PathFromTo(edges, p, a, b) && PathFromTo(edges, q, b, c)
    ensures PathFromTo(edges, p + q[1..], a, c)
  {
    if |p| == 1 {
      assert p + q[1..] == q;
    } else {
      PathConcat(edges, p[1..], q, p[1], b, c);
      assert (p + q[1..])[1..] == p[1..] + q[1..];
    }
  }

  lemma ConnectedTrans(edges: Edges, a: nat, b: nat, c: nat)
    requires Connected(edges, a, b) && Connected(edges, b, c)
    ensures Connected(edges, a, c)
  {
    var p :| PathFromTo(edges, p, a, b);
    var q :| PathFromTo(edges, q, b, c);
    PathConcat(edges, p, q, a, b, c);
  }

  lemma {:induction false} PathSymm(edges: Edges, p: seq<nat>, a: nat, b: nat)
    requires PathFromTo(edges, p, a, b)
    ensures Connected(edges, b, a)
  {
    if |p| == 1 {
      ConnectedRefl(edges, a);
    } else {
      PathSymm(edges, p[1..], p[1], b);
      ConnectedStep(edges, p[1], a);
      ConnectedTrans(edges, b, p[1], a);
    }
  }

  lemma ConnectedSymm(edges: Edges, a: nat, b: nat)
    requires Connected(edges, a, b)
    ensures Connected(edges, b, a)
  {
    var p :| PathFromTo(edges, p, a, b);
    PathSymm(edges, p, a, b);
  }

  lemma {:induction false} PathMono(edges: Edges, more: Edges, p: seq<nat>)
    requires edges <= more && IsPath(edges, p)
    ensures IsPath(more, p)
  {
    if |p| > 1 {
      PathMono(edges, more, p[1..]);
    }
  }

  lemma ConnectedMono(edges: Edges, more: Edges, a: nat, b: nat)
    requires edges <= more && Connected(edges, a, b)
    ensures Connected(more, a, b)
  {
    var p :| PathFromTo(edges, p, a, b);
    PathMono(edges, more, p);
    assert PathFromTo(more, p, a, b);
  }

  /** Whatever is constant along edges is constant on components. */
  lemma {:induction false} PathConstant<T>(edges: Edges, p: seq<nat>, mark: seq<T>)
    requires IsPath(edges, p)
    requires forall i :: 0 <= i < |p| ==> p[i] < |mark|
    requires forall a: nat, b: nat :: Adjacent(edges, a, b) && a < |mark| && b < |mark| ==> mark[a] == mark[b]
    ensures mark[p[0]] == mark[p[|p| - 1]]
  {
    if |p| > 1 {
      PathConstant(edges, p[1..], mark);
      assert Adjacent(edges, p[0], p[1]);
    }
  }

  // ---- the structure ----

  /**
   * `rep` names the root of every position and `rank` witnesses that parent links are acyclic.
   * Both are proof devices: the program state is `uf` alone.
   */
  ghost predicate Valid(uf: seq<nat>, rep: seq<nat>, rank: seq<nat>) {
    && |uf| == |rep| == |rank|
    && forall i {:trigger uf[i]} :: 0 <= i < |uf| ==>
         && uf[i] < |uf|
         && rep[uf[i]] == rep[i]
         && (uf[i] == i <==> rep[i] == i)
         && (uf[i] != i ==> rank[uf[i]] < rank[i])
  }

  /** Skipping a grandparent link keeps every root. */
  lemma HalveValid(uf: seq<nat>, rep: seq<nat>, rank: seq<nat>, x: nat)
    requires Valid(uf, rep, rank) && x < |uf| && uf[x] != x
    ensures Valid(uf[x := uf[uf[x]]], rep, rank)
    ensures rank[uf[uf[x]]] < rank[x]
  {
    assert uf[uf[x]] != x;
  }

  /** Linking one root under another merges the two trees. */
  lemma LinkValid(uf: seq<nat>, rep: seq<nat>, rank: seq<nat>, ri: nat, rj: nat)
    requires Valid(uf, rep, rank) && ri < |uf| && rj < |uf| && ri != rj
    requires uf[ri] == ri && uf[rj] == rj
    ensures Valid(uf[ri := rj], Merge(rep, ri, rj), Lift(rank, rep, ri, rank[rj] + 1))
  {
    var linked, merged := uf[ri := rj], Merge(rep, ri, rj);
    var lifted := Lift(rank, rep, ri, rank[rj] + 1);
    forall i | 0 <= i < |uf|
      ensures linked[i] < |uf| && merged[linked[i]] == merged[i]
      ensures linked[i] == i <==> merged[i] == i
      ensures linked[i] != i ==> lifted[linked[i]] < lifted[i]
    {
      assert uf[i] < |uf|;
    }
  }

  /** The labelling of `rep` is exactly the partition into components. */
  ghost predicate Labels(rep: seq<nat>, edges: Edges) {
    forall a, b :: 0 <= a < |rep| && 0 <= b < |rep| ==> (rep[a] == rep[b] <==> Connected(edges, a, b))
  }

  ghost predicate Within(edges: Edges, n: nat) {
    forall a, b :: (a, b) in edges ==> a < n && b < n
  }

  /** `find` with path halving: it may shorten links, never move a position to another root. */
  method Find(uf: array<nat>, start: nat, ghost rep: seq<nat>, ghost rank: seq<nat>) returns (x: nat)
    requires Valid(uf[..], rep, rank) && start < uf.Length
    modifies uf
    ensures Valid(uf[..], rep, rank)
    ensures x == rep[start] && x < uf.Length && uf[x] == x
  {
    x := start;
    while uf[x] != x
      invariant x < uf.Length
      invariant Valid(uf[..], rep, rank)
      invariant rep[x] == rep[start]
      decreases rank[x]
    {
      HalveValid(uf[..], rep, rank, x);
      ghost var halved := uf[..][x := uf[uf[x]]];
      uf[x] := uf[uf[x]];
      assert uf[..] == halved;
      assert rep[halved[x]] == rep[x];
      x := uf[x];
    }
  }

  ghost function Merge(rep: seq<nat>, ri: nat, rj: nat): (r: seq<nat>)
    ensures |r| == |rep|
    ensures forall i :: 0 <= i < |rep| ==> r[i] == if rep[i] == ri then rj else rep[i]
  {
    seq(|rep|, i requires 0 <= i < |rep| => if rep[i] == ri then rj else rep[i])
  }

  ghost function Lift(rank: seq<nat>, rep: seq<nat>, ri: nat, delta: nat): (r: seq<nat>)
    requires |rep| == |rank|
    ensures |r| == |rank|
    ensures forall i :: 0 <= i < |rank| ==> r[i] == if rep[i] == ri then rank[i] + delta else rank[i]
  {
    seq(|rank|, i requires 0 <= i < |rank| => if rep[i] == ri then rank[i] + delta else rank[i])
  }

  /** Adding one edge merges exactly the two components it touches. */
  lemma MergeLabels(rep: seq<nat>, edges: Edges, i: nat, j: nat)
    requires i < |rep| && j < |rep| && Within(edges, |rep|)
    requires Labels(rep, edges)
    ensures Labels(Merge(rep, rep[i], rep[j]), edges + {(i, j)})
  {
    var merged := Merge(rep, rep[i], rep[j]);
    var more := edges + {(i, j)};
    ConnectedStep(more, i, j);
    ConnectedSymm(more, i, j);
    forall a, b | 0 <= a < |rep| && 0 <= b < |rep|
      ensures merged[a] == merged[b] <==> Connected(more, a, b)
    {
      if merged[a] == merged[b] {
        if rep[a] == rep[b] {
          ConnectedMono(edges, more, a, b);
        } else {
          var u, v := if rep[a] == rep[i] then i else j, if rep[b] == rep[i] then i else j;
          assert rep[a] == rep[u] && rep[b] == rep[v];
          ConnectedMono(edges, more, a, u);
          ConnectedMono(edges, more, v, b);
          ConnectedRefl(more, u);
          ConnectedTrans(more, a, u, v);
          ConnectedTrans(more, a, v, b);
        }
      }
      if Connected(more, a, b) {
        var p :| PathFromTo(more, p, a, b);
        assert Within(more, |rep|);
        PathWithin(more, p, |rep|);
        forall x: nat, y: nat | Adjacent(more, x, y) && x < |rep| && y < |rep| ensures merged[x] == merged[y] {
          if Adjacent(edges, x, y) { ConnectedStep(edges, x, y); }
        }
        PathConstant(more, p, merged);
      }
    }
  }

  lemma {:induction false} PathWithin(edges: Edges, p: seq<nat>, n: nat)
    requires IsPath(edges, p) && Within(edges, n) && p[0] < n
    ensures forall i :: 0 <= i < |p| ==> p[i] < n
  {
    if |p| > 1 {
      PathWithin(edges, p[1..], n);
      assert p == [p[0]] + p[1..];
    }
  }

  /** One iteration of the union step: look both ends up and link unequal roots. */
  method Union(uf: array<nat>, i: nat, j: nat, ghost rep: seq<nat>, ghost rank: seq<nat>)
    returns (ghost rep': seq<nat>, ghost rank': seq<nat>)
    requires Valid(uf[..], rep, rank) && i < uf.Length && j < uf.Length
    modifies uf
    ensures Valid(uf[..], rep', rank')
    ensures rep' == Merge(rep, rep[i], rep[j])
  {
    var ri := Find(uf, i, rep, rank);
    var rj := Find(uf, j, rep, rank);
    rep', rank' := rep, rank;
    if ri != rj {
      LinkValid(uf[..], rep, rank, ri, rj);
      ghost var linked := uf[..][ri := rj];
      uf[ri] := rj;
      assert uf[..] == linked;
      rep' := Merge(rep, ri, rj);
      rank' := Lift(rank, rep, ri, rank[rj] + 1);
    } else {
      assert rep' == Merge(rep, rep[i], rep[j]);
    }
  }
}
