/** The quadratic longest-increasing-subsequence pass that decides which matched children stayed put. */
module Lis {
  import opened Sorting

  // ---- the recurrence ----

  /** `dp[i]` and `prev[i]` after the inner loop has looked at the first `n` positions. */
  function Scan(s: seq<int>, i: nat, n: nat): (r: (nat, int))
    requires n <= i < |s|
    ensures r.0 >= 1 && -1 <= r.1 < n
    decreases i, n
  {
    if n == 0 then (1, -1)
    else
      var r := Scan(s, i, n - 1);
      if s[n - 1] < s[i] && Dp(s, n - 1) + 1 > r.0 then (Dp(s, n - 1) + 1, n - 1) else r
  }

  /** Length of the longest increasing subsequence that ends at position `i`. */
  function Dp(s: seq<int>, i: nat): (r: nat)
    requires i < |s|
    ensures r >= 1
    decreases i, i + 1
  {
    Scan(s, i, i).0
  }

  function Prev(s: seq<int>, i: nat): (r: int)
    requires i < |s|
    ensures -1 <= r < i
  {
    Scan(s, i, i).1
  }

  /** The first position among the first `n` where the longest subsequence ends. */
  function Best(s: seq<int>, n: nat): (b: nat)
    requires 0 < n <= |s|
    ensures b < n
  {
    if n == 1 then 0
    else
      var b := Best(s, n - 1);
      if Dp(s, n - 1) > Dp(s, b) then n - 1 else b
  }

  /** The positions the `prev` links lead through, in ascending order. */
  function Chain(s: seq<int>, i: int): (p: seq<nat>)
    requires -1 <= i < |s|
    decreases i
  {
    if i == -1 then [] else Chain(s, Prev(s, i)) + [i]
  }

  /** Positions that stay: one longest increasing subsequence. */
  function Kept(s: seq<int>): seq<nat> {
    if s == [] then [] else Chain(s, Best(s, |s|))
  }

  // ---- it is longest ----

  lemma {:induction false} BestIsMax(s: seq<int>, n: nat, k: nat)
    requires k < n <= |s|
    ensures Dp(s, k) <= Dp(s, Best(s, n))
  {
    hide Dp;
    if k < n - 1 { BestIsMax(s, n - 1, k); }
  }

  lemma {:induction false} ScanFacts(s: seq<int>, i: nat, n: nat)
    requires n <= i < |s|
    ensures Scan(s, i, n).1 == -1 ==> Scan(s, i, n).0 == 1
    ensures Scan(s, i, n).1 >= 0 ==> s[Scan(s, i, n).1] < s[i] && Scan(s, i, n).0 == Dp(s, Scan(s, i, n).1) + 1
    decreases n
  {
    hide Dp;
    if n > 0 { ScanFacts(s, i, n - 1); }
  }

  /** Ascending positions that hold ascending values. */
  ghost predicate Increasing(s: seq<int>, p: seq<nat>) {
    && (forall k :: 0 <= k < |p| ==> p[k] < |s|)
    && (forall k, l :: 0 <= k < l < |p| ==> p[k] < p[l] && s[p[k]] < s[p[l]])
  }

  lemma {:induction false} ChainIncreases(s: seq<int>, i: nat)
    requires i < |s|
    ensures |Chain(s, i)| == Dp(s, i) && Chain(s, i)[|Chain(s, i)| - 1] == i
    ensures Increasing(s, Chain(s, i))
  {
    hide Dp;
    DpIs(s, i);
    ScanFacts(s, i, i);
    var before := Prev(s, i);
    if before >= 0 {
      ChainIncreases(s, before);
      var p, front := Chain(s, i), Chain(s, before);
      forall k, l | 0 <= k < l < |p| ensures p[k] < p[l] && s[p[k]] < s[p[l]] {
        if l == |front| && k < |front| - 1 {
          assert front[k] < front[|front| - 1] == before;
        }
      }
    }
  }

  lemma {:induction false} ScanIsMax(s: seq<int>, i: nat, n: nat, j: nat)
    requires j < n <= i < |s| && s[j] < s[i]
    ensures Scan(s, i, n).0 >= Dp(s, j) + 1
    decreases n
  {
    hide Dp;
    if j < n - 1 { ScanIsMax(s, i, n - 1, j); }
  }

  /** No increasing subsequence that ends at a position is longer than its `dp` entry. */
  lemma {:induction false} NoneLonger(s: seq<int>, p: seq<nat>)
    requires p != [] && Increasing(s, p)
    ensures |p| <= Dp(s, p[|p| - 1])
  {
    hide Dp, Scan;
    DpIs(s, p[|p| - 1]);
    if |p| > 1 {
      var front := p[..|p| - 1];
      NoneLonger(s, front);
      ScanIsMax(s, p[|p| - 1], p[|p| - 1], p[|p| - 2]);
    }
  }

  /** The moved set is minimal: what stays is increasing, and no increasing selection is longer. */
  lemma KeptIsLongest(s: seq<int>, p: seq<nat>)
    ensures Increasing(s, Kept(s))
    ensures Increasing(s, p) ==> |p| <= |Kept(s)|
  {
    if s != [] {
      ChainIncreases(s, Best(s, |s|));
      if p != [] && Increasing(s, p) {
        NoneLonger(s, p);
        BestIsMax(s, |s|, p[|p| - 1]);
      }
    } else if p != [] {
      assert !(p[0] < |s|);
    }
  }

  /** Where everything already ascends, nothing moves. */
  lemma AscendingAllKept(s: seq<int>, i: nat)
    requires forall k, l :: 0 <= k < l < |s| ==> s[k] < s[l]
    requires i < |s|
    ensures i in Kept(s)
  {
    var all := Range(|s|);
    var kept := Kept(s);
    KeptIsLongest(s, all);
    DistinctSize(kept);
    SubsetSize(ToSet(kept), |s|);
    assert i in ToSet(kept);
  }

  // ---- the pass itself ----

  ghost predicate Filled(s: seq<int>, dp: array<int>, prev: array<int>, n: nat)
    reads dp, prev
  {
    && n <= |s| == dp.Length == prev.Length
    && forall k :: 0 <= k < n ==> dp[k] == Dp(s, k) && prev[k] == Prev(s, k)
  }

  lemma ScanStep(s: seq<int>, i: nat, j: nat)
    requires j < i < |s|
    ensures Scan(s, i, j + 1) ==
            if s[j] < s[i] && Dp(s, j) + 1 > Scan(s, i, j).0 then (Dp(s, j) + 1, j) else Scan(s, i, j)
  {
    hide Dp;
  }

  lemma ScanStart(s: seq<int>, i: nat)
    requires i < |s|
    ensures Scan(s, i, 0) == (1, -1)
  {
  }

  /** The inner loop. */
  method FillEntry(s: seq<int>, dp: array<int>, prev: array<int>, i: nat)
    requires i < |s| && dp != prev && Filled(s, dp, prev, i)
    modifies dp, prev
    ensures Filled(s, dp, prev, i + 1)
  {
    hide Dp, Scan, Prev;
    dp[i], prev[i] := 1, -1;
    ScanStart(s, i);
    for j := 0 to i
      invariant forall k :: 0 <= k < i ==> dp[k] == Dp(s, k) && prev[k] == Prev(s, k)
      invariant (dp[i], prev[i]) == Scan(s, i, j)
    {
      ScanStep(s, i, j);
      if s[j] < s[i] && dp[j] + 1 > dp[i] {
        dp[i], prev[i] := dp[j] + 1, j;
      }
    }
    DpIs(s, i);
  }

  lemma DpIs(s: seq<int>, i: nat)
    requires i < |s|
    ensures (Dp(s, i), Prev(s, i)) == Scan(s, i, i)
  {
  }

  /** The two table-filling loops. */
  method FillTables(s: seq<int>, dp: array<int>, prev: array<int>) returns (best: nat)
    requires |s| > 0 && dp.Length == prev.Length == |s| && dp != prev
    modifies dp, prev
    ensures Filled(s, dp, prev, |s|)
    ensures best == Best(s, |s|)
  {
    hide Dp, Prev, Scan;
    best := 0;
    for i := 0 to |s|
      invariant Filled(s, dp, prev, i)
      invariant best < |s| && (if i == 0 then best == 0 else best == Best(s, i))
    {
      FillEntry(s, dp, prev, i);
      assert dp[best] == Dp(s, best) && dp[i] == Dp(s, i);
      if dp[i] > dp[best] {
        best := i;
      }
    }
  }

  /** `lisKept`. */
  method LisKept(s: seq<int>) returns (kept: set<nat>)
    ensures kept == ToSet(Kept(s))
  {
    kept := {};
    if |s| == 0 {
      return;
    }
    var dp, prev := new int[|s|], new int[|s|];
    var best := FillTables(s, dp, prev);
    var i: int := best;
    while i != -1
      invariant -1 <= i < |s|
      invariant Filled(s, dp, prev, |s|)
      invariant kept + ToSet(Chain(s, i)) == ToSet(Kept(s))
      decreases i + 1
    {
      assert prev[i] == Prev(s, i);
      ChainStep(s, i);
      kept := kept + {i};
      i := prev[i];
    }
  }

  lemma ChainStep(s: seq<int>, i: nat)
    requires i < |s|
    ensures ToSet(Chain(s, i)) == ToSet(Chain(s, Prev(s, i))) + {i}
  {
  }
}
