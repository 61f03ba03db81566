/** Parent links between span ids: ancestors, cycles, and the pigeonhole behind every bounded walk. */
module ParentForest {
  import opened Sorting

  /** Each known id with its parent id; a parent that is not a key lies outside the span set. */
  type Up = map<string, string>

  /** `b` is the `k`-th ancestor of `a`. */
  ghost predicate NthUp(up: Up, a: string, k: nat, b: string)
    decreases k
  {
    if k == 0 then a == b else a in up && NthUp(up, up[a], k - 1, b)
  }

  ghost predicate Above(up: Up, a: string, b: string) {
    exists k: nat :: NthUp(up, a, k, b)
  }

  ghost predicate OnCycle(up: Up, a: string) {
    exists k: nat :: k > 0 && NthUp(up, a, k, a)
  }

  ghost predicate Acyclic(up: Up) {
    forall a :: a in up ==> !OnCycle(up, a)
  }

  /** After exactly `n` steps up from `a`, inside the set, comes an id whose parent is outside it. */
  ghost predicate Grounded(up: Up, a: string, n: nat)
    decreases n
  {
    a in up && if n == 0 then up[a] !in up else Grounded(up, up[a], n - 1)
  }

  ghost predicate HasGround(up: Up, a: string) {
    exists n: nat :: Grounded(up, a, n)
  }

  lemma {:induction false} NthUpUnique(up: Up, a: string, k: nat, b: string, c: string)
    requires NthUp(up, a, k, b) && NthUp(up, a, k, c)
    ensures b == c
    decreases k
  {
    if k > 0 { NthUpUnique(up, up[a], k - 1, b, c); }
  }

  lemma {:induction false} NthUpTrans(up: Up, a: string, j: nat, b: string, k: nat, c: string)
    requires NthUp(up, a, j, b) && NthUp(up, b, k, c)
    ensures NthUp(up, a, j + k, c)
    decreases j
  {
    if j > 0 { NthUpTrans(up, up[a], j - 1, b, k, c); }
  }

  /** The second half of a walk. */
  lemma {:induction false} NthUpRest(up: Up, a: string, j: nat, b: string, k: nat, c: string)
    requires NthUp(up, a, j, b) && NthUp(up, a, j + k, c)
    ensures NthUp(up, b, k, c)
    decreases j
  {
    if j > 0 { NthUpRest(up, up[a], j - 1, b, k, c); }
  }

  lemma {:induction false} GroundedUnique(up: Up, a: string, m: nat, n: nat)
    requires Grounded(up, a, m) && Grounded(up, a, n)
    ensures m == n
    decreases m
  {
    if m > 0 && n > 0 { GroundedUnique(up, up[a], m - 1, n - 1); }
  }

  /** Walk `n` steps, or report where the walk left the set. */
  lemma {:induction false} Walk(up: Up, a: string, n: nat) returns (ids: seq<string>)
    requires a in up
    ensures 0 < |ids| <= n + 1
    ensures forall i :: 0 <= i < |ids| ==> ids[i] in up && NthUp(up, a, i, ids[i])
    ensures |ids| <= n ==> Grounded(up, a, |ids| - 1)
    decreases n
  {
    if n == 0 || up[a] !in up {
      ids := [a];
    } else {
      var rest := Walk(up, up[a], n - 1);
      ids := [a] + rest;
      forall i | 0 <= i < |ids| ensures ids[i] in up && NthUp(up, a, i, ids[i]) {
        if i > 0 { assert ids[i] == rest[i - 1]; }
      }
    }
  }

  lemma PigeonHole(s: seq<string>, keys: set<string>) returns (i: nat, j: nat)
    requires forall x :: x in s ==> x in keys
    requires |s| > |keys|
    ensures i < j < |s| && s[i] == s[j]
  {
    if forall i, j :: 0 <= i < j < |s| ==> s[i] != s[j] {
      DistinctSize(s);
      SubsetCardinality(ToSet(s), keys);
      assert false;
    }
    i, j :| 0 <= i < j < |s| && s[i] == s[j];
  }

  lemma {:induction false} SubsetCardinality<T>(a: set<T>, b: set<T>)
    requires a <= b
    ensures |a| <= |b|
    ensures |a| == |b| ==> a == b
  {
    if a != {} {
      var x :| x in a;
      SubsetCardinality(a - {x}, b - {x});
      assert b == (b - {x}) + {x} && a == (a - {x}) + {x};
    } else if |b| == 0 {
      assert b == {};
    }
  }

  /** A walk as long as the set is large either leaves it or runs into a cycle. */
  lemma GroundOrCycle(up: Up, a: string) returns (c: string, k: nat)
    requires a in up
    ensures NthUp(up, a, k, c) && c in up
    ensures HasGround(up, a) || OnCycle(up, c)
    ensures k <= |up|
  {
    var ids := Walk(up, a, |up|);
    if |ids| <= |up| {
      assert Grounded(up, a, |ids| - 1);
      c, k := a, 0;
    } else {
      var i, j := PigeonHole(ids, up.Keys);
      c, k := ids[i], i;
      NthUpRest(up, a, i, ids[i], j - i, ids[j]);
      assert NthUp(up, c, j - i, c);
    }
  }

  /** A grounded id is on no cycle, and its depth is bounded by the size of the set. */
  lemma GroundedBound(up: Up, a: string, n: nat)
    requires Grounded(up, a, n)
    ensures n < |up|
  {
    var ids := Walk(up, a, n);
    if |ids| <= n { GroundedUnique(up, a, |ids| - 1, n); }
    if n >= |up| {
      var i, j := PigeonHole(ids, up.Keys);
      GroundedLater(up, a, n, i, ids[i]);
      GroundedLater(up, a, n, j, ids[j]);
      GroundedUnique(up, ids[i], n - i, n - j);
    }
  }

  lemma {:induction false} GroundedLater(up: Up, a: string, n: nat, i: nat, b: string)
    requires Grounded(up, a, n) && NthUp(up, a, i, b) && i <= n
    ensures Grounded(up, b, n - i)
    decreases n
  {
    if i > 0 { GroundedLater(up, up[a], n - 1, i - 1, b); }
  }

  lemma GroundedNoCycle(up: Up, a: string, n: nat)
    requires Grounded(up, a, n)
    ensures !OnCycle(up, a)
  {
    if OnCycle(up, a) {
      var k: nat :| k > 0 && NthUp(up, a, k, a);
      GroundedOffCycle(up, a, n, k);
    }
  }

  lemma {:induction false} GroundedOffCycle(up: Up, a: string, n: nat, k: nat)
    requires Grounded(up, a, n) && k > 0 && NthUp(up, a, k, a)
    ensures false
    decreases n
  {
    if k <= n {
      GroundedLater(up, a, n, k, a);
      GroundedUnique(up, a, n - k, n);
    } else {
      LeavesSet(up, a, n, k, a);
    }
  }

  lemma {:induction false} LeavesSet(up: Up, a: string, n: nat, k: nat, b: string)
    requires Grounded(up, a, n) && k > n && NthUp(up, a, k, b) && b in up
    ensures false
    decreases n
  {
    if n > 0 { LeavesSet(up, up[a], n - 1, k - 1, b); }
  }

  /** No cycle anywhere exactly when every id has a way out. */
  lemma AcyclicIffGrounded(up: Up)
    ensures Acyclic(up) <==> forall a :: a in up ==> HasGround(up, a)
  {
    forall a | a in up && HasGround(up, a) ensures !OnCycle(up, a) {
      var n: nat :| Grounded(up, a, n);
      GroundedNoCycle(up, a, n);
    }
    if Acyclic(up) {
      forall a | a in up ensures HasGround(up, a) {
        var c, k := GroundOrCycle(up, a);
      }
    }
  }
}
