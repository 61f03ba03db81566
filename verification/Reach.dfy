/** Reachability over a finite call relation, and the breadth-first walk that computes it. */
module Reach {

  type Step = string -> set<string>

  ghost predicate IsWalk(next: Step, p: seq<string>) {
    p != [] && forall i :: 0 <= i < |p| - 1 ==> p[i + 1] in next(p[i])
  }

  ghost predicate WalkFromTo(next: Step, p: seq<string>, a: string, b: string) {
    IsWalk(next, p) && p[0] == a && p[|p| - 1] == b
  }

  /** `b` is `a`, or can be reached from it. */
  ghost predicate Reaches(next: Step, a: string, b: string) {
    exists p :: WalkFromTo(next, p, a, b)
  }

  lemma ReachesSelf(next: Step, a: string)
    ensures Reaches(next, a, a)
  {
    assert WalkFromTo(next, [a], a, a);
  }

  lemma ReachesStep(next: Step, a: string, b: string, c: string)
    requires Reaches(next, a, b) && c in next(b)
    ensures Reaches(next, a, c)
  {
    var p :| WalkFromTo(next, p, a, b);
    assert WalkFromTo(next, p + [c], a, c);
  }

  lemma {:induction false} WalkTrans(next: Step, a: string, q: seq<string>, b: string, c: string)
    requires Reaches(next, a, b) && WalkFromTo(next, q, b, c)
    ensures Reaches(next, a, c)
  {
    if |q| > 1 {
      ReachesStep(next, a, b, q[1]);
      assert WalkFromTo(next, q[1..], q[1], c);
      WalkTrans(next, a, q[1..], q[1], c);
    }
  }

  lemma ReachesTrans(next: Step, a: string, b: string, c: string)
    requires Reaches(next, a, b) && Reaches(next, b, c)
    ensures Reaches(next, a, c)
  {
    var q :| WalkFromTo(next, q, b, c);
    WalkTrans(next, a, q, b, c);
  }

  /** A set that no step leaves holds everything its members reach. */
  lemma {:induction false} StaysInside(next: Step, s: set<string>, p: seq<string>)
    requires IsWalk(next, p) && p[0] in s
    requires forall x, y :: x in s && y in next(x) ==> y in s
    ensures p[|p| - 1] in s
  {
    if |p| > 1 {
      assert p[1] in next(p[0]);
      StaysInside(next, s, p[1..]);
    }
  }

  /** Walking the links backwards reaches what reaches. */
  lemma {:induction false} Backwards(next: Step, back: Step, p: seq<string>)
    requires IsWalk(next, p)
    requires forall x, y :: y in next(x) ==> x in back(y)
    ensures Reaches(back, p[|p| - 1], p[0])
  {
    if |p| == 1 {
      ReachesSelf(back, p[0]);
    } else {
      Backwards(next, back, p[1..]);
      assert p[1] in next(p[0]);
      ReachesStep(back, p[|p| - 1], p[1], p[0]);
    }
  }

  /** Reached from a seed by at least one step. */
  ghost predicate ReachedFrom(next: Step, seeds: seq<string>, x: string) {
    exists s, t :: s in seeds && t in next(s) && Reaches(next, t, x)
  }

  /** What the walk keeps: everything found is reached, and only queued finds are unexplored. */
  ghost predicate Explored(next: Step, seeds: seq<string>, seen: set<string>, queue: seq<string>) {
    && (forall x :: x in seen ==> ReachedFrom(next, seeds, x))
    && (forall x :: x in queue ==> x in seen)
    && (forall x, y :: x in seen && x !in queue && y in next(x) ==> y in seen)
  }

  /** `enqueue`: the unseen neighbours of one function. */
  method Enqueue(around: set<string>, seen0: set<string>, queue0: seq<string>) returns (seen: set<string>, queue: seq<string>)
    ensures forall x :: x in seen <==> x in seen0 || x in around
    ensures forall x :: x in queue <==> x in queue0 || (x in around && x !in seen0)
    ensures |queue| + |seen0| == |queue0| + |seen|
  {
    var found: seq<string> := [];
    seen := seen0;
    var pending := around;
    while pending != {}
      invariant forall x :: x in seen <==> x in seen0 || (x in around && x !in pending)
      invariant forall x :: x in found <==> x in around && x !in pending && x !in seen0
      invariant pending <= around && |found| + |seen0| == |seen|
      decreases |pending|
    {
      var t :| t in pending;
      if t !in seen {
        AddOne(seen, t);
        seen := seen + {t};
        found := found + [t];
      }
      pending := pending - {t};
    }
    queue := queue0 + found;
  }

  lemma AddOne(s: set<string>, t: string)
    requires t !in s
    ensures |s + {t}| == |s| + 1
  {
  }

  /** `walk`: seeds are expanded but belong to the result only when an edge leads back to them. */
  method Walk(next: Step, universe: set<string>, seeds: seq<string>) returns (seen: set<string>)
    requires forall x :: next(x) <= universe
    ensures forall x :: x in seen <==> ReachedFrom(next, seeds, x)
  {
    var queue: seq<string>;
    seen, queue := Seeded(next, universe, seeds);
    while queue != []
      invariant Explored(next, seeds, seen, queue)
      invariant forall s, t :: s in seeds && t in next(s) ==> t in seen
      invariant seen <= universe
      decreases |universe - seen| + |queue|
    {
      var cur := queue[0];
      ghost var seen0, queue0 := seen, queue;
      seen, queue := Enqueue(next(cur), seen, queue[1..]);
      ExploreStep(next, seeds, seen0, queue0, seen, queue);
      SmallerRest(universe, seen0, seen);
    }
    forall x | ReachedFrom(next, seeds, x) ensures x in seen {
      var s, t :| s in seeds && t in next(s) && Reaches(next, t, x);
      var p :| WalkFromTo(next, p, t, x);
      StaysInside(next, seen, p);
    }
  }

  lemma SmallerRest(universe: set<string>, before: set<string>, after: set<string>)
    requires before <= after <= universe
    ensures |universe - after| + |after| == |universe - before| + |before|
  {
    assert universe == (universe - after) + after;
    assert universe == (universe - before) + before;
    assert |(universe - after) + after| == |universe - after| + |after|;
    assert |(universe - before) + before| == |universe - before| + |before|;
  }

  lemma ExploreStep(next: Step, seeds: seq<string>, seen0: set<string>, queue0: seq<string>, seen: set<string>, queue: seq<string>)
    requires Explored(next, seeds, seen0, queue0) && queue0 != []
    requires forall x :: x in seen <==> x in seen0 || x in next(queue0[0])
    requires forall x :: x in queue <==> x in queue0[1..] || (x in next(queue0[0]) && x !in seen0)
    ensures Explored(next, seeds, seen, queue)
  {
    var cur := queue0[0];
    assert queue0 == [cur] + queue0[1..];
    forall x | x in seen ensures ReachedFrom(next, seeds, x) {
      if x !in seen0 {
        var s, t :| s in seeds && t in next(s) && Reaches(next, t, cur);
        ReachesStep(next, t, cur, x);
      }
    }
  }

  method Seeded(next: Step, universe: set<string>, seeds: seq<string>) returns (seen: set<string>, queue: seq<string>)
    requires forall x :: next(x) <= universe
    ensures Explored(next, seeds, seen, queue) && seen <= universe
    ensures forall s, t :: s in seeds && t in next(s) ==> t in seen
  {
    seen, queue := {}, [];
    for i := 0 to |seeds|
      invariant Explored(next, seeds, seen, queue) && seen <= universe
      invariant forall x :: x in seen ==> x in queue
      invariant forall k, t :: 0 <= k < i && t in next(seeds[k]) ==> t in seen
    {
      ghost var seen0, queue0 := seen, queue;
      seen, queue := Enqueue(next(seeds[i]), seen, queue);
      forall x | x in seen ensures ReachedFrom(next, seeds, x) {
        if x !in seen0 {
          ReachesSelf(next, x);
          assert seeds[i] in seeds && x in next(seeds[i]);
        }
      }
    }
  }
}
