/**
 * Matching two lists of operations: equal operations are paired in order, so the n-th occurrence on
 * one side meets the n-th occurrence on the other.
 */
module Matching {
  import opened Sorting

  /** Where `op` occurs, in ascending order. */
  function Positions(ops: seq<string>, op: string): (r: seq<nat>)
    ensures forall k :: 0 <= k < |r| ==> r[k] < |ops| && ops[r[k]] == op
    ensures forall k, l :: 0 <= k < l < |r| ==> r[k] < r[l]
  {
    if ops == [] then []
    else
      var n := |ops| - 1;
      Positions(ops[..n], op) + if ops[n] == op then [n] else []
  }

  /** How many equal operations come before position `i`. */
  function Rank(ops: seq<string>, i: nat): nat
    requires i < |ops|
  {
    |Positions(ops[..i], ops[i])|
  }

  /** The position matched with `a[i]` in `b`, or the length of `b`. */
  function Partner(a: seq<string>, i: nat, b: seq<string>): (j: nat)
    requires i < |a|
    ensures j <= |b|
    ensures j < |b| ==> b[j] == a[i]
  {
    var ps := Positions(b, a[i]);
    if Rank(a, i) < |ps| then ps[Rank(a, i)] else |b|
  }

  type Pairs = seq<(nat, nat)>

  /** The matched pairs whose first position is below `n`. */
  function PairsUpTo(a: seq<string>, b: seq<string>, n: nat): (r: Pairs)
    requires n <= |a|
    ensures forall k :: 0 <= k < |r| ==> r[k].0 < n && r[k].1 < |b| && a[r[k].0] == b[r[k].1]
    ensures forall k, l :: 0 <= k < l < |r| ==> r[k].0 < r[l].0
  {
    if n == 0 then []
    else
      PairsUpTo(a, b, n - 1) + if Partner(a, n - 1, b) < |b| then [(n - 1, Partner(a, n - 1, b))] else []
  }

  lemma {:induction false} PairedWithPartner(a: seq<string>, b: seq<string>, n: nat)
    requires n <= |a|
    ensures forall k :: 0 <= k < |PairsUpTo(a, b, n)| ==>
              PairsUpTo(a, b, n)[k].1 == Partner(a, PairsUpTo(a, b, n)[k].0, b)
  {
    hide Partner;
    if n > 0 { PairedWithPartner(a, b, n - 1); }
  }

  function MatchedPairs(a: seq<string>, b: seq<string>): Pairs {
    PairsUpTo(a, b, |a|)
  }

  /** Positions of `a` below `n` without a partner in `b`. */
  function UnmatchedUpTo(a: seq<string>, b: seq<string>, n: nat): (r: seq<nat>)
    requires n <= |a|
    ensures forall k :: 0 <= k < |r| ==> r[k] < n
  {
    if n == 0 then []
    else UnmatchedUpTo(a, b, n - 1) + if Partner(a, n - 1, b) < |b| then [] else [n - 1]
  }

  function Unmatched(a: seq<string>, b: seq<string>): (r: seq<nat>)
    ensures forall k :: 0 <= k < |r| ==> r[k] < |a|
  {
    UnmatchedUpTo(a, b, |a|)
  }

  // ---- matching is symmetric ----

  /** Positions and ranks are inverse to each other. */
  lemma {:induction false} PositionOfRank(ops: seq<string>, j: nat)
    requires j < |ops|
    ensures Rank(ops, j) < |Positions(ops, ops[j])| && Positions(ops, ops[j])[Rank(ops, j)] == j
  {
    var n := |ops| - 1;
    if j < n {
      PositionOfRank(ops[..n], j);
      assert ops[..n][..j] == ops[..j];
    }
  }

  lemma {:induction false} RankOfPosition(ops: seq<string>, op: string, k: nat)
    requires k < |Positions(ops, op)|
    ensures Rank(ops, Positions(ops, op)[k]) == k
  {
    var n := |ops| - 1;
    if k < |Positions(ops[..n], op)| {
      RankOfPosition(ops[..n], op, k);
      var j := Positions(ops, op)[k];
      assert ops[..n][..j] == ops[..j];
    }
  }

  /** Two positions are matched exactly when they hold the same operation with the same rank. */
  lemma PartnerIff(a: seq<string>, i: nat, b: seq<string>, j: nat)
    requires i < |a| && j < |b|
    ensures Partner(a, i, b) == j <==> a[i] == b[j] && Rank(a, i) == Rank(b, j)
  {
    hide Positions, Rank;
    PositionOfRank(b, j);
    if Rank(a, i) < |Positions(b, a[i])| {
      RankOfPosition(b, a[i], Rank(a, i));
    }
  }

  lemma {:induction false} InPairs(a: seq<string>, b: seq<string>, n: nat, i: nat)
    requires i < n <= |a|
    ensures Partner(a, i, b) < |b| ==> (i, Partner(a, i, b)) in PairsUpTo(a, b, n)
  {
    hide Partner;
    if i < n - 1 { InPairs(a, b, n - 1, i); }
  }

  lemma PairIff(a: seq<string>, b: seq<string>, i: nat, j: nat)
    ensures (i, j) in MatchedPairs(a, b) <==> i < |a| && j < |b| && a[i] == b[j] && Rank(a, i) == Rank(b, j)
  {
    hide Partner, Rank, PairsUpTo;
    PairedWithPartner(a, b, |a|);
    if i < |a| && j < |b| {
      PartnerIff(a, i, b, j);
      InPairs(a, b, |a|, i);
    }
  }

  function Swap(p: (nat, nat)): (nat, nat) {
    (p.1, p.0)
  }

  /** The pairs seen from the other side are the same pairs. */
  lemma PairsSwap(a: seq<string>, b: seq<string>)
    ensures multiset(MatchedPairs(b, a)) == multiset(Map(Swap, MatchedPairs(a, b)))
  {
    hide PairsUpTo, Rank;
    var p, q := MatchedPairs(a, b), MatchedPairs(b, a);
    var s := Map(Swap, p);
    forall i: nat, j: nat ensures (j, i) in q <==> (i, j) in p {
      PairIff(a, b, i, j);
      PairIff(b, a, j, i);
    }
    SwapDistinct(a, b);
    forall x ensures x in q <==> x in s {
      SwapMember(p, x);
    }
    DistinctMultiset(q, s);
  }

  lemma SwapMember(p: Pairs, x: (nat, nat))
    ensures x in Map(Swap, p) <==> Swap(x) in p
  {
    if Swap(x) in p {
      var k :| 0 <= k < |p| && p[k] == Swap(x);
      assert Map(Swap, p)[k] == x;
    }
  }

  /** No position is matched twice, on either side. */
  lemma SwapDistinct(a: seq<string>, b: seq<string>)
    ensures var p := MatchedPairs(a, b);
            forall k, l :: 0 <= k < l < |p| ==> p[k].1 != p[l].1
  {
    hide PairsUpTo, Rank;
    PairedWithPartner(a, b, |a|);
    var p := MatchedPairs(a, b);
    forall k, l | 0 <= k < l < |p| ensures p[k].1 != p[l].1 {
      if p[k].1 == p[l].1 {
        var j := p[k].1;
        PartnerIff(a, p[k].0, b, j);
        PartnerIff(a, p[l].0, b, j);
        PartnerIff(b, j, a, p[k].0);
        PartnerIff(b, j, a, p[l].0);
      }
    }
  }

  /** A list matches itself position by position. */
  lemma {:induction false} SelfPairs(a: seq<string>, n: nat)
    requires n <= |a|
    ensures UnmatchedUpTo(a, a, n) == []
    ensures |PairsUpTo(a, a, n)| == n && forall k :: 0 <= k < n ==> PairsUpTo(a, a, n)[k] == (k, k)
  {
    hide Partner;
    if n > 0 {
      SelfPairs(a, n - 1);
      PartnerIff(a, n - 1, a, n - 1);
    }
  }

  // ---- the queues ----

  /** After the first `i` old entries: what is left of each operation's queue. */
  ghost predicate Queues(a: seq<string>, b: seq<string>, i: nat, queues: map<string, seq<nat>>)
    requires i <= |a|
  {
    forall op :: Queue(queues, op) == Rest(Positions(b, op), |Positions(a[..i], op)|)
  }

  function Queue(queues: map<string, seq<nat>>, op: string): seq<nat> {
    if op in queues then queues[op] else []
  }

  function Rest(s: seq<nat>, n: nat): seq<nat> {
    if n <= |s| then s[n..] else []
  }

  lemma PositionsStep(ops: seq<string>, i: nat, op: string)
    requires i < |ops|
    ensures Positions(ops[..i + 1], op) == Positions(ops[..i], op) + if ops[i] == op then [i] else []
  {
    assert ops[..i + 1][..i] == ops[..i];
  }

  method FillQueues(a: seq<string>, b: seq<string>) returns (queues: map<string, seq<nat>>)
    ensures Queues(a, b, 0, queues)
  {
    hide Positions;
    queues := map[];
    forall op { NoPositions(op); }
    assert b[..0] == [] && a[..0] == [];
    for j := 0 to |b|
      invariant forall op :: Queue(queues, op) == Positions(b[..j], op)
    {
      forall op { PositionsStep(b, j, op); }
      ghost var before := queues;
      queues := queues[b[j] := Queue(queues, b[j]) + [j]];
      assert forall op :: Queue(queues, op) == Queue(before, op) + if b[j] == op then [j] else [];
    }
    assert b[..|b|] == b;
  }

  lemma NoPositions(op: string)
    ensures Positions([], op) == []
  {
  }

  /** The front of the queue is the partner. */
  lemma QueueHead(a: seq<string>, b: seq<string>, i: nat, queues: map<string, seq<nat>>)
    requires i < |a| && Queues(a, b, i, queues)
    ensures var q := Queue(queues, a[i]);
            if |q| > 0 then Partner(a, i, b) == q[0] < |b| else Partner(a, i, b) == |b|
  {
  }

  lemma QueueStep(a: seq<string>, b: seq<string>, i: nat, queues: map<string, seq<nat>>)
    requires i < |a| && Queues(a, b, i, queues)
    ensures var q := Queue(queues, a[i]);
            Queues(a, b, i + 1, if |q| > 0 then queues[a[i] := q[1..]] else queues)
  {
    hide Positions;
    forall op { PositionsStep(a, i, op); }
  }

  predicate HasSecond(pairs: Pairs, j: nat) {
    exists k :: 0 <= k < |pairs| && pairs[k].1 == j
  }

  /** A new position was matched exactly when it has a partner among the old ones. */
  lemma MatchedIff(a: seq<string>, b: seq<string>, j: nat)
    requires j < |b|
    ensures HasSecond(MatchedPairs(a, b), j) <==> Partner(b, j, a) < |a|
  {
    hide PairsUpTo, Rank, Partner;
    PairedWithPartner(a, b, |a|);
    var pairs := MatchedPairs(a, b);
    if HasSecond(pairs, j) {
      var k :| 0 <= k < |pairs| && pairs[k].1 == j;
      PartnerIff(a, pairs[k].0, b, j);
      PartnerIff(b, j, a, pairs[k].0);
    }
    var i := Partner(b, j, a);
    if i < |a| {
      PartnerIff(b, j, a, i);
      PairIff(a, b, i, j);
      var k :| 0 <= k < |pairs| && pairs[k] == (i, j);
    }
  }

  /** `matchSlots`: one queue per operation, consumed from the front. */
  method MatchSlots(a: seq<string>, b: seq<string>) returns (pairs: Pairs, added: seq<nat>, removed: seq<nat>)
    ensures pairs == MatchedPairs(a, b)
    ensures removed == Unmatched(a, b)
    ensures added == Unmatched(b, a)
  {
    var matchedNew;
    pairs, removed, matchedNew := MatchOld(a, b);
    added := MissedNew(a, b, matchedNew);
  }

  method MatchOld(a: seq<string>, b: seq<string>) returns (pairs: Pairs, removed: seq<nat>, matchedNew: set<nat>)
    ensures pairs == MatchedPairs(a, b) && removed == Unmatched(a, b)
    ensures forall j :: j in matchedNew <==> HasSecond(pairs, j)
  {
    hide Positions, Partner, Queues;
    var queues := FillQueues(a, b);
    pairs, removed, matchedNew := [], [], {};
    for i := 0 to |a|
      invariant Queues(a, b, i, queues)
      invariant pairs == PairsUpTo(a, b, i) && removed == UnmatchedUpTo(a, b, i)
      invariant forall j :: j in matchedNew <==> HasSecond(pairs, j)
    {
      var q := Queue(queues, a[i]);
      QueueHead(a, b, i, queues);
      QueueStep(a, b, i, queues);
      if |q| > 0 {
        queues := queues[a[i] := q[1..]];
        SecondsStep(pairs, (i, q[0]));
        pairs := pairs + [(i, q[0])];
        matchedNew := matchedNew + {q[0]};
      } else {
        removed := removed + [i];
      }
    }
  }

  lemma SecondsStep(pairs: Pairs, p: (nat, nat))
    ensures forall j :: HasSecond(pairs + [p], j) <==> HasSecond(pairs, j) || j == p.1
  {
    var longer := pairs + [p];
    assert longer[|pairs|] == p;
    assert forall k :: 0 <= k < |pairs| ==> longer[k] == pairs[k];
  }

  method MissedNew(a: seq<string>, b: seq<string>, matchedNew: set<nat>) returns (added: seq<nat>)
    requires forall j :: j in matchedNew <==> HasSecond(MatchedPairs(a, b), j)
    ensures added == Unmatched(b, a)
  {
    hide PairsUpTo, Partner;
    added := [];
    for j := 0 to |b|
      invariant added == UnmatchedUpTo(b, a, j)
    {
      MatchedIff(a, b, j);
      if j !in matchedNew {
        added := added + [j];
      }
    }
  }
}
