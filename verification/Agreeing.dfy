/**
 * What an empty diff says: the two traces agree node by node, except in the owning service, in how members
 * that carry no run order are grouped, and in the order of those members.
 */
module Agreeing {
  import opened Ir
  import opened Sorting
  import opened Lis
  import opened Matching
  import opened Diff

  /** The n-th child with some operation on one side, and the n-th with it on the other. */
  ghost predicate Opposite(os: seq<Slot>, ns: seq<Slot>, i: nat, j: nat) {
    i < |os| && j < |ns| && OpOf(os[i]) == OpOf(ns[j]) && Rank(Ops(os), i) == Rank(Ops(ns), j)
  }

  /** Steps stand in the same order on both sides. */
  ghost predicate SameRunOrder(os: seq<Slot>, ns: seq<Slot>) {
    forall i: nat, j: nat, k: nat, l: nat ::
      (Opposite(os, ns, i, j) && Opposite(os, ns, k, l) && i < k && BothSequential(os, ns, (i, j)) && BothSequential(os, ns, (k, l)))
      ==> j < l
  }

  ghost predicate SameTags(was: Slot, now: Slot) {
    was.ordering == now.ordering && was.multiplicity == now.multiplicity
  }

  /** Two nodes agree: in their own content but for the service, and child by child. */
  ghost predicate Agrees(was: CanonicalSpan, now: CanonicalSpan)
    decreases Size(was)
  {
    var os, ns := SlotsUnder(was), SlotsUnder(now);
    && was.head.(service := now.head.service) == now.head
    && multiset(Ops(os)) == multiset(Ops(ns))
    && SameRunOrder(os, ns)
    && forall i: nat, j: nat :: Opposite(os, ns, i, j) ==>
         SameTags(os[i], ns[j]) && (SlotSmaller(was, i); Agrees(os[i].span, ns[j].span))
  }

  ghost predicate TracesAgree(a: Trace, b: Trace) {
    && a.schemaVersion == b.schemaVersion && a.flow == b.flow && a.service == b.service
    && a.root.Rooted? == b.root.Rooted?
    && (a.root.Rooted? ==> Agrees(a.root.span, b.root.span))
  }

  // ---- nobody is left over ----

  lemma {:induction false} PositionsCount(ops: seq<string>, op: string)
    ensures |Positions(ops, op)| == multiset(ops)[op]
  {
    if ops != [] {
      var n := |ops| - 1;
      PositionsCount(ops[..n], op);
      assert ops == ops[..n] + [ops[n]];
    }
  }

  lemma {:induction false} NobodyLeft(a: seq<string>, b: seq<string>, n: nat)
    requires n <= |a|
    ensures UnmatchedUpTo(a, b, n) == [] <==> forall i :: 0 <= i < n ==> Partner(a, i, b) < |b|
  {
    hide Partner;
    if n > 0 { NobodyLeft(a, b, n - 1); }
  }

  lemma PartnerExists(a: seq<string>, i: nat, b: seq<string>)
    requires i < |a|
    ensures Partner(a, i, b) < |b| <==> Rank(a, i) < |Positions(b, a[i])|
  {
    hide Rank, Positions;
  }

  /** `b` has every operation at least as often as `a`. */
  ghost predicate Covers(a: seq<string>, b: seq<string>) {
    forall op :: |Positions(a, op)| <= |Positions(b, op)|
  }

  lemma LeftoversIff(a: seq<string>, b: seq<string>)
    ensures Unmatched(a, b) == [] <==> Covers(a, b)
  {
    hide Partner, Positions, Rank, UnmatchedUpTo;
    NobodyLeft(a, b, |a|);
    if Unmatched(a, b) == [] {
      forall op ensures |Positions(a, op)| <= |Positions(b, op)| {
        var n := |Positions(a, op)|;
        if n > 0 {
          var i := Positions(a, op)[n - 1];
          RankOfPosition(a, op, n - 1);
          PartnerExists(a, i, b);
        }
      }
    }
    if Covers(a, b) {
      forall i | 0 <= i < |a| ensures Partner(a, i, b) < |b| {
        PositionOfRank(a, i);
        PartnerExists(a, i, b);
        assert |Positions(a, a[i])| <= |Positions(b, a[i])|;
      }
    }
  }

  lemma SameOpsIff(a: seq<string>, b: seq<string>)
    ensures Unmatched(a, b) == [] && Unmatched(b, a) == [] <==> multiset(a) == multiset(b)
  {
    hide Unmatched, Positions;
    LeftoversIff(a, b);
    LeftoversIff(b, a);
    forall op ensures |Positions(a, op)| == multiset(a)[op] && |Positions(b, op)| == multiset(b)[op] {
      PositionsCount(a, op);
      PositionsCount(b, op);
    }
    if Covers(a, b) && Covers(b, a) {
      forall op ensures multiset(a)[op] == multiset(b)[op] {
        assert |Positions(a, op)| <= |Positions(b, op)| && |Positions(b, op)| <= |Positions(a, op)|;
      }
    }
  }

  // ---- nobody has moved ----

  ghost predicate Ascends(s: seq<int>) {
    forall k, l :: 0 <= k < l < |s| ==> s[k] < s[l]
  }

  lemma {:induction false} FullSelection(p: seq<nat>, n: nat)
    requires |p| == n && (forall k :: 0 <= k < n ==> p[k] < n) && forall k, l :: 0 <= k < l < n ==> p[k] < p[l]
    ensures forall k :: 0 <= k < n ==> p[k] == k
  {
    if n > 0 {
      assert p[n - 1] < n;
      forall k | 0 <= k < n - 1 ensures p[k] < n - 1 { assert p[k] < p[n - 1]; }
      FullSelection(p[..n - 1], n - 1);
      forall k | 0 <= k < n - 1 ensures p[k] == k { assert p[..n - 1][k] == p[k]; }
      assert n > 1 ==> p[n - 2] == n - 2;
    }
  }

  /** A selection of positions is no longer than what it selects from. */
  lemma SelectionSize(p: seq<nat>, n: nat)
    requires (forall k :: 0 <= k < |p| ==> p[k] < n) && forall k, l :: 0 <= k < l < |p| ==> p[k] < p[l]
    ensures |p| <= n
  {
    DistinctSize(p);
    SubsetSize(ToSet(p), n);
  }

  lemma KeptAllIff(s: seq<int>)
    ensures |Kept(s)| == |s| <==> Ascends(s)
  {
    hide Kept;
    var kept, all := Kept(s), Range(|s|);
    KeptIsLongest(s, all);
    SelectionSize(kept, |s|);
    if |kept| == |s| {
      FullSelection(kept, |s|);
      forall k, l | 0 <= k < l < |s| ensures s[k] < s[l] { assert s[kept[k]] < s[kept[l]]; }
    }
    if Ascends(s) { assert Increasing(s, all); }
  }

  lemma MovingIff(os: seq<Slot>, ns: seq<Slot>)
    ensures Ascends(Seconds(Moving(os, ns))) <==> SameRunOrder(os, ns)
  {
    hide PairsOf, SequentialPairs, AscendingFirsts, Rank, BothSequential, Opposite;
    var pairs, moving := PairsOf(os, ns), Moving(os, ns);
    PairsAscend(os, ns);
    SequentialAscends(os, ns, pairs);
    SequentialMembers(os, ns, pairs);
    forall i: nat, j: nat ensures (i, j) in pairs <==> Opposite(os, ns, i, j) { OppositeIff(os, ns, i, j); }
    if Ascends(Seconds(moving)) {
      forall i: nat, j: nat, k: nat, l: nat |
        Opposite(os, ns, i, j) && Opposite(os, ns, k, l) && i < k && BothSequential(os, ns, (i, j)) && BothSequential(os, ns, (k, l))
        ensures j < l
      {
        assert (i, j) in moving && (k, l) in moving;
        var x :| 0 <= x < |moving| && moving[x] == (i, j);
        var y :| 0 <= y < |moving| && moving[y] == (k, l);
        FirstsReflect(moving, x, y);
      }
    }
    if SameRunOrder(os, ns) {
      forall k, l | 0 <= k < l < |moving| ensures moving[k].1 < moving[l].1 {
        assert moving[k] in moving && moving[l] in moving;
        assert moving[k] == (moving[k].0, moving[k].1) && moving[l] == (moving[l].0, moving[l].1);
        FirstsAscend(moving, k, l);
      }
    }
  }

  lemma FirstsAscend(p: Pairs, k: nat, l: nat)
    requires AscendingFirsts(p) && k < l < |p|
    ensures p[k].0 < p[l].0
  {
  }

  lemma OppositeIff(os: seq<Slot>, ns: seq<Slot>, i: nat, j: nat)
    ensures (i, j) in PairsOf(os, ns) <==> Opposite(os, ns, i, j)
  {
    hide MatchedPairs, Rank;
    PairIff(Ops(os), Ops(ns), i, j);
  }

  /** Nothing to report about the children as such: the same operations, and the steps among them in the same order. */
  lemma OwnSilentIff(os: seq<Slot>, ns: seq<Slot>)
    ensures OwnChanges(os, ns) == [] <==> multiset(Ops(os)) == multiset(Ops(ns)) && SameRunOrder(os, ns)
  {
    hide Tally, Kept, Moving, Unmatched, OwnChanges, Seconds, Ascends, SameRunOrder;
    OwnTally(os, ns, Removed);
    OwnTally(os, ns, Added);
    OwnTally(os, ns, Reordered);
    MovedCount(os, ns, Reordered);
    SameOpsIff(Ops(os), Ops(ns));
    KeptAllIff(Seconds(Moving(os, ns)));
    MovingIff(os, ns);
    if OwnChanges(os, ns) == [] {
      forall t ensures Tally(OwnChanges(os, ns), t) == 0 { TallySame([], Added, t); }
    } else {
      var t := OwnChanges(os, ns)[0].kind;
      OwnTally(os, ns, t);
      TallyFound(OwnChanges(os, ns));
    }
    assert |Seconds(Moving(os, ns))| == |Moving(os, ns)|;
  }

  lemma TallyFound(cs: seq<Change>)
    requires cs != []
    ensures Tally(cs, cs[0].kind) > 0
  {
    assert KindsOf(cs)[0] == cs[0].kind;
    assert cs[0].kind in KindsOf(cs);
  }

  // ---- the recursion ----

  ghost predicate NoneOf(was: CanonicalSpan, now: CanonicalSpan, n: nat)
    requires n <= PairCount(was, now)
  {
    forall k: nat | k < n :: OnePair(was, now, k) == []
  }

  lemma {:induction false} PairsSilent(was: CanonicalSpan, now: CanonicalSpan, n: nat)
    requires n <= PairCount(was, now)
    ensures PairChanges(was, now, n) == [] <==> NoneOf(was, now, n)
    decreases n
  {
    hide OnePair, PairCount;
    if n > 0 {
      PairsSilent(was, now, n - 1);
      assert PairChanges(was, now, n) == PairChanges(was, now, n - 1) + OnePair(was, now, n - 1);
      assert NoneOf(was, now, n) <==> NoneOf(was, now, n - 1) && OnePair(was, now, n - 1) == [];
    }
  }

  lemma TagsSilent(was: Slot, now: Slot)
    ensures TagChanges(was, now) == [] <==> SameTags(was, now)
  {
  }

  /** A matched pair of children is silent exactly when its tags are the same and it agrees below. */
  lemma {:induction false} OneSilent(was: CanonicalSpan, now: CanonicalSpan, k: nat)
    requires k < PairCount(was, now)
    ensures var p := PairAt(was, now, k);
            OnePair(was, now, k) == [] <==>
              SameTags(SlotsUnder(was)[p.0], SlotsUnder(now)[p.1]) && Agrees(SlotsUnder(was)[p.0].span, SlotsUnder(now)[p.1].span)
    decreases Size(was), 0
  {
    hide NodeChanges, Agrees, SlotsUnder, PairCount, PairAt, TagChanges, SameTags;
    var p := PairAt(was, now, k);
    var o, n := SlotsUnder(was)[p.0], SlotsUnder(now)[p.1];
    SlotSmaller(was, p.0);
    TagsSilent(o, n);
    NodeSilentIff(o.span, n.span);
    assert OnePair(was, now, k) == TagChanges(o, n) + NodeChanges(o.span, n.span);
  }

  /** A node is silent exactly when it agrees. */
  lemma {:induction false} NodeSilentIff(was: CanonicalSpan, now: CanonicalSpan)
    ensures NodeChanges(was, now) == [] <==> Agrees(was, now)
    decreases Size(was), 1
  {
    hide AttrChanges, OwnChanges, PairChanges, OnePair, MatchedPairs, SlotsUnder, SameRunOrder, SameTags, Opposite, Size;
    var os, ns := SlotsUnder(was), SlotsUnder(now);
    AttrSilentIff(was.head, now.head);
    OwnSilentIff(os, ns);
    PairsSilent(was, now, PairCount(was, now));
    var pairs := PairsOf(os, ns);
    assert forall k: nat :: k < |pairs| ==> pairs[k] == PairAt(was, now, k);
    forall k: nat | k < |pairs|
      ensures OnePair(was, now, k) == [] <==>
                SameTags(os[pairs[k].0], ns[pairs[k].1]) && Agrees(os[pairs[k].0].span, ns[pairs[k].1].span)
    {
      OneSilent(was, now, k);
    }
    forall i: nat, j: nat ensures (i, j) in pairs <==> Opposite(os, ns, i, j) { OppositeIff(os, ns, i, j); }
    EveryPair(pairs, os, ns);
  }

  /** Going through the matched pairs is going through the opposite positions. */
  lemma EveryPair(pairs: Pairs, os: seq<Slot>, ns: seq<Slot>)
    requires forall i: nat, j: nat :: (i, j) in pairs <==> Opposite(os, ns, i, j)
    requires forall k :: 0 <= k < |pairs| ==> pairs[k].0 < |os| && pairs[k].1 < |ns|
    ensures (forall k: nat :: k < |pairs| ==>
              SameTags(os[pairs[k].0], ns[pairs[k].1]) && Agrees(os[pairs[k].0].span, ns[pairs[k].1].span))
       <==> (forall i: nat, j: nat :: Opposite(os, ns, i, j) ==> SameTags(os[i], ns[j]) && Agrees(os[i].span, ns[j].span))
  {
    hide SameTags, Agrees, Rank, Ops;
    if forall k: nat :: k < |pairs| ==> SameTags(os[pairs[k].0], ns[pairs[k].1]) && Agrees(os[pairs[k].0].span, ns[pairs[k].1].span) {
      forall i: nat, j: nat | Opposite(os, ns, i, j) ensures SameTags(os[i], ns[j]) && Agrees(os[i].span, ns[j].span) {
        var k :| 0 <= k < |pairs| && pairs[k] == (i, j);
      }
    }
    if forall i: nat, j: nat :: Opposite(os, ns, i, j) ==> SameTags(os[i], ns[j]) && Agrees(os[i].span, ns[j].span) {
      forall k: nat | k < |pairs| ensures SameTags(os[pairs[k].0], ns[pairs[k].1]) && Agrees(os[pairs[k].0].span, ns[pairs[k].1].span) {
        assert pairs[k] in pairs && pairs[k] == (pairs[k].0, pairs[k].1);
      }
    }
  }

  /** An empty diff is agreement: not identity, but short of it only in what the diff never compares. */
  lemma EmptyDiffIff(a: Trace, b: Trace)
    ensures Changes(a, b) == [] <==> TracesAgree(a, b)
  {
    hide NodeChanges, Agrees;
    var raw := RawChanges(a, b);
    assert |Changes(a, b)| == |raw|;
    if a.root.Rooted? && b.root.Rooted? { NodeSilentIff(a.root.span, b.root.span); }
  }

  function OneNode(service: string): Trace {
    Trace("1", "checkout", "", Rooted(Tree(Header("GET /", Server, "", service, 1, "", "", false, map[]), [])))
  }

  /** Handing the only node to another service is such a difference: the traces differ and nothing is reported. */
  lemma ServiceUnseen()
    ensures OneNode("orders") != OneNode("billing") && Changes(OneNode("orders"), OneNode("billing")) == []
  {
    var a, b := OneNode("orders"), OneNode("billing");
    assert SlotsUnder(a.root.span) == [] && SlotsUnder(b.root.span) == [];
    assert a.root.span.head.service != b.root.span.head.service;
    EmptyDiffIff(a, b);
  }
}
