/**
 * What each entry of a diff is about: which operation it names, on which two nodes it was found, and how it is
 * ranked; entry by entry for one level of children, and for whole traces.
 */
module Reporting {
  import opened Ir
  import opened Sorting
  import opened Lis
  import opened Matching
  import opened Diff
  import opened Agreeing

  /** The entries of one type, in order. */
  function OfType(cs: seq<Change>, t: ChangeType): seq<Change> {
    if cs == [] then []
    else
      var n := |cs| - 1;
      OfType(cs[..n], t) + if cs[n].kind == t then [cs[n]] else []
  }

  function OpsNamed(cs: seq<Change>): (r: seq<string>)
    ensures |r| == |cs| && forall k :: 0 <= k < |cs| ==> r[k] == cs[k].op
  {
    seq(|cs|, k requires 0 <= k < |cs| => cs[k].op)
  }

  lemma {:induction false} OfTypeConcat(a: seq<Change>, b: seq<Change>, t: ChangeType)
    ensures OfType(a + b, t) == OfType(a, t) + OfType(b, t)
  {
    if b == [] {
      assert a + b == a;
    } else {
      var n := |b| - 1;
      assert (a + b)[..|a + b| - 1] == a + b[..n];
      OfTypeConcat(a, b[..n], t);
    }
  }

  lemma {:induction false} OfOneType(cs: seq<Change>, kind: ChangeType, t: ChangeType)
    requires forall c :: c in cs ==> c.kind == kind
    ensures OfType(cs, t) == if t == kind then cs else []
  {
    if cs != [] {
      var n := |cs| - 1;
      assert cs == cs[..n] + [cs[n]];
      OfOneType(cs[..n], kind, t);
    }
  }

  // ---- priorities ----

  /** A surface other services see: what is published or consumed, and calls to a peer that is no database. */
  predicate IsSurface(h: Header) {
    h.kind in {Producer, Consumer} || (h.kind == Client && h.peer != "" && (|h.op| < 3 || h.op[..3] != "DB "))
  }

  lemma PriorityIs(h: Header)
    ensures NodePriority(h) == 0 <==> IsSurface(h)
    ensures NodePriority(h) == 1 <==> !IsSurface(h) && h.tier == 1
    ensures NodePriority(h) in {0, 1, 3}
  {
  }

  // ---- added and removed ----

  ghost predicate Ascend(r: seq<nat>) {
    forall k, l :: 0 <= k < l < |r| ==> r[k] < r[l]
  }

  /** The operation at `i` occurs more often up to there than at all in `b`. */
  ghost predicate LeftOverAt(a: seq<string>, b: seq<string>, i: nat) {
    i < |a| && Rank(a, i) >= multiset(b)[a[i]]
  }

  ghost predicate LeftOver(a: seq<string>, b: seq<string>, gone: seq<nat>) {
    Ascend(gone) && forall i: nat :: i in gone <==> LeftOverAt(a, b, i)
  }

  /** The entry for one child, by its own operation and weight. */
  function Gone(s: Slot, kind: ChangeType): Change {
    Change(kind, NodePriority(s.span.head), s.span.head.op, Whole)
  }

  ghost predicate ListsGone(cs: seq<Change>, slots: seq<Slot>, gone: seq<nat>, kind: ChangeType) {
    |cs| == |gone| && forall k :: 0 <= k < |gone| ==> gone[k] < |slots| && cs[k] == Gone(slots[gone[k]], kind)
  }

  lemma {:induction false} UnmatchedIs(a: seq<string>, b: seq<string>, n: nat)
    requires n <= |a|
    ensures Ascend(UnmatchedUpTo(a, b, n))
    ensures forall i: nat :: i in UnmatchedUpTo(a, b, n) <==> i < n && LeftOverAt(a, b, i)
  {
    hide Partner, Rank;
    if n > 0 {
      UnmatchedIs(a, b, n - 1);
      PartnerExists(a, n - 1, b);
      PositionsCount(b, a[n - 1]);
    }
  }

  lemma {:induction false} RemovedAre(slots: seq<Slot>, gone: seq<nat>, kind: ChangeType)
    requires forall k :: 0 <= k < |gone| ==> gone[k] < |slots|
    ensures ListsGone(RemovedChanges(slots, gone, kind), slots, gone, kind)
  {
    hide NodePriority;
    if gone != [] {
      var n := |gone| - 1;
      RemovedAre(slots, gone[..n], kind);
      assert RemovedChanges(slots, gone, kind) == RemovedChanges(slots, gone[..n], kind) + [Gone(slots[gone[n]], kind)];
    }
  }

  function OpsAt(a: seq<string>, idx: seq<nat>): (r: seq<string>)
    requires forall k :: 0 <= k < |idx| ==> idx[k] < |a|
    ensures |r| == |idx| && forall k :: 0 <= k < |idx| ==> r[k] == a[idx[k]]
  {
    seq(|idx|, k requires 0 <= k < |idx| => a[idx[k]])
  }

  lemma {:induction false} LeftOverCount(a: seq<string>, b: seq<string>, n: nat, op: string)
    requires n <= |a|
    ensures multiset(OpsAt(a, UnmatchedUpTo(a, b, n)))[op]
         == if multiset(a[..n])[op] > multiset(b)[op] then multiset(a[..n])[op] - multiset(b)[op] else 0
  {
    hide Partner, UnmatchedUpTo, OpsAt;
    if n == 0 {
      assert a[..0] == [];
      NobodyYet(a, b);
    } else {
      var i := n - 1;
      LeftOverCount(a, b, i, op);
      OneMore(a[..i], a[i], op);
      assert a[..n] == a[..i] + [a[i]];
      LeftOverStep(a, b, i, op);
    }
  }

  lemma NobodyYet(a: seq<string>, b: seq<string>)
    ensures OpsAt(a, UnmatchedUpTo(a, b, 0)) == []
  {
  }

  lemma OneMore(s: seq<string>, t: string, op: string)
    ensures multiset(s + [t])[op] == multiset(s)[op] + if t == op then 1 else 0
  {
  }

  /** The next operation is left over exactly when as many came before it as the other side has. */
  lemma LeftOverStep(a: seq<string>, b: seq<string>, i: nat, op: string)
    requires i < |a|
    ensures multiset(OpsAt(a, UnmatchedUpTo(a, b, i + 1)))[op] ==
            multiset(OpsAt(a, UnmatchedUpTo(a, b, i)))[op] + if multiset(a[..i])[a[i]] >= multiset(b)[a[i]] && a[i] == op then 1 else 0
  {
    hide Partner, Rank, Positions;
    var before, gone := UnmatchedUpTo(a, b, i), UnmatchedUpTo(a, b, i + 1);
    PartnerExists(a, i, b);
    PositionsCount(b, a[i]);
    RankCount(a, i);
    if gone == before {
    } else {
      assert OpsAt(a, gone) == OpsAt(a, before) + [a[i]];
      OneMore(OpsAt(a, before), a[i], op);
    }
  }

  lemma RankCount(a: seq<string>, i: nat)
    requires i < |a|
    ensures Rank(a, i) == multiset(a[..i])[a[i]]
  {
    PositionsCount(a[..i], a[i]);
  }

  /** The operations left over on one side, as often as they are left over. */
  lemma GoneOps(slots: seq<Slot>, others: seq<Slot>, kind: ChangeType)
    ensures multiset(OpsNamed(RemovedChanges(slots, Unmatched(Ops(slots), Ops(others)), kind))) == multiset(Ops(slots)) - multiset(Ops(others))
  {
    hide RemovedChanges, UnmatchedUpTo;
    var a, b := Ops(slots), Ops(others);
    var gone := Unmatched(a, b);
    RemovedAre(slots, gone, kind);
    var named := OpsAt(a, gone);
    assert OpsNamed(RemovedChanges(slots, gone, kind)) == named;
    assert a[..|a|] == a;
    forall op ensures multiset(named)[op] == (multiset(a) - multiset(b))[op] { LeftOverCount(a, b, |a|, op); }
  }

  // ---- moved ----

  /** Steps on both sides, matched: the pairs a reorder can be about. */
  ghost predicate StepPairs(was: seq<Slot>, now: seq<Slot>, moving: Pairs) {
    && FirstsAscend(moving)
    && (forall k :: 0 <= k < |moving| ==> moving[k].1 < |now|)
    && forall i: nat, j: nat :: (i, j) in moving <==>
         Opposite(was, now, i, j) && was[i].ordering == Sequential && now[j].ordering == Sequential
  }

  ghost predicate Longest(s: seq<int>, p: seq<nat>) {
    Increasing(s, p) && forall q: seq<nat> :: Increasing(s, q) ==> |q| <= |p|
  }

  /** One entry for every step that is not in the longest common order, in order, by its operation. */
  ghost predicate ListsMoved(cs: seq<Change>, now: seq<Slot>, moving: Pairs, kept: seq<nat>, rest: seq<nat>) {
    && Ascend(rest) && (forall k: nat :: k in rest <==> k < |moving| && k !in kept)
    && MovesAt(cs, now, moving, rest)
  }

  ghost predicate FirstsAscend(pairs: Pairs) {
    forall k, l :: 0 <= k < l < |pairs| ==> pairs[k].0 < pairs[l].0
  }

  lemma {:induction false} SequentialAre(was: seq<Slot>, now: seq<Slot>, pairs: Pairs)
    requires FirstsAscend(pairs)
    ensures FirstsAscend(SequentialPairs(was, now, pairs))
    ensures forall p :: p in SequentialPairs(was, now, pairs) <==> p in pairs && BothSequential(was, now, p)
  {
    hide BothSequential, FirstsAscend;
    if pairs == [] {
      NothingAscends();
    } else {
      var n := |pairs| - 1;
      FrontAscends(pairs);
      SequentialAre(was, now, pairs[..n]);
      assert pairs == pairs[..n] + [pairs[n]];
      OneBehind(SequentialPairs(was, now, pairs[..n]), pairs);
      assert SequentialPairs(was, now, pairs[..n]) + [] == SequentialPairs(was, now, pairs[..n]);
    }
  }

  lemma NothingAscends()
    ensures FirstsAscend([])
  {
  }

  lemma FrontAscends(pairs: Pairs)
    requires pairs != [] && FirstsAscend(pairs)
    ensures FirstsAscend(pairs[..|pairs| - 1])
  {
  }

  lemma OneBehind(r: Pairs, pairs: Pairs)
    requires pairs != [] && FirstsAscend(pairs) && FirstsAscend(r) && forall p :: p in r ==> p in pairs[..|pairs| - 1]
    ensures FirstsAscend(r + [pairs[|pairs| - 1]])
  {
    var n := |pairs| - 1;
    forall k | 0 <= k < |r| ensures r[k].0 < pairs[n].0 {
      assert r[k] in r;
      var l :| 0 <= l < n && pairs[..n][l] == r[k];
      assert pairs[l].0 < pairs[n].0;
    }
  }

  lemma MovingAre(was: seq<Slot>, now: seq<Slot>)
    ensures StepPairs(was, now, SequentialPairs(was, now, PairsOf(was, now)))
  {
    hide Rank, Ops, PairsOf, SequentialPairs;
    var pairs := PairsOf(was, now);
    PairsAscend(was, now);
    SequentialAre(was, now, pairs);
    var moving := SequentialPairs(was, now, pairs);
    forall k | 0 <= k < |moving| ensures moving[k].1 < |now| { assert moving[k] in moving; }
    forall i: nat, j: nat
      ensures (i, j) in moving <==> Opposite(was, now, i, j) && was[i].ordering == Sequential && now[j].ordering == Sequential
    {
      OppositeIff(was, now, i, j);
      OppositeInside(was, now, i, j);
    }
  }

  lemma OppositeInside(was: seq<Slot>, now: seq<Slot>, i: nat, j: nat)
    ensures Opposite(was, now, i, j) ==> i < |was| && j < |now|
  {
  }

  lemma PairsAscend(was: seq<Slot>, now: seq<Slot>)
    ensures FirstsAscend(PairsOf(was, now))
  {
  }

  lemma {:induction false} MovedAre(now: seq<Slot>, pairs: Pairs, kept: seq<nat>, n: nat) returns (rest: seq<nat>)
    requires n <= |pairs| && forall k :: 0 <= k < |pairs| ==> pairs[k].1 < |now|
    ensures Ascend(rest) && forall k: nat :: k in rest <==> k < n && k !in kept
    ensures MovesAt(MovedChanges(now, pairs, ToSet(kept), n), now, pairs, rest)
  {
    hide MovesAt;
    if n == 0 {
      rest := [];
      assert MovesAt([], now, pairs, rest) by { NoMovesAt(now, pairs); }
    } else {
      var before := MovedAre(now, pairs, kept, n - 1);
      assert n - 1 in ToSet(kept) <==> n - 1 in kept;
      var cs := MovedChanges(now, pairs, ToSet(kept), n - 1);
      if n - 1 in kept {
        rest := before;
        assert cs + [] == cs;
      } else {
        rest := before + [n - 1];
        AscendMore(before, n - 1);
        MoreMoves(cs, now, pairs, before, n - 1);
      }
    }
  }

  /** One entry for each of these pairs, by its operation. */
  ghost predicate MovesAt(cs: seq<Change>, now: seq<Slot>, pairs: Pairs, rest: seq<nat>) {
    && |cs| == |rest|
    && forall k :: 0 <= k < |rest| ==> rest[k] < |pairs| && pairs[rest[k]].1 < |now|
                                       && cs[k] == Change(Reordered, STRUCTURAL, OpOf(now[pairs[rest[k]].1]), Whole)
  }

  lemma NoMovesAt(now: seq<Slot>, pairs: Pairs)
    ensures MovesAt([], now, pairs, [])
  {
  }

  lemma AscendMore(rest: seq<nat>, n: nat)
    requires Ascend(rest) && forall k: nat :: k in rest ==> k < n
    ensures Ascend(rest + [n])
  {
    forall k | 0 <= k < |rest| ensures rest[k] < n { assert rest[k] in rest; }
  }

  lemma MoreMoves(cs: seq<Change>, now: seq<Slot>, pairs: Pairs, rest: seq<nat>, n: nat)
    requires MovesAt(cs, now, pairs, rest) && n < |pairs| && pairs[n].1 < |now|
    ensures MovesAt(cs + [Change(Reordered, STRUCTURAL, OpOf(now[pairs[n].1]), Whole)], now, pairs, rest + [n])
  {
  }

  // ---- one level ----

  /**
   * What a level says about its children: every child without a counterpart is named once, by its operation and
   * its own weight, and of the matched steps those outside one longest common order are named as moved.
   */
  lemma LevelNames(was: seq<Slot>, now: seq<Slot>) returns (gone: seq<nat>, come: seq<nat>, moving: Pairs, kept: seq<nat>, rest: seq<nat>)
    ensures var cs := OwnChanges(was, now);
            && LeftOver(Ops(was), Ops(now), gone) && ListsGone(OfType(cs, Removed), was, gone, Removed)
            && LeftOver(Ops(now), Ops(was), come) && ListsGone(OfType(cs, Added), now, come, Added)
            && StepPairs(was, now, moving) && Longest(Seconds(moving), kept)
            && ListsMoved(OfType(cs, Reordered), now, moving, kept, rest)
            && cs == OfType(cs, Removed) + OfType(cs, Added) + OfType(cs, Reordered)
    ensures multiset(OpsNamed(OfType(OwnChanges(was, now), Removed))) == multiset(Ops(was)) - multiset(Ops(now))
    ensures multiset(OpsNamed(OfType(OwnChanges(was, now), Added))) == multiset(Ops(now)) - multiset(Ops(was))
  {
    hide *;
    gone, come := Unmatched(Ops(was), Ops(now)), Unmatched(Ops(now), Ops(was));
    LevelGone(was, now, gone, Removed);
    LevelGone(now, was, come, Added);
    kept, rest, moving := LevelMoved(was, now);
    OwnParts(was, now);
  }

  lemma LevelGone(slots: seq<Slot>, others: seq<Slot>, gone: seq<nat>, kind: ChangeType)
    requires gone == Unmatched(Ops(slots), Ops(others))
    ensures LeftOver(Ops(slots), Ops(others), gone)
    ensures ListsGone(RemovedChanges(slots, gone, kind), slots, gone, kind)
    ensures multiset(OpsNamed(RemovedChanges(slots, gone, kind))) == multiset(Ops(slots)) - multiset(Ops(others))
  {
    hide RemovedChanges, UnmatchedUpTo, Rank, OpsNamed, ListsGone;
    UnmatchedIs(Ops(slots), Ops(others), |slots|);
    RemovedAre(slots, gone, kind);
    GoneOps(slots, others, kind);
  }

  lemma LevelMoved(was: seq<Slot>, now: seq<Slot>) returns (kept: seq<nat>, rest: seq<nat>, moving: Pairs)
    ensures moving == SequentialPairs(was, now, PairsOf(was, now)) && kept == Kept(Seconds(moving))
    ensures StepPairs(was, now, moving) && Longest(Seconds(moving), kept)
    ensures ListsMoved(MovedChanges(now, moving, ToSet(kept), |moving|), now, moving, kept, rest)
  {
    hide MovedChanges, SequentialPairs, Kept, Increasing, Opposite, ToSet;
    moving := SequentialPairs(was, now, PairsOf(was, now));
    kept := Kept(Seconds(moving));
    MovingAre(was, now);
    rest := MovedAre(now, moving, kept, |moving|);
    KeptIsLongest(Seconds(moving), []);
    forall q: seq<nat> ensures Increasing(Seconds(moving), q) ==> |q| <= |kept| { KeptIsLongest(Seconds(moving), q); }
  }

  lemma OwnParts(was: seq<Slot>, now: seq<Slot>)
    ensures var cs, moving := OwnChanges(was, now), SequentialPairs(was, now, PairsOf(was, now));
            && OfType(cs, Removed) == RemovedChanges(was, Unmatched(Ops(was), Ops(now)), Removed)
            && OfType(cs, Added) == RemovedChanges(now, Unmatched(Ops(now), Ops(was)), Added)
            && OfType(cs, Reordered) == MovedChanges(now, moving, ToSet(Kept(Seconds(moving))), |moving|)
            && cs == OfType(cs, Removed) + OfType(cs, Added) + OfType(cs, Reordered)
  {
    hide RemovedChanges, MovedChanges, SequentialPairs, UnmatchedUpTo, Kept, OfType, ToSet, Seconds, PairsOf;
    var moving := SequentialPairs(was, now, PairsOf(was, now));
    var r := RemovedChanges(was, Unmatched(Ops(was), Ops(now)), Removed);
    var a := RemovedChanges(now, Unmatched(Ops(now), Ops(was)), Added);
    RemovedAre(was, Unmatched(Ops(was), Ops(now)), Removed);
    RemovedAre(now, Unmatched(Ops(now), Ops(was)), Added);
    var rest := MovedAre(now, moving, Kept(Seconds(moving)), |moving|);
    ThreeTypes(r, a, MovedChanges(now, moving, ToSet(Kept(Seconds(moving))), |moving|));
  }

  lemma ThreeTypes(r: seq<Change>, a: seq<Change>, m: seq<Change>)
    requires forall k :: 0 <= k < |r| ==> r[k].kind == Removed
    requires forall k :: 0 <= k < |a| ==> a[k].kind == Added
    requires forall k :: 0 <= k < |m| ==> m[k].kind == Reordered
    ensures var cs := r + a + m; OfType(cs, Removed) == r && OfType(cs, Added) == a && OfType(cs, Reordered) == m
  {
    hide OfType;
    forall t ensures OfType(r + a + m, t) == OfType(r, t) + OfType(a, t) + OfType(m, t) {
      OfTypeConcat(r + a, m, t);
      OfTypeConcat(r, a, t);
    }
    forall t ensures OfType(r, t) == (if t == Removed then r else [])
             ensures OfType(a, t) == (if t == Added then a else [])
             ensures OfType(m, t) == (if t == Reordered then m else []) {
      OfOneType(r, Removed, t);
      OfOneType(a, Added, t);
      OfOneType(m, Reordered, t);
    }
  }

  // ---- children ----

  /** The members of the groups in front of group `g`. */
  function MembersBefore(gs: seq<ChildGroup>, g: nat): nat
    requires g <= |gs|
  {
    if g == 0 then 0 else MembersBefore(gs, g - 1) + |gs[g - 1].members|
  }

  /** What a group says about the order of its members: a step, a race, or nothing. */
  lemma OrderingIs(g: ChildGroup)
    ensures OrderingOf(g) == Sequential <==> !g.concurrent && !g.unordered
    ensures OrderingOf(g) == Concurrent <==> g.concurrent
  {
  }

  lemma {:induction false} FlatUpTo(gs: seq<ChildGroup>, n: nat)
    requires n <= |gs|
    ensures Flatten(gs[..n]) <= Flatten(gs)
    decreases |gs|
  {
    var last := |gs| - 1;
    if n == |gs| {
      assert gs[..n] == gs;
    } else {
      FlatUpTo(gs[..last], n);
      assert gs[..last][..n] == gs[..n];
    }
  }

  lemma {:induction false} FlatCount(gs: seq<ChildGroup>, n: nat)
    requires n <= |gs|
    ensures |Flatten(gs[..n])| == MembersBefore(gs, n)
  {
    if n > 0 {
      FlatCount(gs, n - 1);
      FlatNext(gs, n - 1);
    } else {
      assert gs[..0] == [];
    }
  }

  lemma FlatNext(gs: seq<ChildGroup>, n: nat)
    requires n < |gs|
    ensures Flatten(gs[..n + 1]) == Flatten(gs[..n]) + SlotsOf(gs[n], |Flatten(gs[..n])|)
  {
    assert gs[..n + 1][..n] == gs[..n] && gs[..n + 1][n] == gs[n];
  }

  /** The children of a node are the members of its groups in order, each with what its group claims and with its position. */
  lemma ChildrenAre(t: CanonicalSpan, g: nat, m: nat)
    requires g < |t.children| && m < |t.children[g].members|
    ensures var i := MembersBefore(t.children, g) + m;
            && i < |SlotsUnder(t)|
            && SlotsUnder(t)[i] == Slot(t.children[g].members[m], OrderingOf(t.children[g]), t.children[g].multiplicity, i)
    ensures |SlotsUnder(t)| == MembersBefore(t.children, |t.children|)
  {
    hide Flatten;
    var gs := t.children;
    FlatCount(gs, g);
    FlatNext(gs, g);
    FlatUpTo(gs, g + 1);
    FlatCount(gs, |gs|);
    assert gs[..|gs|] == gs;
    var i := MembersBefore(gs, g) + m;
    assert Flatten(gs[..g + 1])[i] == SlotsOf(gs[g], |Flatten(gs[..g])|)[m];
  }

  // ---- fields and attributes ----

  /** The two nodes differ in this. */
  predicate Differ(aspect: Aspect, was: Header, now: Header) {
    match aspect
    case Entry => was.op != now.op
    case Status => was.status != now.status
    case ErrorClass => was.errorType != now.errorType
    case TierOf => was.tier != now.tier
    case PeerOf => was.peer != now.peer
    case KindOf => was.kind != now.kind
    case AsyncEdge => was.async != now.async
    case Attribute(k) => (k in was.attrs) != (k in now.attrs) || (k in was.attrs && k in now.attrs && was.attrs[k] != now.attrs[k])
    case _ => false
  }

  /** How it is ranked: outcome and identity with tier 1, so an operation that becomes tier 1, a changed edge as structure. */
  function Weight(aspect: Aspect, now: Header): nat {
    match aspect
    case Entry => 1
    case Status => 1
    case ErrorClass => 1
    case TierOf => if now.tier == 1 then 1 else 3
    case AsyncEdge => 2
    case _ => 3
  }

  predicate FieldReported(was: Header, now: Header, c: Change) {
    Differ(c.aspect, was, now) && c == Change(Changed, Weight(c.aspect, now), now.op, c.aspect)
  }

  /** A node reports exactly what it differs in, each once. */
  lemma FieldsAre(was: Header, now: Header)
    ensures forall c :: c in AttrChanges(was, now) <==> FieldReported(was, now, c)
    ensures forall i, j :: 0 <= i < j < |AttrChanges(was, now)| ==> AttrChanges(was, now)[i] != AttrChanges(was, now)[j]
  {
    hide FieldChanges, KeyChanges, InOrder, ChangedKeys, FieldReported, IsKey;
    FieldPart(was, now);
    KeyPart(was, now);
    FieldOnce(was, now);
    KeyOnce(was, now);
    TwoParts(FieldChanges(was, now), KeyChanges(now.op, InOrder(ChangedKeys(was.attrs, now.attrs))));
  }

  lemma TwoParts(a: seq<Change>, b: seq<Change>)
    requires forall i, j :: 0 <= i < j < |a| ==> a[i] != a[j]
    requires forall i, j :: 0 <= i < j < |b| ==> b[i] != b[j]
    requires forall c :: c in a ==> c !in b
    ensures forall c :: c in a + b <==> c in a || c in b
    ensures forall i, j :: 0 <= i < j < |a + b| ==> (a + b)[i] != (a + b)[j]
  {
    forall i, j | 0 <= i < j < |a + b| ensures (a + b)[i] != (a + b)[j] {
      if i < |a| <= j { assert a[i] in a && b[j - |a|] in b; }
    }
  }

  predicate IsKey(c: Change) { c.aspect.Attribute? }

  lemma FieldPart(was: Header, now: Header)
    ensures forall c :: c in FieldChanges(was, now) <==> FieldReported(was, now, c) && !IsKey(c)
  {
    forall c ensures c in FieldChanges(was, now) <==> FieldReported(was, now, c) && !IsKey(c) { OneField(was, now, c); }
  }

  lemma OneField(was: Header, now: Header, c: Change)
    ensures c in FieldChanges(was, now) <==> FieldReported(was, now, c) && !IsKey(c)
  {
    hide When, FieldReported;
    var op := now.op;
    var a, b := When(was.op != now.op, Change(Changed, TIER1, op, Entry)), When(was.status != now.status, Change(Changed, TIER1, op, Status));
    var d := When(was.errorType != now.errorType, Change(Changed, TIER1, op, ErrorClass));
    var e := When(was.tier != now.tier, Change(Changed, if now.tier == 1 && was.tier != 1 then TIER1 else LOWER, op, TierOf));
    var f, g := When(was.peer != now.peer, Change(Changed, LOWER, op, PeerOf)), When(was.kind != now.kind, Change(Changed, LOWER, op, KindOf));
    var h := When(was.async != now.async, Change(Changed, STRUCTURAL, op, AsyncEdge));
    InSeven(a, b, d, e, f, g, h, c);
    InWhen(was.op != now.op, Change(Changed, TIER1, op, Entry), c);
    InWhen(was.status != now.status, Change(Changed, TIER1, op, Status), c);
    InWhen(was.errorType != now.errorType, Change(Changed, TIER1, op, ErrorClass), c);
    InWhen(was.tier != now.tier, Change(Changed, if now.tier == 1 && was.tier != 1 then TIER1 else LOWER, op, TierOf), c);
    InWhen(was.peer != now.peer, Change(Changed, LOWER, op, PeerOf), c);
    InWhen(was.kind != now.kind, Change(Changed, LOWER, op, KindOf), c);
    InWhen(was.async != now.async, Change(Changed, STRUCTURAL, op, AsyncEdge), c);
    ReportedCases(was, now, c);
  }

  lemma InSeven(a: seq<Change>, b: seq<Change>, d: seq<Change>, e: seq<Change>, f: seq<Change>, g: seq<Change>, h: seq<Change>, c: Change)
    ensures c in a + b + d + e + f + g + h <==> c in a || c in b || c in d || c in e || c in f || c in g || c in h
  {
    InTwo(a + b + d + e, f + g + h, c);
    InTwo(a + b, d + e, c);
    InTwo(f + g, h, c);
    assert a + b + d + e + f + g + h == (a + b + d + e) + (f + g + h);
    assert a + b + d + e == (a + b) + (d + e);
  }

  lemma InTwo(a: seq<Change>, b: seq<Change>, c: Change)
    ensures c in a + b <==> c in a || c in b
  {
  }

  lemma ReportedCases(was: Header, now: Header, c: Change)
    ensures FieldReported(was, now, c) && !IsKey(c) <==>
            || (was.op != now.op && c == Change(Changed, TIER1, now.op, Entry))
            || (was.status != now.status && c == Change(Changed, TIER1, now.op, Status))
            || (was.errorType != now.errorType && c == Change(Changed, TIER1, now.op, ErrorClass))
            || (was.tier != now.tier && c == Change(Changed, if now.tier == 1 && was.tier != 1 then TIER1 else LOWER, now.op, TierOf))
            || (was.peer != now.peer && c == Change(Changed, LOWER, now.op, PeerOf))
            || (was.kind != now.kind && c == Change(Changed, LOWER, now.op, KindOf))
            || (was.async != now.async && c == Change(Changed, STRUCTURAL, now.op, AsyncEdge))
  {
  }

  lemma InWhen(b: bool, x: Change, c: Change)
    ensures c in When(b, x) <==> b && c == x
  {
  }

  lemma FieldOnce(was: Header, now: Header)
    ensures forall i, j :: 0 <= i < j < |FieldChanges(was, now)| ==> FieldChanges(was, now)[i] != FieldChanges(was, now)[j]
  {
    hide When, AspectsBelow;
    var r := SomeFields(was, now);
    var op := now.op;
    var s := NextAspect(r, was.tier != now.tier, Change(Changed, if now.tier == 1 && was.tier != 1 then TIER1 else LOWER, op, TierOf), 3);
    s := NextAspect(s, was.peer != now.peer, Change(Changed, LOWER, op, PeerOf), 4);
    s := NextAspect(s, was.kind != now.kind, Change(Changed, LOWER, op, KindOf), 5);
    s := NextAspect(s, was.async != now.async, Change(Changed, STRUCTURAL, op, AsyncEdge), 6);
    BelowOnce(s, 7);
  }

  /** The first three comparisons. */
  lemma SomeFields(was: Header, now: Header) returns (r: seq<Change>)
    ensures AspectsBelow(r, 3)
    ensures r == When(was.op != now.op, Change(Changed, TIER1, now.op, Entry))
              + When(was.status != now.status, Change(Changed, TIER1, now.op, Status))
              + When(was.errorType != now.errorType, Change(Changed, TIER1, now.op, ErrorClass))
  {
    hide When, AspectsBelow;
    r := FirstAspect(was.op != now.op, Change(Changed, TIER1, now.op, Entry));
    r := NextAspect(r, was.status != now.status, Change(Changed, TIER1, now.op, Status), 1);
    r := NextAspect(r, was.errorType != now.errorType, Change(Changed, TIER1, now.op, ErrorClass), 2);
  }

  lemma FirstAspect(b: bool, x: Change) returns (r: seq<Change>)
    requires AspectNumber(x.aspect) == 0
    ensures r == When(b, x) && AspectsBelow(r, 1)
  {
    r := When(b, x);
  }

  lemma BelowOnce(cs: seq<Change>, n: nat)
    requires AspectsBelow(cs, n)
    ensures forall i, j :: 0 <= i < j < |cs| ==> cs[i] != cs[j]
  {
  }

  function AspectNumber(a: Aspect): nat {
    match a
    case Entry => 0
    case Status => 1
    case ErrorClass => 2
    case TierOf => 3
    case PeerOf => 4
    case KindOf => 5
    case AsyncEdge => 6
    case _ => 7
  }

  ghost predicate AspectsBelow(cs: seq<Change>, n: nat) {
    && (forall i :: 0 <= i < |cs| ==> AspectNumber(cs[i].aspect) < n)
    && forall i, j :: 0 <= i < j < |cs| ==> AspectNumber(cs[i].aspect) < AspectNumber(cs[j].aspect)
  }

  lemma NextAspect(a: seq<Change>, b: bool, x: Change, n: nat) returns (r: seq<Change>)
    requires AspectsBelow(a, n) && AspectNumber(x.aspect) == n
    ensures r == a + When(b, x) && AspectsBelow(r, n + 1)
  {
    r := a + When(b, x);
  }

  lemma KeyPart(was: Header, now: Header)
    ensures forall c :: c in KeyChanges(now.op, InOrder(ChangedKeys(was.attrs, now.attrs))) <==> FieldReported(was, now, c) && IsKey(c)
  {
    hide InOrder;
    var set' := ChangedKeys(was.attrs, now.attrs);
    var keys := InOrder(set');
    InOrderMembers(set');
    var cs := KeyChanges(now.op, keys);
    forall c ensures c in cs <==> FieldReported(was, now, c) && IsKey(c) {
      if FieldReported(was, now, c) && IsKey(c) {
        assert c.aspect.key in set';
        var i :| 0 <= i < |keys| && keys[i] == c.aspect.key;
        assert cs[i] == c;
      }
      if c in cs {
        var i :| 0 <= i < |cs| && cs[i] == c;
        assert keys[i] in keys;
      }
    }
  }

  lemma KeyOnce(was: Header, now: Header)
    ensures var cs := KeyChanges(now.op, InOrder(ChangedKeys(was.attrs, now.attrs)));
            forall i, j :: 0 <= i < j < |cs| ==> cs[i] != cs[j]
  {
    var keys := ChangedKeys(was.attrs, now.attrs);
    ReorderOnce(Listing(keys), InOrder(keys));
  }

  lemma ReorderOnce(a: seq<string>, b: seq<string>)
    requires multiset(a) == multiset(b) && forall i, j :: 0 <= i < j < |a| ==> a[i] != a[j]
    ensures forall i, j :: 0 <= i < j < |b| ==> b[i] != b[j]
  {
    var p := FindPermutation(b, a);
    assert forall i, j :: 0 <= i < j < |b| ==> p[i] < p[j] || p[j] < p[i];
  }

  // ---- whole trees ----

  /** Two nodes that meet on the way down: the roots, and below any two that meet, counterparts among their children. */
  ghost predicate Meet(was: CanonicalSpan, now: CanonicalSpan, u: CanonicalSpan, v: CanonicalSpan)
    decreases Size(was)
  {
    || (u == was && v == now)
    || exists i: nat, j: nat :: Opposite(SlotsUnder(was), SlotsUnder(now), i, j)
         && (SlotSmaller(was, i); Meet(SlotsUnder(was)[i].span, SlotsUnder(now)[j].span, u, v))
  }

  /** Two counterparts whose groups claim a different order, or a different multiplicity. */
  ghost predicate TagReported(os: seq<Slot>, ns: seq<Slot>, i: nat, j: nat, c: Change) {
    && Opposite(os, ns, i, j)
    && (|| (os[i].ordering != ns[j].ordering && c == Change(ConcurrencyChanged, STRUCTURAL, OpOf(ns[j]), Whole))
        || (os[i].multiplicity != ns[j].multiplicity && c == Change(CardinalityChanged, STRUCTURAL, OpOf(ns[j]), Whole)))
  }

  ghost predicate AnyTag(os: seq<Slot>, ns: seq<Slot>, c: Change) {
    exists i: nat, j: nat :: TagReported(os, ns, i, j, c)
  }

  /** What two nodes that meet give rise to. */
  ghost predicate Found(u: CanonicalSpan, v: CanonicalSpan, c: Change) {
    || FieldReported(u.head, v.head, c)
    || c in OwnChanges(SlotsUnder(u), SlotsUnder(v))
    || AnyTag(SlotsUnder(u), SlotsUnder(v), c)
  }

  ghost predicate FoundBelow(was: CanonicalSpan, now: CanonicalSpan, c: Change) {
    exists u, v :: Meet(was, now, u, v) && Found(u, v, c)
  }

  lemma {:induction false} PairPart(was: CanonicalSpan, now: CanonicalSpan, n: nat, c: Change)
    requires n <= PairCount(was, now)
    ensures c in PairChanges(was, now, n) <==> exists k: nat :: k < n && c in OnePair(was, now, k)
  {
    hide OnePair, PairCount, PairChanges;
    PairStep(was, now, n);
    if n > 0 {
      PairPart(was, now, n - 1, c);
      InTwo(PairChanges(was, now, n - 1), OnePair(was, now, n - 1), c);
      if k: nat :| k < n && c in OnePair(was, now, k) {
        assert k < n - 1 || k == n - 1;
      }
    }
  }

  lemma PairStep(was: CanonicalSpan, now: CanonicalSpan, n: nat)
    requires n <= PairCount(was, now)
    ensures PairChanges(was, now, n) == if n == 0 then [] else PairChanges(was, now, n - 1) + OnePair(was, now, n - 1)
  {
    hide OnePair, PairCount;
  }

  /** Entries come from matched nodes and from nowhere else. */
  lemma {:induction false} NodeEntries(was: CanonicalSpan, now: CanonicalSpan, c: Change)
    ensures c in NodeChanges(was, now) <==> FoundBelow(was, now, c)
    decreases Size(was)
  {
    hide Meet, Found, OwnChanges, AttrChanges, PairChanges, FieldReported, SlotsUnder, Size, OnePair, Opposite;
    var os, ns := SlotsUnder(was), SlotsUnder(now);
    FieldsAre(was.head, now.head);
    PairPart(was, now, PairCount(was, now), c);
    InThree(AttrChanges(was.head, now.head), OwnChanges(os, ns), PairChanges(was, now, PairCount(was, now)), c);
    forall k: nat | k < PairCount(was, now)
      ensures c in OnePair(was, now, k) <==> AtPair(was, now, PairAt(was, now, k).0, PairAt(was, now, k).1, c)
    {
      OneEntry(was, now, k, c);
    }
    SomePair(was, now, c);
    Downwards(was, now, c);
  }

  lemma SomePair(was: CanonicalSpan, now: CanonicalSpan, c: Change)
    requires forall k: nat :: k < PairCount(was, now) ==>
               (c in OnePair(was, now, k) <==> AtPair(was, now, PairAt(was, now, k).0, PairAt(was, now, k).1, c))
    ensures (exists k: nat :: k < PairCount(was, now) && c in OnePair(was, now, k)) <==> exists i: nat, j: nat :: AtPair(was, now, i, j, c)
  {
    hide OnePair, PairAt, PairCount, FoundBelow, TagReported, Opposite;
    PairsAreOpposite(was, now);
    if k: nat :| k < PairCount(was, now) && c in OnePair(was, now, k) {
      assert AtPair(was, now, PairAt(was, now, k).0, PairAt(was, now, k).1, c);
    }
    if i: nat, j: nat :| AtPair(was, now, i, j, c) {
      assert Opposite(SlotsUnder(was), SlotsUnder(now), i, j);
      var k: nat :| k < PairCount(was, now) && PairAt(was, now, k) == (i, j);
      PairHas(was, now, k, c);
    }
  }

  lemma PairHas(was: CanonicalSpan, now: CanonicalSpan, k: nat, c: Change)
    requires k < PairCount(was, now) && c in OnePair(was, now, k)
    ensures exists k: nat :: k < PairCount(was, now) && c in OnePair(was, now, k)
  {
    hide OnePair, PairCount;
  }

  lemma InThree(a: seq<Change>, b: seq<Change>, d: seq<Change>, c: Change)
    ensures c in a + b + d <==> c in a || c in b || c in d
  {
  }

  /** What is said about two counterparts: their tags, and all that is found below them. */
  ghost predicate AtPair(was: CanonicalSpan, now: CanonicalSpan, i: nat, j: nat, c: Change) {
    && Opposite(SlotsUnder(was), SlotsUnder(now), i, j)
    && (TagReported(SlotsUnder(was), SlotsUnder(now), i, j, c) || FoundBelow(SlotsUnder(was)[i].span, SlotsUnder(now)[j].span, c))
  }

  lemma OneEntry(was: CanonicalSpan, now: CanonicalSpan, k: nat, c: Change)
    requires k < PairCount(was, now)
    ensures c in OnePair(was, now, k) <==> AtPair(was, now, PairAt(was, now, k).0, PairAt(was, now, k).1, c)
    decreases Size(was), 0
  {
    hide NodeChanges, FoundBelow, SlotsUnder, Size, When;
    var i, j := PairAt(was, now, k).0, PairAt(was, now, k).1;
    var o, n := SlotsUnder(was)[i], SlotsUnder(now)[j];
    SlotSmaller(was, i);
    NodeEntries(o.span, n.span, c);
    PairsAreOpposite(was, now);
    assert Opposite(SlotsUnder(was), SlotsUnder(now), i, j);
    InTwo(TagChanges(o, n), NodeChanges(o.span, n.span), c);
    InTwo(When(o.ordering != n.ordering, Change(ConcurrencyChanged, STRUCTURAL, OpOf(n), Whole)),
          When(o.multiplicity != n.multiplicity, Change(CardinalityChanged, STRUCTURAL, OpOf(n), Whole)), c);
    InWhen(o.ordering != n.ordering, Change(ConcurrencyChanged, STRUCTURAL, OpOf(n), Whole), c);
    InWhen(o.multiplicity != n.multiplicity, Change(CardinalityChanged, STRUCTURAL, OpOf(n), Whole), c);
  }

  lemma PairsAreOpposite(was: CanonicalSpan, now: CanonicalSpan)
    ensures forall k: nat :: k < PairCount(was, now) ==>
              Opposite(SlotsUnder(was), SlotsUnder(now), PairAt(was, now, k).0, PairAt(was, now, k).1)
    ensures forall i: nat, j: nat :: Opposite(SlotsUnder(was), SlotsUnder(now), i, j) ==>
              exists k: nat :: k < PairCount(was, now) && PairAt(was, now, k) == (i, j)
  {
    hide Opposite, PairsOf, SlotsUnder;
    var pairs := PairsOf(SlotsUnder(was), SlotsUnder(now));
    forall i: nat, j: nat ensures (i, j) in pairs <==> Opposite(SlotsUnder(was), SlotsUnder(now), i, j) {
      OppositeIff(SlotsUnder(was), SlotsUnder(now), i, j);
    }
    forall k: nat | k < PairCount(was, now) ensures Opposite(SlotsUnder(was), SlotsUnder(now), PairAt(was, now, k).0, PairAt(was, now, k).1) {
      var p := PairAt(was, now, k);
      assert pairs[k] == p && (p.0, p.1) == p;
      assert p in pairs;
    }
    forall i: nat, j: nat | Opposite(SlotsUnder(was), SlotsUnder(now), i, j)
      ensures exists k: nat :: k < PairCount(was, now) && PairAt(was, now, k) == (i, j)
    {
      var k :| 0 <= k < |pairs| && pairs[k] == (i, j);
      assert PairAt(was, now, k) == (i, j);
    }
  }

  /** What is found below two nodes is found at them or at some pair of counterparts. */
  lemma Downwards(was: CanonicalSpan, now: CanonicalSpan, c: Change)
    ensures FoundBelow(was, now, c) <==>
            || FieldReported(was.head, now.head, c) || c in OwnChanges(SlotsUnder(was), SlotsUnder(now))
            || exists i: nat, j: nat :: AtPair(was, now, i, j, c)
  {
    hide OwnChanges, FieldReported, SlotsUnder, Size, Rank, Ops;
    var os, ns := SlotsUnder(was), SlotsUnder(now);
    assert Meet(was, now, was, now);
    if FoundBelow(was, now, c) {
      var u, v :| Meet(was, now, u, v) && Found(u, v, c);
      if !(u == was && v == now) {
        var i: nat, j: nat :| Opposite(os, ns, i, j) && (SlotSmaller(was, i); Meet(os[i].span, ns[j].span, u, v));
        assert FoundBelow(os[i].span, ns[j].span, c);
        assert AtPair(was, now, i, j, c);
      } else if AnyTag(os, ns, c) {
        var i: nat, j: nat :| TagReported(os, ns, i, j, c);
        assert AtPair(was, now, i, j, c);
      }
    }
    if FieldReported(was.head, now.head, c) || c in OwnChanges(os, ns) { assert Found(was, now, c); }
    if i: nat, j: nat :| AtPair(was, now, i, j, c) {
      if TagReported(os, ns, i, j, c) {
        assert Found(was, now, c);
      } else {
        var u, v :| Meet(os[i].span, ns[j].span, u, v) && Found(u, v, c);
        SlotSmaller(was, i);
        assert Meet(was, now, u, v);
      }
    }
  }

  // ---- whole traces ----

  /** What two traces say about themselves, before any node is looked at. */
  predicate HeaderReported(a: Trace, b: Trace, c: Change) {
    || (a.schemaVersion != b.schemaVersion && c == Change(Changed, 0, "", Schema))
    || (a.flow != b.flow && c == Change(Changed, 1, "", Flow))
    || (a.service != b.service && c == Change(Changed, 1, "", Service))
  }

  ghost predicate RootReported(a: Root, b: Root, c: Change) {
    || (a.Rooted? && b.Rooted? && FoundBelow(a.span, b.span, c))
    || (a.Rooted? && b.NoRoot? && c == Change(Removed, NodePriority(a.span.head), a.span.head.op, Whole))
    || (a.NoRoot? && b.Rooted? && c == Change(Added, NodePriority(b.span.head), b.span.head.op, Whole))
  }

  /** The diff of two traces holds exactly the entries found at their headers, their roots, or two nodes that meet. */
  lemma TraceEntries(a: Trace, b: Trace, c: Change)
    ensures c in Changes(a, b) <==> HeaderReported(a, b, c) || RootReported(a.root, b.root, c)
  {
    hide NodeChanges, FoundBelow, When;
    var raw := RawChanges(a, b);
    assert c in Changes(a, b) <==> c in multiset(Changes(a, b));
    assert c in raw <==> c in multiset(raw);
    var x := When(a.schemaVersion != b.schemaVersion, Change(Changed, CONTRACT, "", Schema));
    var y, z := When(a.flow != b.flow, Change(Changed, TIER1, "", Flow)), When(a.service != b.service, Change(Changed, TIER1, "", Service));
    InTwo(x + y + z, RootChanges(a.root, b.root), c);
    InThree(x, y, z, c);
    InWhen(a.schemaVersion != b.schemaVersion, Change(Changed, CONTRACT, "", Schema), c);
    InWhen(a.flow != b.flow, Change(Changed, TIER1, "", Flow), c);
    InWhen(a.service != b.service, Change(Changed, TIER1, "", Service), c);
    if a.root.Rooted? && b.root.Rooted? { NodeEntries(a.root.span, b.root.span, c); }
  }
}
