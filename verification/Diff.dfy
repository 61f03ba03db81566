/**
 * The structural diff of two canonical traces: children matched by operation, the minimal moved set
 * among the sequential ones, and one typed change per difference, most important first. The wording
 * of a change is replaced by the aspect it is about.
 */
module Diff {
  import opened Ir
  import opened Sorting
  import opened Lis
  import opened Matching

  datatype ChangeType = Added | Removed | Changed | Reordered | ConcurrencyChanged | CardinalityChanged

  const CONTRACT: nat := 0
  const TIER1: nat := 1
  const STRUCTURAL: nat := 2
  const LOWER: nat := 3

  datatype Aspect = Whole | Schema | Flow | Service | Entry | Status | ErrorClass | TierOf | PeerOf | KindOf | AsyncEdge
                  | Attribute(key: string)

  datatype Change = Change(kind: ChangeType, priority: nat, op: string, aspect: Aspect)

  // ---- one node ----

  function When(c: bool, x: Change): (r: seq<Change>)
    ensures |r| == if c then 1 else 0
    ensures forall y :: y in r ==> y == x
  {
    if c then [x] else []
  }


  predicate IsContract(s: Header) {
    match s.kind
    case Producer => true
    case Consumer => true
    case Client => s.peer != "" && !(DB_PREFIX <= s.op)
    case _ => false
  }

  function NodePriority(s: Header): nat {
    if IsContract(s) then CONTRACT else if s.tier == 1 then TIER1 else LOWER
  }

  /** The keys two attribute maps disagree on. */
  function ChangedKeys(a: map<string, string>, b: map<string, string>): set<string> {
    set k | k in a.Keys + b.Keys && !(k in a && k in b && a[k] == b[k])
  }

  function KeyChanges(op: string, keys: seq<string>): (r: seq<Change>)
    ensures |r| == |keys|
  {
    seq(|keys|, i requires 0 <= i < |keys| => Change(Changed, LOWER, op, Attribute(keys[i])))
  }

  function FieldChanges(was: Header, now: Header): seq<Change> {
    var op := now.op;
    When(was.op != now.op, Change(Changed, TIER1, op, Entry))
    + When(was.status != now.status, Change(Changed, TIER1, op, Status))
    + When(was.errorType != now.errorType, Change(Changed, TIER1, op, ErrorClass))
    + When(was.tier != now.tier, Change(Changed, if now.tier == 1 && was.tier != 1 then TIER1 else LOWER, op, TierOf))
    + When(was.peer != now.peer, Change(Changed, LOWER, op, PeerOf))
    + When(was.kind != now.kind, Change(Changed, LOWER, op, KindOf))
    + When(was.async != now.async, Change(Changed, STRUCTURAL, op, AsyncEdge))
  }

  ghost function AttrChanges(was: Header, now: Header): seq<Change> {
    FieldChanges(was, now) + KeyChanges(now.op, InOrder(ChangedKeys(was.attrs, now.attrs)))
  }

  // ---- the children of two matched nodes ----

  /** One child taken out of its group; `order` is its position among all children. */
  datatype Slot = Slot(span: CanonicalSpan, ordering: Ordering, multiplicity: string, order: nat)

  function SlotsOf(g: ChildGroup, start: nat): (r: seq<Slot>)
    ensures |r| == |g.members|
    ensures forall m :: 0 <= m < |r| ==> r[m] == Slot(g.members[m], OrderingOf(g), g.multiplicity, start + m)
  {
    seq(|g.members|, m requires 0 <= m < |g.members| => Slot(g.members[m], OrderingOf(g), g.multiplicity, start + m))
  }

  function Flatten(groups: seq<ChildGroup>): seq<Slot> {
    if groups == [] then []
    else
      var n := |groups| - 1;
      var front := Flatten(groups[..n]);
      front + SlotsOf(groups[n], |front|)
  }

  function OpOf(s: Slot): string {
    s.span.head.op
  }

  function Ops(slots: seq<Slot>): seq<string> {
    Map(OpOf, slots)
  }

  function SlotsUnder(t: CanonicalSpan): seq<Slot> {
    Flatten(t.children)
  }

  function PairsOf(was: seq<Slot>, now: seq<Slot>): Pairs {
    MatchedPairs(Ops(was), Ops(now))
  }

  function RemovedChanges(slots: seq<Slot>, gone: seq<nat>, kind: ChangeType): seq<Change>
    requires forall k :: 0 <= k < |gone| ==> gone[k] < |slots|
  {
    if gone == [] then []
    else
      var n := |gone| - 1;
      var h := slots[gone[n]].span.head;
      RemovedChanges(slots, gone[..n], kind) + [Change(kind, NodePriority(h), h.op, Whole)]
  }

  predicate BothSequential(was: seq<Slot>, now: seq<Slot>, p: (nat, nat)) {
    && p.0 < |was| && p.1 < |now|
    && was[p.0].ordering == Sequential && now[p.1].ordering == Sequential
  }

  /** The pairs that carry run order on both sides. */
  function SequentialPairs(was: seq<Slot>, now: seq<Slot>, pairs: Pairs): (r: Pairs)
    ensures forall k :: 0 <= k < |r| ==> BothSequential(was, now, r[k]) && r[k] in pairs
  {
    if pairs == [] then []
    else
      var n := |pairs| - 1;
      SequentialPairs(was, now, pairs[..n]) + if BothSequential(was, now, pairs[n]) then [pairs[n]] else []
  }

  function Seconds(pairs: Pairs): (r: seq<int>)
    ensures |r| == |pairs|
    ensures forall k :: 0 <= k < |r| ==> r[k] == pairs[k].1
  {
    seq(|pairs|, k requires 0 <= k < |pairs| => pairs[k].1)
  }

  function MovedChanges(now: seq<Slot>, pairs: Pairs, kept: set<nat>, n: nat): seq<Change>
    requires n <= |pairs|
    requires forall k :: 0 <= k < |pairs| ==> pairs[k].1 < |now|
  {
    if n == 0 then []
    else
      MovedChanges(now, pairs, kept, n - 1) +
      When(n - 1 !in kept, Change(Reordered, STRUCTURAL, OpOf(now[pairs[n - 1].1]), Whole))
  }

  function TagChanges(was: Slot, now: Slot): seq<Change> {
    When(was.ordering != now.ordering, Change(ConcurrencyChanged, STRUCTURAL, OpOf(now), Whole))
    + When(was.multiplicity != now.multiplicity, Change(CardinalityChanged, STRUCTURAL, OpOf(now), Whole))
  }

  function OwnChanges(was: seq<Slot>, now: seq<Slot>): seq<Change> {
    var moving := SequentialPairs(was, now, PairsOf(was, now));
    RemovedChanges(was, Unmatched(Ops(was), Ops(now)), Removed)
    + RemovedChanges(now, Unmatched(Ops(now), Ops(was)), Added)
    + MovedChanges(now, moving, ToSet(Kept(Seconds(moving))), |moving|)
  }

  // ---- the recursion ----

  function Size(t: CanonicalSpan): (n: nat)
    ensures n >= 1
    decreases t
  {
    1 + SizeGroups(t.children)
  }

  function SizeGroups(gs: seq<ChildGroup>): nat
    decreases gs
  {
    if gs == [] then 0 else SizeMembers(gs[0].members) + SizeGroups(gs[1..])
  }

  function SizeMembers(ms: seq<CanonicalSpan>): nat
    decreases ms
  {
    if ms == [] then 0 else Size(ms[0]) + SizeMembers(ms[1..])
  }

  lemma {:induction false} MemberSize(ms: seq<CanonicalSpan>, k: nat)
    requires k < |ms|
    ensures Size(ms[k]) <= SizeMembers(ms)
  {
    if k > 0 { MemberSize(ms[1..], k - 1); }
  }

  lemma {:induction false} GroupSize(gs: seq<ChildGroup>, k: nat)
    requires k < |gs|
    ensures SizeMembers(gs[k].members) <= SizeGroups(gs)
  {
    if k > 0 { GroupSize(gs[1..], k - 1); }
  }

  lemma {:induction false} SlotOrigin(gs: seq<ChildGroup>, i: nat) returns (g: nat, m: nat)
    requires i < |Flatten(gs)|
    ensures g < |gs| && m < |gs[g].members| && Flatten(gs)[i].span == gs[g].members[m]
    ensures Flatten(gs)[i].order == i
  {
    var n := |gs| - 1;
    var front := Flatten(gs[..n]);
    if i < |front| {
      g, m := SlotOrigin(gs[..n], i);
    } else {
      g, m := n, i - |front|;
    }
  }

  lemma SlotSmaller(t: CanonicalSpan, i: nat)
    requires i < |SlotsUnder(t)|
    ensures Size(SlotsUnder(t)[i].span) < Size(t)
  {
    var g, m := SlotOrigin(t.children, i);
    MemberSize(t.children[g].members, m);
    GroupSize(t.children, g);
  }

  function PairCount(was: CanonicalSpan, now: CanonicalSpan): nat {
    |PairsOf(SlotsUnder(was), SlotsUnder(now))|
  }

  /** Positions of the `k`-th matched pair of children. */
  function PairAt(was: CanonicalSpan, now: CanonicalSpan, k: nat): (p: (nat, nat))
    requires k < PairCount(was, now)
    ensures p.0 < |SlotsUnder(was)| && p.1 < |SlotsUnder(now)|
  {
    PairsOf(SlotsUnder(was), SlotsUnder(now))[k]
  }

  /** Everything `matchedPair` reports about two nodes matched by operation. */
  ghost function NodeChanges(was: CanonicalSpan, now: CanonicalSpan): seq<Change>
    decreases Size(was), PairCount(was, now) + 1
  {
    AttrChanges(was.head, now.head)
    + OwnChanges(SlotsUnder(was), SlotsUnder(now))
    + PairChanges(was, now, PairCount(was, now))
  }

  /** The first `n` matched pairs of children: their tags, then themselves. */
  ghost function PairChanges(was: CanonicalSpan, now: CanonicalSpan, n: nat): seq<Change>
    requires n <= PairCount(was, now)
    decreases Size(was), n
  {
    if n == 0 then []
    else PairChanges(was, now, n - 1) + OnePair(was, now, n - 1)
  }

  ghost function OnePair(was: CanonicalSpan, now: CanonicalSpan, k: nat): seq<Change>
    requires k < PairCount(was, now)
    decreases Size(was), k, 0
  {
    var o, n := SlotsUnder(was)[PairAt(was, now, k).0], SlotsUnder(now)[PairAt(was, now, k).1];
    SlotSmaller(was, PairAt(was, now, k).0);
    TagChanges(o, n) + NodeChanges(o.span, n.span)
  }

  // ---- the whole trace ----

  datatype Root = NoRoot | Rooted(span: CanonicalSpan)

  datatype Trace = Trace(schemaVersion: string, flow: string, service: string, root: Root)

  function ByPriority(): (Change, Change) -> bool {
    (a: Change, b: Change) => a.priority < b.priority
  }

  /** A root missing on one side is a whole flow added or removed. */
  ghost function RootChanges(a: Root, b: Root): seq<Change> {
    match (a, b)
    case (NoRoot, NoRoot) => []
    case (NoRoot, Rooted(r)) => [Change(Added, NodePriority(r.head), r.head.op, Whole)]
    case (Rooted(r), NoRoot) => [Change(Removed, NodePriority(r.head), r.head.op, Whole)]
    case (Rooted(r), Rooted(s)) => NodeChanges(r, s)
  }

  ghost function RawChanges(a: Trace, b: Trace): seq<Change> {
    When(a.schemaVersion != b.schemaVersion, Change(Changed, CONTRACT, "", Schema))
    + When(a.flow != b.flow, Change(Changed, TIER1, "", Flow))
    + When(a.service != b.service, Change(Changed, TIER1, "", Service))
    + RootChanges(a.root, b.root)
  }

  /** The prioritized change set: stable within a priority. */
  ghost function Changes(a: Trace, b: Trace): seq<Change> {
    StableSort(RawChanges(a, b), ByPriority())
  }

  // ---- counting changes by type ----

  function KindsOf(cs: seq<Change>): (r: seq<ChangeType>)
    ensures |r| == |cs|
  {
    seq(|cs|, i requires 0 <= i < |cs| => cs[i].kind)
  }

  ghost function Tally(cs: seq<Change>, t: ChangeType): nat {
    multiset(KindsOf(cs))[t]
  }

  lemma TallyConcat(a: seq<Change>, b: seq<Change>, t: ChangeType)
    ensures Tally(a + b, t) == Tally(a, t) + Tally(b, t)
  {
    assert KindsOf(a + b) == KindsOf(a) + KindsOf(b);
  }

  lemma TallyWhen(c: bool, x: Change, t: ChangeType)
    ensures Tally(When(c, x), t) == if c && x.kind == t then 1 else 0
  {
    if c { assert KindsOf(When(c, x)) == [x.kind]; } else { assert KindsOf(When(c, x)) == []; }
  }

  /** Changes of one type only are counted by their number. */
  lemma {:induction false} TallySame(cs: seq<Change>, kind: ChangeType, t: ChangeType)
    requires forall c :: c in cs ==> c.kind == kind
    ensures Tally(cs, t) == if t == kind then |cs| else 0
  {
    if cs == [] {
      assert KindsOf(cs) == [];
    } else {
      var n := |cs| - 1;
      assert cs == cs[..n] + [cs[n]];
      TallySame(cs[..n], kind, t);
      TallyConcat(cs[..n], [cs[n]], t);
      TallyWhen(true, cs[n], t);
      assert [cs[n]] == When(true, cs[n]);
    }
  }

  lemma TallyOrderFree(a: seq<Change>, b: seq<Change>, t: ChangeType)
    requires multiset(a) == multiset(b)
    ensures Tally(a, t) == Tally(b, t)
  {
    var kind := (c: Change) => c.kind;
    MapMultiset(kind, a, b);
    assert KindsOf(a) == Map(kind, a) && KindsOf(b) == Map(kind, b);
  }

  /** The type a change has when the traces trade places. */
  function Dual(t: ChangeType): ChangeType {
    match t
    case Added => Removed
    case Removed => Added
    case _ => t
  }

  lemma FieldsChanged(was: Header, now: Header)
    ensures forall c :: c in FieldChanges(was, now) ==> c.kind == Changed
    ensures |FieldChanges(was, now)| == |FieldChanges(now, was)|
  {
    hide When;
  }

  lemma AttrAllChanged(was: Header, now: Header)
    ensures forall c :: c in AttrChanges(was, now) ==> c.kind == Changed
    ensures |AttrChanges(was, now)| == |AttrChanges(now, was)|
  {
    hide FieldChanges, InOrder, ChangedKeys;
    FieldsChanged(was, now);
    SameKeys(was.attrs, now.attrs);
  }

  lemma SameKeys(a: map<string, string>, b: map<string, string>)
    ensures ChangedKeys(a, b) == ChangedKeys(b, a)
  {
  }

  lemma AttrSymmetric(was: Header, now: Header, t: ChangeType)
    ensures Tally(AttrChanges(was, now), t) == Tally(AttrChanges(now, was), Dual(t))
  {
    hide AttrChanges;
    AttrAllChanged(was, now);
    AttrAllChanged(now, was);
    TallySame(AttrChanges(was, now), Changed, t);
    TallySame(AttrChanges(now, was), Changed, Dual(t));
  }

  lemma TagsSymmetric(was: Slot, now: Slot, t: ChangeType)
    ensures Tally(TagChanges(was, now), t) == Tally(TagChanges(now, was), Dual(t))
  {
    hide Tally;
    var a1, a2 := Change(ConcurrencyChanged, STRUCTURAL, OpOf(now), Whole), Change(CardinalityChanged, STRUCTURAL, OpOf(now), Whole);
    var b1, b2 := Change(ConcurrencyChanged, STRUCTURAL, OpOf(was), Whole), Change(CardinalityChanged, STRUCTURAL, OpOf(was), Whole);
    var c1, c2 := was.ordering != now.ordering, was.multiplicity != now.multiplicity;
    TallyConcat(When(c1, a1), When(c2, a2), t);
    TallyConcat(When(c1, b1), When(c2, b2), Dual(t));
    TallyWhen(c1, a1, t);
    TallyWhen(c2, a2, t);
    TallyWhen(c1, b1, Dual(t));
    TallyWhen(c2, b2, Dual(t));
  }

  lemma {:induction false} RemovedTally(slots: seq<Slot>, gone: seq<nat>, kind: ChangeType, t: ChangeType)
    requires forall k :: 0 <= k < |gone| ==> gone[k] < |slots|
    ensures Tally(RemovedChanges(slots, gone, kind), t) == if t == kind then |gone| else 0
  {
    hide Tally;
    if gone == [] {
      TallySame([], kind, t);
    } else {
      var n := |gone| - 1;
      var h := slots[gone[n]].span.head;
      var c := Change(kind, NodePriority(h), h.op, Whole);
      RemovedTally(slots, gone[..n], kind, t);
      TallyConcat(RemovedChanges(slots, gone[..n], kind), [c], t);
      TallySame([c], kind, t);
    }
  }

  function Below(s: set<nat>, n: nat): set<nat> {
    set k | k in s && k < n
  }

  lemma {:induction false} MovedTally(now: seq<Slot>, pairs: Pairs, kept: set<nat>, n: nat, t: ChangeType)
    requires n <= |pairs| && forall k :: 0 <= k < |pairs| ==> pairs[k].1 < |now|
    ensures Tally(MovedChanges(now, pairs, kept, n), t) == if t == Reordered then n - |Below(kept, n)| else 0
    ensures |Below(kept, n)| <= n
  {
    hide Tally;
    var below := Below(kept, n);
    if n == 0 {
      TallySame([], Reordered, t);
      assert below == {};
    } else {
      var c := Change(Reordered, STRUCTURAL, OpOf(now[pairs[n - 1].1]), Whole);
      MovedTally(now, pairs, kept, n - 1, t);
      TallyConcat(MovedChanges(now, pairs, kept, n - 1), When(n - 1 !in kept, c), t);
      TallyWhen(n - 1 !in kept, c, t);
      var fewer := Below(kept, n - 1);
      if n - 1 in kept {
        assert below == fewer + {n - 1};
      } else {
        assert below == fewer;
      }
    }
  }

  // ---- the moved set ----

  ghost predicate AscendingFirsts(p: Pairs) {
    forall k, l :: 0 <= k < l < |p| ==> p[k].0 < p[l].0
  }

  lemma {:induction false} SequentialMembers(was: seq<Slot>, now: seq<Slot>, pairs: Pairs)
    ensures forall p :: p in SequentialPairs(was, now, pairs) <==> p in pairs && BothSequential(was, now, p)
  {
    hide BothSequential;
    if pairs != [] {
      var n := |pairs| - 1;
      SequentialMembers(was, now, pairs[..n]);
      assert pairs == pairs[..n] + [pairs[n]];
    }
  }

  lemma AscendingAppend(front: Pairs, x: (nat, nat))
    requires AscendingFirsts(front) && forall p :: p in front ==> p.0 < x.0
    ensures AscendingFirsts(front + [x])
  {
  }

  lemma AscendingFront(pairs: Pairs)
    requires AscendingFirsts(pairs) && pairs != []
    ensures AscendingFirsts(pairs[..|pairs| - 1])
    ensures forall p :: p in pairs[..|pairs| - 1] ==> p.0 < pairs[|pairs| - 1].0
  {
  }

  lemma {:induction false} SequentialAscends(was: seq<Slot>, now: seq<Slot>, pairs: Pairs)
    requires AscendingFirsts(pairs)
    ensures AscendingFirsts(SequentialPairs(was, now, pairs))
  {
    hide BothSequential, AscendingFirsts;
    if pairs == [] {
      NoneAscending();
    } else {
      var n := |pairs| - 1;
      AscendingFront(pairs);
      SequentialAscends(was, now, pairs[..n]);
      SequentialMembers(was, now, pairs[..n]);
      var front := SequentialPairs(was, now, pairs[..n]);
      AscendingAppend(front, pairs[n]);
      assert front + [] == front;
    }
  }

  lemma NoneAscending()
    ensures AscendingFirsts([])
  {
  }

  /** Two lists of pairs that are each other's mirror image, each ascending on its own side. */
  ghost predicate Mirrored(p: Pairs, q: Pairs) {
    && AscendingFirsts(p) && AscendingFirsts(q)
    && (forall i: nat, j: nat :: (i, j) in p <==> (j, i) in q)
  }

  ghost function IndexIn(p: Pairs, x: (nat, nat)): (k: nat)
    requires x in p
    ensures k < |p| && p[k] == x
  {
    var k :| 0 <= k < |p| && p[k] == x; k
  }

  lemma FirstsReflect(q: Pairs, a: nat, b: nat)
    requires AscendingFirsts(q) && a < |q| && b < |q| && q[a].0 < q[b].0
    ensures a < b
  {
  }

  /** A selection that ascends on both sides is found on either side. */
  lemma ChainTransfers(p: Pairs, q: Pairs, chain: seq<nat>) returns (image: seq<nat>)
    requires Mirrored(p, q) && Increasing(Seconds(p), chain)
    ensures |image| == |chain| && Increasing(Seconds(q), image)
  {
    forall k | 0 <= k < |chain| ensures Swap(p[chain[k]]) in q {
      assert p[chain[k]] == (p[chain[k]].0, p[chain[k]].1);
      assert p[chain[k]] in p;
    }
    image := seq(|chain|, k requires 0 <= k < |chain| => IndexIn(q, Swap(p[chain[k]])));
    forall k, l | 0 <= k < l < |chain| ensures image[k] < image[l] && Seconds(q)[image[k]] < Seconds(q)[image[l]] {
      assert q[image[k]] == Swap(p[chain[k]]) && q[image[l]] == Swap(p[chain[l]]);
      assert Seconds(p)[chain[k]] < Seconds(p)[chain[l]];
      FirstsReflect(q, image[k], image[l]);
    }
  }

  lemma KeptAtMost(p: Pairs, q: Pairs)
    requires Mirrored(p, q)
    ensures |Kept(Seconds(p))| <= |Kept(Seconds(q))|
  {
    hide Kept;
    var chain := Kept(Seconds(p));
    KeptIsLongest(Seconds(p), chain);
    var image := ChainTransfers(p, q, chain);
    KeptIsLongest(Seconds(q), image);
  }

  /** The longest common order has the same length from both sides. */
  lemma KeptMirrored(p: Pairs, q: Pairs)
    requires Mirrored(p, q)
    ensures |Kept(Seconds(p))| == |Kept(Seconds(q))|
  {
    hide Kept;
    KeptAtMost(p, q);
    KeptAtMost(q, p);
  }

  function Moving(was: seq<Slot>, now: seq<Slot>): Pairs {
    SequentialPairs(was, now, PairsOf(was, now))
  }

  lemma MovingMirrored(was: seq<Slot>, now: seq<Slot>)
    ensures Mirrored(Moving(was, now), Moving(now, was))
    ensures |Moving(was, now)| == |Moving(now, was)|
  {
    hide PairsOf, SequentialPairs, AscendingFirsts;
    var p, q := PairsOf(was, now), PairsOf(now, was);
    PairsAscend(was, now);
    PairsAscend(now, was);
    SequentialAscends(was, now, p);
    SequentialAscends(now, was, q);
    SequentialMembers(was, now, p);
    SequentialMembers(now, was, q);
    forall i: nat, j: nat ensures (i, j) in Moving(was, now) <==> (j, i) in Moving(now, was) {
      PairsMirrored(was, now, i, j);
    }
    MirroredSize(Moving(was, now), Moving(now, was));
  }

  lemma PairsMirrored(was: seq<Slot>, now: seq<Slot>, i: nat, j: nat)
    ensures (i, j) in PairsOf(was, now) <==> (j, i) in PairsOf(now, was)
  {
    hide MatchedPairs, Rank;
    PairIff(Ops(was), Ops(now), i, j);
    PairIff(Ops(now), Ops(was), j, i);
  }

  lemma PairsAscend(was: seq<Slot>, now: seq<Slot>)
    ensures AscendingFirsts(PairsOf(was, now))
  {
  }

  lemma MirroredSize(p: Pairs, q: Pairs)
    requires Mirrored(p, q)
    ensures |p| == |q|
  {
    var s := Map(Swap, p);
    forall x ensures x in q <==> x in s { SwapMember(p, x); }
    forall k, l | 0 <= k < l < |p| ensures s[k] != s[l] {
      assert p[k].0 < p[l].0;
    }
    assert forall k, l :: 0 <= k < l < |q| ==> q[k].0 < q[l].0;
    DistinctMultiset(q, s);
    SameLength(q, s);
  }

  lemma AllBelow(s: seq<nat>, n: nat)
    requires forall k :: 0 <= k < |s| ==> s[k] < n
    ensures Below(ToSet(s), n) == ToSet(s)
  {
  }

  /** Reported moves: the sequential pairs outside one longest increasing subsequence. */
  lemma MovedCount(was: seq<Slot>, now: seq<Slot>, t: ChangeType)
    ensures var moving := Moving(was, now);
            && |Kept(Seconds(moving))| <= |moving|
            && Tally(MovedChanges(now, moving, ToSet(Kept(Seconds(moving))), |moving|), t)
               == if t == Reordered then |moving| - |Kept(Seconds(moving))| else 0
  {
    hide Kept, SequentialPairs, Tally, PairsOf, ToSet, MovedChanges;
    var moving := Moving(was, now);
    var kept := Kept(Seconds(moving));
    KeptIsLongest(Seconds(moving), kept);
    MovedTally(now, moving, ToSet(kept), |moving|, t);
    DistinctSize(kept);
    AllBelow(kept, |moving|);
  }

  // ---- symmetry ----

  lemma OwnSymmetric(was: seq<Slot>, now: seq<Slot>, t: ChangeType)
    ensures Tally(OwnChanges(was, now), t) == Tally(OwnChanges(now, was), Dual(t))
  {
    hide Tally, Kept, Moving, PairsOf, Unmatched, RemovedChanges, MovedChanges;
    OwnTally(was, now, t);
    OwnTally(now, was, Dual(t));
    MovingMirrored(was, now);
    KeptMirrored(Moving(was, now), Moving(now, was));
  }

  /** What one level of children adds to each count. */
  lemma OwnTally(was: seq<Slot>, now: seq<Slot>, t: ChangeType)
    ensures Tally(OwnChanges(was, now), t) ==
            match t
            case Removed => |Unmatched(Ops(was), Ops(now))|
            case Added => |Unmatched(Ops(now), Ops(was))|
            case Reordered => |Moving(was, now)| - |Kept(Seconds(Moving(was, now)))|
            case _ => 0
  {
    hide Tally, Kept, PairsOf, SequentialPairs, Unmatched, RemovedChanges, MovedChanges, ToSet, Seconds;
    var moving := Moving(was, now);
    var gone, come := Unmatched(Ops(was), Ops(now)), Unmatched(Ops(now), Ops(was));
    var a, b := RemovedChanges(was, gone, Removed), RemovedChanges(now, come, Added);
    var c := MovedChanges(now, moving, ToSet(Kept(Seconds(moving))), |moving|);
    TallyConcat(a + b, c, t);
    TallyConcat(a, b, t);
    RemovedTally(was, gone, Removed, t);
    RemovedTally(now, come, Added, t);
    MovedCount(was, now, t);
  }

  function Sum(s: seq<nat>): nat {
    if s == [] then 0 else Sum(s[..|s| - 1]) + s[|s| - 1]
  }

  lemma {:induction false} SumConcat(a: seq<nat>, b: seq<nat>)
    ensures Sum(a + b) == Sum(a) + Sum(b)
  {
    if b == [] {
      assert a + b == a;
    } else {
      assert (a + b)[..|a + b| - 1] == a + b[..|b| - 1];
      SumConcat(a, b[..|b| - 1]);
    }
  }

  lemma {:induction false} SumOrderFree(a: seq<nat>, b: seq<nat>)
    requires multiset(a) == multiset(b)
    ensures Sum(a) == Sum(b)
  {
    SameLength(a, b);
    if a != [] {
      var k := MatchHead(a, b);
      SumOrderFree(a[1..], RemoveAt(b, k));
      assert a == [a[0]] + a[1..] && b == b[..k] + ([b[k]] + b[k + 1..]);
      SumConcat([a[0]], a[1..]);
      SumConcat(b[..k], [b[k]] + b[k + 1..]);
      SumConcat([b[k]], b[k + 1..]);
      SumConcat(b[..k], b[k + 1..]);
      assert Sum([a[0]]) == a[0] by { assert [a[0]][..0] == []; }
      assert Sum([b[k]]) == b[k] by { assert [b[k]][..0] == []; }
    }
  }

  /** The counts each matched pair of children contributes. */
  ghost function PairTallies(was: CanonicalSpan, now: CanonicalSpan, n: nat, t: ChangeType): (r: seq<nat>)
    requires n <= PairCount(was, now)
    ensures |r| == n
    ensures forall k :: 0 <= k < n ==> r[k] == Tally(OnePair(was, now, k), t)
  {
    seq(n, k requires 0 <= k < n => Tally(OnePair(was, now, k), t))
  }

  lemma {:induction false} PairsTally(was: CanonicalSpan, now: CanonicalSpan, n: nat, t: ChangeType)
    requires n <= PairCount(was, now)
    ensures Tally(PairChanges(was, now, n), t) == Sum(PairTallies(was, now, n, t))
  {
    hide Tally, OnePair, PairCount;
    if n == 0 {
      TallySame([], Added, t);
      assert PairChanges(was, now, 0) == [];
    } else {
      PairsTally(was, now, n - 1, t);
      TallyConcat(PairChanges(was, now, n - 1), OnePair(was, now, n - 1), t);
      assert PairTallies(was, now, n, t)[..n - 1] == PairTallies(was, now, n - 1, t);
    }
  }

  /**
   * Diffing two nodes the other way round finds as many changes of every type, with additions and
   * removals trading places.
   */
  lemma {:induction false} NodesSymmetric(was: CanonicalSpan, now: CanonicalSpan, t: ChangeType)
    ensures Tally(NodeChanges(was, now), t) == Tally(NodeChanges(now, was), Dual(t))
    decreases Size(was), 1
  {
    hide Tally, PairChanges, OwnChanges, AttrChanges, PairsOf;
    PairsSymmetric(was, now, t);
    AttrSymmetric(was.head, now.head, t);
    OwnSymmetric(SlotsUnder(was), SlotsUnder(now), t);
    NodeTally(was, now, t);
    NodeTally(now, was, Dual(t));
  }

  lemma NodeTally(was: CanonicalSpan, now: CanonicalSpan, t: ChangeType)
    ensures Tally(NodeChanges(was, now), t) ==
            Tally(AttrChanges(was.head, now.head), t) + Tally(OwnChanges(SlotsUnder(was), SlotsUnder(now)), t)
            + Tally(PairChanges(was, now, PairCount(was, now)), t)
  {
    hide Tally, PairChanges, OwnChanges, AttrChanges, PairsOf;
    var a, b := AttrChanges(was.head, now.head), OwnChanges(SlotsUnder(was), SlotsUnder(now));
    TallyConcat(a + b, PairChanges(was, now, PairCount(was, now)), t);
    TallyConcat(a, b, t);
  }

  lemma {:induction false} PairsSymmetric(was: CanonicalSpan, now: CanonicalSpan, t: ChangeType)
    ensures Tally(PairChanges(was, now, PairCount(was, now)), t) == Tally(PairChanges(now, was, PairCount(now, was)), Dual(t))
    decreases Size(was), 0
  {
    hide Tally, PairChanges, MatchedPairs, OnePair, NodeChanges, Sum, SlotsUnder, PairTallies;
    var os, ns := SlotsUnder(was), SlotsUnder(now);
    var p, q := PairsOf(os, ns), PairsOf(ns, os);
    PairsSwap(Ops(os), Ops(ns));
    var f := FindPermutation(q, Map(Swap, p));
    var a, b := PairTallies(was, now, |p|, t), PairTallies(now, was, |q|, Dual(t));
    forall i | 0 <= i < |q| ensures b[i] == a[f[i]] {
      assert PairAt(now, was, i) == q[i] == Swap(p[f[i]]) == Swap(PairAt(was, now, f[i]));
      OnePairSymmetric(was, now, f[i], i, t);
    }
    PermutationMultiset(b, a, f);
    SumOrderFree(b, a);
    PairsTally(was, now, |p|, t);
    PairsTally(now, was, |q|, Dual(t));
  }

  lemma {:induction false} OnePairSymmetric(was: CanonicalSpan, now: CanonicalSpan, k: nat, l: nat, t: ChangeType)
    requires k < PairCount(was, now) && l < PairCount(now, was)
    requires PairAt(now, was, l) == Swap(PairAt(was, now, k))
    ensures Tally(OnePair(was, now, k), t) == Tally(OnePair(now, was, l), Dual(t))
    decreases Size(was), 0, 0
  {
    hide Tally, NodeChanges, TagChanges, PairCount, PairAt, SlotsUnder;
    var o, n := SlotsUnder(was)[PairAt(was, now, k).0], SlotsUnder(now)[PairAt(was, now, k).1];
    SlotSmaller(was, PairAt(was, now, k).0);
    TagsSymmetric(o, n, t);
    NodesSymmetric(o.span, n.span, t);
    TallyConcat(TagChanges(o, n), NodeChanges(o.span, n.span), t);
    TallyConcat(TagChanges(n, o), NodeChanges(n.span, o.span), Dual(t));
  }

  /** Symmetry of the whole diff. */
  lemma DiffSymmetric(a: Trace, b: Trace, t: ChangeType)
    ensures Tally(Changes(a, b), t) == Tally(Changes(b, a), Dual(t))
  {
    hide Tally, NodeChanges;
    TallyOrderFree(Changes(a, b), RawChanges(a, b), t);
    TallyOrderFree(Changes(b, a), RawChanges(b, a), Dual(t));
    RawTally(a, b, t);
    RawTally(b, a, Dual(t));
    RootsSymmetric(a.root, b.root, t);
  }

  lemma RawTally(a: Trace, b: Trace, t: ChangeType)
    ensures Tally(RawChanges(a, b), t) == Tally(RootChanges(a.root, b.root), t) +
              if t == Changed
              then (if a.schemaVersion != b.schemaVersion then 1 else 0) + (if a.flow != b.flow then 1 else 0)
                   + (if a.service != b.service then 1 else 0)
              else 0
  {
    hide Tally, NodeChanges, When;
    var x := When(a.schemaVersion != b.schemaVersion, Change(Changed, CONTRACT, "", Schema));
    var y := When(a.flow != b.flow, Change(Changed, TIER1, "", Flow));
    var z := When(a.service != b.service, Change(Changed, TIER1, "", Service));
    TallyConcat(x + y + z, RootChanges(a.root, b.root), t);
    TallySame(x + y + z, Changed, t);
  }

  lemma RootsSymmetric(a: Root, b: Root, t: ChangeType)
    ensures Tally(RootChanges(a, b), t) == Tally(RootChanges(b, a), Dual(t))
  {
    hide Tally, NodeChanges;
    match (a, b)
    case (NoRoot, NoRoot) => TallySame([], Added, t); TallySame([], Added, Dual(t));
    case (NoRoot, Rooted(r)) =>
      TallySame(RootChanges(a, b), Added, t);
      TallySame(RootChanges(b, a), Removed, Dual(t));
    case (Rooted(r), NoRoot) =>
      TallySame(RootChanges(a, b), Removed, t);
      TallySame(RootChanges(b, a), Added, Dual(t));
    case (Rooted(r), Rooted(s)) => NodesSymmetric(r, s, t);
  }

  // ---- a trace does not differ from itself ----

  /** Two matched nodes raise no attribute change exactly when all they differ in is the owning service. */
  lemma AttrSilentIff(was: Header, now: Header)
    ensures AttrChanges(was, now) == [] <==> was.(service := now.service) == now
  {
    assert AttrChanges(was, now) == [] <==> |FieldChanges(was, now)| == 0 && |InOrder(ChangedKeys(was.attrs, now.attrs))| == 0;
    KeysListed(ChangedKeys(was.attrs, now.attrs));
    assert ChangedKeys(was.attrs, now.attrs) == {} <==> was.attrs == now.attrs by {
      NoDifferentKey(was.attrs, now.attrs);
    }
  }

  lemma NoDifferentKey(a: map<string, string>, b: map<string, string>)
    ensures ChangedKeys(a, b) == {} <==> a == b
  {
    if ChangedKeys(a, b) == {} {
      forall k ensures k in a <==> k in b ensures k in a && k in b ==> a[k] == b[k] {
        assert k !in ChangedKeys(a, b);
      }
    }
  }

  lemma NoKeysChanged(m: map<string, string>)
    ensures InOrder(ChangedKeys(m, m)) == []
  {
    assert ChangedKeys(m, m) == {};
  }

  lemma MovingSelf(slots: seq<Slot>, pairs: Pairs)
    requires AscendingFirsts(pairs) && forall p :: p in pairs ==> p.0 == p.1
    ensures var moving := SequentialPairs(slots, slots, pairs);
            MovedChanges(slots, moving, ToSet(Kept(Seconds(moving))), |moving|) == []
  {
    hide Kept, SequentialPairs;
    var moving := SequentialPairs(slots, slots, pairs);
    SequentialAscends(slots, slots, pairs);
    forall i: nat | i < |moving| ensures i in ToSet(Kept(Seconds(moving))) {
      AscendingAllKept(Seconds(moving), i);
    }
    NothingMoved(slots, moving, ToSet(Kept(Seconds(moving))), |moving|);
  }

  lemma OwnSelf(slots: seq<Slot>)
    ensures OwnChanges(slots, slots) == []
    ensures |PairsOf(slots, slots)| == |slots| && forall k :: 0 <= k < |slots| ==> PairsOf(slots, slots)[k] == (k, k)
  {
    hide Kept, PairsUpTo, UnmatchedUpTo, SequentialPairs, MovedChanges, ToSet, Seconds;
    SelfPairs(Ops(slots), |slots|);
    MovingSelf(slots, PairsOf(slots, slots));
  }

  lemma {:induction false} NothingMoved(slots: seq<Slot>, pairs: Pairs, kept: set<nat>, n: nat)
    requires n <= |pairs| && forall k :: 0 <= k < |pairs| ==> pairs[k].1 < |slots|
    requires forall i: nat :: i < |pairs| ==> i in kept
    ensures MovedChanges(slots, pairs, kept, n) == []
  {
    if n > 0 { NothingMoved(slots, pairs, kept, n - 1); }
  }

  lemma {:induction false} NodeSelf(t: CanonicalSpan)
    ensures NodeChanges(t, t) == []
    decreases Size(t), PairCount(t, t) + 1
  {
    hide OwnChanges, PairChanges;
    NoKeysChanged(t.head.attrs);
    OwnSelf(SlotsUnder(t));
    PairsSelf(t, PairCount(t, t));
  }

  lemma {:induction false} PairsSelf(t: CanonicalSpan, n: nat)
    requires n <= PairCount(t, t)
    ensures PairChanges(t, t, n) == []
    decreases Size(t), n
  {
    hide OwnChanges, NodeChanges, PairsOf, SlotsUnder;
    if n > 0 {
      PairsSelf(t, n - 1);
      OwnSelf(SlotsUnder(t));
      assert PairAt(t, t, n - 1) == (n - 1, n - 1);
      SlotSmaller(t, n - 1);
      NodeSelf(SlotsUnder(t)[n - 1].span);
    }
  }

  /** Diffing a trace with itself reports nothing. */
  lemma DiffSelf(a: Trace)
    ensures Changes(a, a) == []
  {
    hide NodeChanges;
    if a.root.Rooted? { NodeSelf(a.root.span); }
  }

  // ---- priorities ----

  /** Where each kind of difference ranks: nothing but the interface and the schema is a headline. */
  predicate Ranked(c: Change) {
    match c.kind
    case Added => c.priority == CONTRACT || c.priority == TIER1 || c.priority == LOWER
    case Removed => c.priority == CONTRACT || c.priority == TIER1 || c.priority == LOWER
    case Changed =>
      (match c.aspect
       case Schema => c.priority == CONTRACT
       case Flow => c.priority == TIER1
       case Service => c.priority == TIER1
       case Entry => c.priority == TIER1
       case Status => c.priority == TIER1
       case ErrorClass => c.priority == TIER1
       case TierOf => c.priority == TIER1 || c.priority == LOWER
       case AsyncEdge => c.priority == STRUCTURAL
       case _ => c.priority == LOWER)
    case _ => c.priority == STRUCTURAL
  }

  ghost predicate AllRanked(cs: seq<Change>) {
    forall c :: c in cs ==> Ranked(c)
  }

  lemma {:induction false} RemovedRanked(slots: seq<Slot>, gone: seq<nat>, kind: ChangeType)
    requires (kind == Added || kind == Removed) && forall k :: 0 <= k < |gone| ==> gone[k] < |slots|
    ensures AllRanked(RemovedChanges(slots, gone, kind))
  {
    if gone != [] { RemovedRanked(slots, gone[..|gone| - 1], kind); }
  }

  lemma {:induction false} MovedRanked(now: seq<Slot>, pairs: Pairs, kept: set<nat>, n: nat)
    requires n <= |pairs| && forall k :: 0 <= k < |pairs| ==> pairs[k].1 < |now|
    ensures AllRanked(MovedChanges(now, pairs, kept, n))
  {
    if n > 0 { MovedRanked(now, pairs, kept, n - 1); }
  }

  lemma OwnRanked(was: seq<Slot>, now: seq<Slot>)
    ensures AllRanked(OwnChanges(was, now))
  {
    hide Ranked, Kept, SequentialPairs, PairsOf, Unmatched, RemovedChanges, MovedChanges;
    var moving := SequentialPairs(was, now, PairsOf(was, now));
    RemovedRanked(was, Unmatched(Ops(was), Ops(now)), Removed);
    RemovedRanked(now, Unmatched(Ops(now), Ops(was)), Added);
    MovedRanked(now, moving, ToSet(Kept(Seconds(moving))), |moving|);
  }

  lemma RankedWhen(c: bool, x: Change)
    requires Ranked(x)
    ensures AllRanked(When(c, x))
  {
    hide Ranked;
  }

  lemma RankedConcat(a: seq<Change>, b: seq<Change>)
    requires AllRanked(a) && AllRanked(b)
    ensures AllRanked(a + b)
  {
    hide Ranked;
  }

  lemma RankedAppend(r: seq<Change>, c: bool, x: Change) returns (longer: seq<Change>)
    requires AllRanked(r) && Ranked(x)
    ensures longer == r + When(c, x) && AllRanked(longer)
  {
    hide Ranked, When;
    RankedWhen(c, x);
    longer := r + When(c, x);
  }

  lemma FieldsRanked(was: Header, now: Header)
    ensures AllRanked(FieldChanges(was, now))
  {
    hide When, AllRanked;
    var op := now.op;
    RankedWhen(was.op != now.op, Change(Changed, TIER1, op, Entry));
    var r := When(was.op != now.op, Change(Changed, TIER1, op, Entry));
    r := RankedAppend(r, was.status != now.status, Change(Changed, TIER1, op, Status));
    r := RankedAppend(r, was.errorType != now.errorType, Change(Changed, TIER1, op, ErrorClass));
    r := RankedAppend(r, was.tier != now.tier, Change(Changed, if now.tier == 1 && was.tier != 1 then TIER1 else LOWER, op, TierOf));
    r := RankedAppend(r, was.peer != now.peer, Change(Changed, LOWER, op, PeerOf));
    r := RankedAppend(r, was.kind != now.kind, Change(Changed, LOWER, op, KindOf));
    r := RankedAppend(r, was.async != now.async, Change(Changed, STRUCTURAL, op, AsyncEdge));
  }

  lemma AttrRanked(was: Header, now: Header)
    ensures AllRanked(AttrChanges(was, now))
  {
    hide FieldChanges, InOrder, ChangedKeys;
    FieldsRanked(was, now);
    RankedConcat(FieldChanges(was, now), KeyChanges(now.op, InOrder(ChangedKeys(was.attrs, now.attrs))));
  }

  /** Every change two nodes give rise to ranks where its kind belongs. */
  lemma {:induction false} NodeRanked(was: CanonicalSpan, now: CanonicalSpan)
    ensures AllRanked(NodeChanges(was, now))
    decreases Size(was), PairCount(was, now) + 1
  {
    hide Ranked, AttrChanges, OwnChanges, PairChanges, PairCount;
    AttrRanked(was.head, now.head);
    OwnRanked(SlotsUnder(was), SlotsUnder(now));
    PairsRanked(was, now, PairCount(was, now));
  }

  lemma {:induction false} PairsRanked(was: CanonicalSpan, now: CanonicalSpan, n: nat)
    requires n <= PairCount(was, now)
    ensures AllRanked(PairChanges(was, now, n))
    decreases Size(was), n
  {
    hide Ranked, TagChanges, NodeChanges, PairCount, PairAt, SlotsUnder;
    if n > 0 {
      PairsRanked(was, now, n - 1);
      var o, m := SlotsUnder(was)[PairAt(was, now, n - 1).0], SlotsUnder(now)[PairAt(was, now, n - 1).1];
      SlotSmaller(was, PairAt(was, now, n - 1).0);
      TagsRanked(o, m);
      NodeRanked(o.span, m.span);
    }
  }

  lemma TagsRanked(was: Slot, now: Slot)
    ensures AllRanked(TagChanges(was, now))
  {
  }

  lemma RootRanked(a: Root, b: Root)
    ensures AllRanked(RootChanges(a, b))
  {
    hide NodeChanges;
    if a.Rooted? && b.Rooted? { NodeRanked(a.span, b.span); }
  }

  lemma RawRanked(a: Trace, b: Trace)
    ensures AllRanked(RawChanges(a, b))
  {
    hide When, AllRanked, RootChanges;
    RankedWhen(a.schemaVersion != b.schemaVersion, Change(Changed, CONTRACT, "", Schema));
    RankedWhen(a.flow != b.flow, Change(Changed, TIER1, "", Flow));
    RankedWhen(a.service != b.service, Change(Changed, TIER1, "", Service));
    RootRanked(a.root, b.root);
    forall x, y | AllRanked(x) && AllRanked(y) ensures AllRanked(x + y) { RankedConcat(x, y); }
  }

  /** Headlines first: the list is sorted, and every change has the rank of its kind. */
  lemma HeadlinesFirst(a: Trace, b: Trace)
    ensures Sorted(Changes(a, b), ByPriority()) && AllRanked(Changes(a, b))
  {
    hide RawChanges, Ranked;
    var raw := RawChanges(a, b);
    StableSortSorted(raw, ByPriority());
    RawRanked(a, b);
    forall c | c in Changes(a, b) ensures Ranked(c) {
      assert c in multiset(Changes(a, b));
      assert c in multiset(raw);
    }
  }
}
