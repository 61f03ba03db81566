/**
 * Salience filtering as tree contraction: a dropped node's child groups take its place. Stated for
 * trees over any content, with the keep test and the operation read off the content.
 */
module Promote {
  import opened Ir
  import opened Sorting

  // ---- well-formed groups ----

  /** A plain group is one happens-before step, so it has exactly one member. */
  predicate StepOk<H>(g: Group<H>) {
    g.concurrent || g.unordered || |g.members| == 1
  }

  /** Every plain group anywhere in the tree is a single step: what keeps `Filter` from panicking. */
  predicate Steps<H>(t: Tree<H>)
    decreases t
  {
    StepsGroups(t.children)
  }

  predicate StepsGroups<H>(gs: seq<Group<H>>)
    decreases gs
  {
    gs != [] ==> StepOk(gs[0]) && StepsMembers(gs[0].members) && StepsGroups(gs[1..])
  }

  predicate StepsMembers<H>(ms: seq<Tree<H>>)
    decreases ms
  {
    ms != [] ==> Steps(ms[0]) && StepsMembers(ms[1..])
  }

  /** No group claims both a race and an unknown order. */
  predicate OneClaim<H>(t: Tree<H>)
    decreases t
  {
    OneClaimGroups(t.children)
  }

  predicate OneClaimGroups<H>(gs: seq<Group<H>>)
    decreases gs
  {
    gs != [] ==> !(gs[0].concurrent && gs[0].unordered) && OneClaimMembers(gs[0].members) && OneClaimGroups(gs[1..])
  }

  predicate OneClaimMembers<H>(ms: seq<Tree<H>>)
    decreases ms
  {
    ms != [] ==> OneClaim(ms[0]) && OneClaimMembers(ms[1..])
  }

  // ---- contraction ----

  datatype GroupKind = GroupConcurrent | GroupUnordered

  function KindOf<H>(g: Group<H>): GroupKind {
    if g.concurrent then GroupConcurrent else GroupUnordered
  }

  predicate PromotableIntoGroup<H>(cg: Group<H>, kind: GroupKind) {
    && cg.multiplicity == ""
    && ((!cg.concurrent && !cg.unordered)
        || (cg.concurrent && kind == GroupConcurrent)
        || (cg.unordered && kind == GroupUnordered))
  }

  function WithMultiplicity<H>(cg: Group<H>, outer: string): Group<H> {
    if outer != "" && cg.multiplicity == "" then cg.(multiplicity := outer) else cg
  }

  function Splice<H>(gs: seq<Group<H>>, outer: string): seq<Group<H>> {
    if gs == [] then [] else [WithMultiplicity(gs[0], outer)] + Splice(gs[1..], outer)
  }

  /** What one already contracted member of a racing or unordered group leaves behind. */
  function Survivors<H>(m: Tree<H>, keep: H -> bool, kind: GroupKind): seq<Tree<H>> {
    if keep(m.head) then [m]
    else if |m.children| == 0 then []
    else if |m.children| == 1 && PromotableIntoGroup(m.children[0], kind) then m.children[0].members
    else [m]
  }

  function AllSurvivors<H>(ms: seq<Tree<H>>, keep: H -> bool, kind: GroupKind): seq<Tree<H>> {
    if ms == [] then [] else Survivors(ms[0], keep, kind) + AllSurvivors(ms[1..], keep, kind)
  }

  function ByOp<H>(op: H -> string): (Tree<H>, Tree<H>) -> bool {
    (a: Tree<H>, b: Tree<H>) => StrLess(op(a.head), op(b.head))
  }

  function Regroup<H>(members: seq<Tree<H>>, multiplicity: string, kind: GroupKind, op: H -> string): seq<Group<H>> {
    if |members| == 0 then []
    else if |members| == 1 then [Group(false, false, multiplicity, members)]
    else [Group(kind == GroupConcurrent, kind == GroupUnordered, multiplicity, StableSort(members, ByOp(op)))]
  }

  /** What one group of already contracted members becomes in its parent. */
  function Slot<H>(g: Group<H>, keep: H -> bool, op: H -> string): seq<Group<H>>
    requires StepOk(g)
  {
    if g.concurrent || g.unordered then
      Regroup(AllSurvivors(g.members, keep, KindOf(g)), g.multiplicity, KindOf(g), op)
    else if keep(g.members[0].head) then [g]
    else Splice(g.members[0].children, g.multiplicity)
  }

  /** `Filter`: contract every descendant first, then refill each group's slot. */
  function Contract<H>(t: Tree<H>, keep: H -> bool, op: H -> string): (r: Tree<H>)
    requires Steps(t)
    ensures r.head == t.head
    decreases t
  {
    Tree(t.head, ContractGroups(t.children, keep, op))
  }

  function ContractGroups<H>(gs: seq<Group<H>>, keep: H -> bool, op: H -> string): seq<Group<H>>
    requires StepsGroups(gs)
    decreases gs
  {
    if gs == [] then []
    else
      Slot(gs[0].(members := ContractMembers(gs[0].members, keep, op)), keep, op)
      + ContractGroups(gs[1..], keep, op)
  }

  function ContractMembers<H>(ms: seq<Tree<H>>, keep: H -> bool, op: H -> string): (r: seq<Tree<H>>)
    requires StepsMembers(ms)
    ensures |r| == |ms|
    decreases ms
  {
    if ms == [] then [] else [Contract(ms[0], keep, op)] + ContractMembers(ms[1..], keep, op)
  }

  // ---- ordering claims ----

  /** What a tree claims about two nodes, read at their lowest common ancestor. */
  datatype Relation = Above | Below | Before | After | Racing | Unknown

  predicate Claims(o: Ordering, r: Relation) {
    (o == Concurrent && r == Racing) || (o == Unordered && r == Unknown)
  }

  predicate InTree<H(==)>(t: Tree<H>, h: H)
    decreases t
  {
    t.head == h || InGroups(t.children, h)
  }

  predicate InGroups<H(==)>(gs: seq<Group<H>>, h: H)
    decreases gs
  {
    gs != [] && (InMembers(gs[0].members, h) || InGroups(gs[1..], h))
  }

  predicate InMembers<H(==)>(ms: seq<Tree<H>>, h: H)
    decreases ms
  {
    ms != [] && (InTree(ms[0], h) || InMembers(ms[1..], h))
  }

  predicate Related<H(==)>(t: Tree<H>, a: H, b: H, r: Relation)
    decreases t
  {
    || (r == Above && t.head == a && InGroups(t.children, b))
    || (r == Below && t.head == b && InGroups(t.children, a))
    || RelatedGroups(t.children, a, b, r)
  }

  predicate RelatedGroups<H(==)>(gs: seq<Group<H>>, a: H, b: H, r: Relation)
    decreases gs
  {
    gs != [] &&
    (|| RelatedMembers(gs[0].members, OrderingOf(gs[0]), a, b, r)
     || RelatedGroups(gs[1..], a, b, r)
     || (r == Before && InMembers(gs[0].members, a) && InGroups(gs[1..], b))
     || (r == After && InMembers(gs[0].members, b) && InGroups(gs[1..], a)))
  }

  predicate RelatedMembers<H(==)>(ms: seq<Tree<H>>, o: Ordering, a: H, b: H, r: Relation)
    decreases ms
  {
    ms != [] &&
    (|| Related(ms[0], a, b, r)
     || RelatedMembers(ms[1..], o, a, b, r)
     || (Claims(o, r) && InTree(ms[0], a) && InMembers(ms[1..], b))
     || (Claims(o, r) && InTree(ms[0], b) && InMembers(ms[1..], a)))
  }

  /** How often `h` occurs with the given loop status: below some "1..*" group, or below none. */
  function Count<H(==)>(t: Tree<H>, h: H, outer: bool, looped: bool): nat
    decreases t
  {
    (if t.head == h && outer == looped then 1 else 0) + CountGroups(t.children, h, outer, looped)
  }

  function CountGroups<H(==)>(gs: seq<Group<H>>, h: H, outer: bool, looped: bool): nat
    decreases gs
  {
    if gs == [] then 0
    else CountMembers(gs[0].members, h, outer || gs[0].multiplicity != "", looped) + CountGroups(gs[1..], h, outer, looped)
  }

  function CountMembers<H(==)>(ms: seq<Tree<H>>, h: H, outer: bool, looped: bool): nat
    decreases ms
  {
    if ms == [] then 0 else Count(ms[0], h, outer, looped) + CountMembers(ms[1..], h, outer, looped)
  }

  // ---- concatenation ----

  lemma {:induction false} InMembersConcat<H>(x: seq<Tree<H>>, y: seq<Tree<H>>, h: H)
    ensures InMembers(x + y, h) <==> InMembers(x, h) || InMembers(y, h)
  {
    if x == [] {
      assert x + y == y;
    } else {
      assert (x + y)[1..] == x[1..] + y;
      InMembersConcat(x[1..], y, h);
    }
  }

  lemma {:induction false} InGroupsConcat<H>(x: seq<Group<H>>, y: seq<Group<H>>, h: H)
    ensures InGroups(x + y, h) <==> InGroups(x, h) || InGroups(y, h)
  {
    if x == [] {
      assert x + y == y;
    } else {
      assert (x + y)[1..] == x[1..] + y;
      InGroupsConcat(x[1..], y, h);
    }
  }

  lemma {:induction false} RelatedMembersConcat<H>(x: seq<Tree<H>>, y: seq<Tree<H>>, o: Ordering, a: H, b: H, r: Relation)
    ensures RelatedMembers(x + y, o, a, b, r) <==>
              || RelatedMembers(x, o, a, b, r)
              || RelatedMembers(y, o, a, b, r)
              || (Claims(o, r) && InMembers(x, a) && InMembers(y, b))
              || (Claims(o, r) && InMembers(x, b) && InMembers(y, a))
  {
    if x == [] {
      assert x + y == y;
    } else {
      assert (x + y)[1..] == x[1..] + y;
      RelatedMembersConcat(x[1..], y, o, a, b, r);
      InMembersConcat(x[1..], y, a);
      InMembersConcat(x[1..], y, b);
    }
  }

  lemma {:induction false} RelatedGroupsConcat<H>(x: seq<Group<H>>, y: seq<Group<H>>, a: H, b: H, r: Relation)
    ensures RelatedGroups(x + y, a, b, r) <==>
              || RelatedGroups(x, a, b, r)
              || RelatedGroups(y, a, b, r)
              || (r == Before && InGroups(x, a) && InGroups(y, b))
              || (r == After && InGroups(x, b) && InGroups(y, a))
  {
    if x == [] {
      assert x + y == y;
    } else {
      assert (x + y)[1..] == x[1..] + y;
      RelatedGroupsConcat(x[1..], y, a, b, r);
      InGroupsConcat(x[1..], y, a);
      InGroupsConcat(x[1..], y, b);
    }
  }

  lemma {:induction false} CountGroupsConcat<H>(x: seq<Group<H>>, y: seq<Group<H>>, h: H, outer: bool, looped: bool)
    ensures CountGroups(x + y, h, outer, looped) == CountGroups(x, h, outer, looped) + CountGroups(y, h, outer, looped)
  {
    if x == [] {
      assert x + y == y;
    } else {
      assert (x + y)[1..] == x[1..] + y;
      CountGroupsConcat(x[1..], y, h, outer, looped);
    }
  }

  lemma {:induction false} CountMembersConcat<H>(x: seq<Tree<H>>, y: seq<Tree<H>>, h: H, outer: bool, looped: bool)
    ensures CountMembers(x + y, h, outer, looped) == CountMembers(x, h, outer, looped) + CountMembers(y, h, outer, looped)
  {
    if x == [] {
      assert x + y == y;
    } else {
      assert (x + y)[1..] == x[1..] + y;
      CountMembersConcat(x[1..], y, h, outer, looped);
    }
  }

  lemma {:induction false} StepsGroupsConcat<H>(x: seq<Group<H>>, y: seq<Group<H>>)
    ensures StepsGroups(x + y) <==> StepsGroups(x) && StepsGroups(y)
    ensures OneClaimGroups(x + y) <==> OneClaimGroups(x) && OneClaimGroups(y)
  {
    if x == [] {
      assert x + y == y;
    } else {
      assert (x + y)[1..] == x[1..] + y;
      StepsGroupsConcat(x[1..], y);
    }
  }

  lemma {:induction false} StepsMembersConcat<H>(x: seq<Tree<H>>, y: seq<Tree<H>>)
    ensures StepsMembers(x + y) <==> StepsMembers(x) && StepsMembers(y)
    ensures OneClaimMembers(x + y) <==> OneClaimMembers(x) && OneClaimMembers(y)
  {
    if x == [] {
      assert x + y == y;
    } else {
      assert (x + y)[1..] == x[1..] + y;
      StepsMembersConcat(x[1..], y);
    }
  }

  // ---- sorting moves no claim ----

  lemma {:induction false} InsertKeepsNodes<H>(m: Tree<H>, ms: seq<Tree<H>>, less: (Tree<H>, Tree<H>) -> bool, h: H)
    ensures InMembers(Insert(m, ms, less), h) <==> InTree(m, h) || InMembers(ms, h)
  {
    if ms != [] && less(ms[0], m) {
      var rest := Insert(m, ms[1..], less);
      InsertKeepsNodes(m, ms[1..], less, h);
      assert ([ms[0]] + rest)[1..] == rest;
    } else {
      assert ([m] + ms)[1..] == ms;
    }
  }

  lemma {:induction false} InsertKeepsShape<H>(m: Tree<H>, ms: seq<Tree<H>>, less: (Tree<H>, Tree<H>) -> bool)
    ensures StepsMembers(Insert(m, ms, less)) <==> Steps(m) && StepsMembers(ms)
    ensures OneClaimMembers(Insert(m, ms, less)) <==> OneClaim(m) && OneClaimMembers(ms)
  {
    if ms != [] && less(ms[0], m) {
      var rest := Insert(m, ms[1..], less);
      InsertKeepsShape(m, ms[1..], less);
      assert ([ms[0]] + rest)[1..] == rest;
    } else {
      assert ([m] + ms)[1..] == ms;
    }
  }

  /** One member against the rest of its group. */
  predicate Joins<H(==)>(m: Tree<H>, ms: seq<Tree<H>>, o: Ordering, a: H, b: H, r: Relation) {
    || Related(m, a, b, r)
    || RelatedMembers(ms, o, a, b, r)
    || (Claims(o, r) && InTree(m, a) && InMembers(ms, b))
    || (Claims(o, r) && InTree(m, b) && InMembers(ms, a))
  }

  lemma {:induction false} InsertKeepsClaims<H>(m: Tree<H>, ms: seq<Tree<H>>, less: (Tree<H>, Tree<H>) -> bool,
                                                o: Ordering, a: H, b: H, r: Relation)
    ensures RelatedMembers(Insert(m, ms, less), o, a, b, r) <==> Joins(m, ms, o, a, b, r)
  {
    hide Related, InTree;
    if ms != [] && less(ms[0], m) {
      var rest := Insert(m, ms[1..], less);
      InsertKeepsClaims(m, ms[1..], less, o, a, b, r);
      InsertKeepsNodes(m, ms[1..], less, a);
      InsertKeepsNodes(m, ms[1..], less, b);
      assert ([ms[0]] + rest)[1..] == rest;
    } else {
      assert ([m] + ms)[1..] == ms;
    }
  }

  lemma {:induction false} InsertCounts<H>(m: Tree<H>, ms: seq<Tree<H>>, less: (Tree<H>, Tree<H>) -> bool,
                                           h: H, outer: bool, looped: bool)
    ensures CountMembers(Insert(m, ms, less), h, outer, looped) == CountMembers([m] + ms, h, outer, looped)
  {
    if ms != [] && less(ms[0], m) {
      var rest := Insert(m, ms[1..], less);
      InsertCounts(m, ms[1..], less, h, outer, looped);
      assert ([ms[0]] + rest)[1..] == rest;
      assert ([m] + ms)[1..] == ms && ([m] + ms[1..])[1..] == ms[1..];
    }
  }

  lemma {:induction false} SortKeeps<H>(ms: seq<Tree<H>>, less: (Tree<H>, Tree<H>) -> bool,
                                        o: Ordering, a: H, b: H, r: Relation)
    ensures InMembers(StableSort(ms, less), a) <==> InMembers(ms, a)
    ensures InMembers(StableSort(ms, less), b) <==> InMembers(ms, b)
    ensures RelatedMembers(StableSort(ms, less), o, a, b, r) <==> RelatedMembers(ms, o, a, b, r)
  {
    hide Related, InTree;
    if ms != [] {
      var rest := StableSort(ms[1..], less);
      SortKeeps(ms[1..], less, o, a, b, r);
      InsertKeepsClaims(ms[0], rest, less, o, a, b, r);
      InsertKeepsNodes(ms[0], rest, less, a);
      InsertKeepsNodes(ms[0], rest, less, b);
    }
  }

  lemma {:induction false} SortKeepsShape<H>(ms: seq<Tree<H>>, less: (Tree<H>, Tree<H>) -> bool)
    ensures StepsMembers(StableSort(ms, less)) <==> StepsMembers(ms)
    ensures OneClaimMembers(StableSort(ms, less)) <==> OneClaimMembers(ms)
  {
    if ms != [] {
      SortKeepsShape(ms[1..], less);
      InsertKeepsShape(ms[0], StableSort(ms[1..], less), less);
    }
  }

  lemma {:induction false} SortCounts<H>(ms: seq<Tree<H>>, less: (Tree<H>, Tree<H>) -> bool,
                                         h: H, outer: bool, looped: bool)
    ensures CountMembers(StableSort(ms, less), h, outer, looped) == CountMembers(ms, h, outer, looped)
  {
    if ms != [] {
      var rest := StableSort(ms[1..], less);
      SortCounts(ms[1..], less, h, outer, looped);
      InsertCounts(ms[0], rest, less, h, outer, looped);
      assert ([ms[0]] + rest)[1..] == rest;
    }
  }

  // ---- one slot ----

  /** A kept node is found, related and counted in a member list as in the list of its survivors. */
  lemma SurvivorsKeep<H>(m: Tree<H>, keep: H -> bool, kind: GroupKind, a: H, b: H, r: Relation)
    requires Steps(m) && OneClaim(m) && keep(a) && keep(b)
    ensures InMembers(Survivors(m, keep, kind), a) <==> InTree(m, a)
    ensures InMembers(Survivors(m, keep, kind), b) <==> InTree(m, b)
    ensures var o := if kind == GroupConcurrent then Concurrent else Unordered;
            RelatedMembers(Survivors(m, keep, kind), o, a, b, r) <==> Related(m, a, b, r)
  {
    var ms := Survivors(m, keep, kind);
    if ms == [m] {
      assert ms[1..] == [];
    } else if |m.children| == 1 {
      var cg := m.children[0];
      assert m.children == [cg];
      OneGroup(cg, a, b, r);
      if !cg.concurrent && !cg.unordered {
        assert cg.members[1..] == [];
      }
    }
  }

  lemma SurvivorsCount<H>(m: Tree<H>, keep: H -> bool, kind: GroupKind, h: H, outer: bool, looped: bool)
    requires keep(h)
    ensures CountMembers(Survivors(m, keep, kind), h, outer, looped) == Count(m, h, outer, looped)
  {
    var ms := Survivors(m, keep, kind);
    if ms == [m] {
      assert ms[1..] == [];
    } else if |m.children| == 1 {
      assert m.children[1..] == [];
      assert CountGroups(m.children, h, outer, looped) == CountMembers(m.children[0].members, h, outer, looped);
    }
  }

  lemma SurvivorsShape<H>(m: Tree<H>, keep: H -> bool, kind: GroupKind)
    requires Steps(m) && OneClaim(m)
    ensures StepsMembers(Survivors(m, keep, kind)) && OneClaimMembers(Survivors(m, keep, kind))
  {
    var ms := Survivors(m, keep, kind);
    if ms == [m] {
      assert ms[1..] == [];
    }
  }

  lemma {:induction false} AllSurvivorsKeep<H>(ms: seq<Tree<H>>, keep: H -> bool, kind: GroupKind, a: H, b: H, r: Relation)
    requires StepsMembers(ms) && OneClaimMembers(ms) && keep(a) && keep(b)
    ensures InMembers(AllSurvivors(ms, keep, kind), a) <==> InMembers(ms, a)
    ensures InMembers(AllSurvivors(ms, keep, kind), b) <==> InMembers(ms, b)
    ensures var o := if kind == GroupConcurrent then Concurrent else Unordered;
            RelatedMembers(AllSurvivors(ms, keep, kind), o, a, b, r) <==> RelatedMembers(ms, o, a, b, r)
  {
    if ms != [] {
      var o := if kind == GroupConcurrent then Concurrent else Unordered;
      var first, rest := Survivors(ms[0], keep, kind), AllSurvivors(ms[1..], keep, kind);
      SurvivorsKeep(ms[0], keep, kind, a, b, r);
      AllSurvivorsKeep(ms[1..], keep, kind, a, b, r);
      InMembersConcat(first, rest, a);
      InMembersConcat(first, rest, b);
      RelatedMembersConcat(first, rest, o, a, b, r);
    }
  }

  lemma {:induction false} AllSurvivorsCount<H>(ms: seq<Tree<H>>, keep: H -> bool, kind: GroupKind, h: H, outer: bool, looped: bool)
    requires keep(h)
    ensures CountMembers(AllSurvivors(ms, keep, kind), h, outer, looped) == CountMembers(ms, h, outer, looped)
  {
    if ms != [] {
      SurvivorsCount(ms[0], keep, kind, h, outer, looped);
      AllSurvivorsCount(ms[1..], keep, kind, h, outer, looped);
      CountMembersConcat(Survivors(ms[0], keep, kind), AllSurvivors(ms[1..], keep, kind), h, outer, looped);
    }
  }

  lemma {:induction false} AllSurvivorsShape<H>(ms: seq<Tree<H>>, keep: H -> bool, kind: GroupKind)
    requires StepsMembers(ms) && OneClaimMembers(ms)
    ensures StepsMembers(AllSurvivors(ms, keep, kind)) && OneClaimMembers(AllSurvivors(ms, keep, kind))
  {
    if ms != [] {
      SurvivorsShape(ms[0], keep, kind);
      AllSurvivorsShape(ms[1..], keep, kind);
      StepsMembersConcat(Survivors(ms[0], keep, kind), AllSurvivors(ms[1..], keep, kind));
    }
  }

  lemma OneGroup<H>(g: Group<H>, a: H, b: H, r: Relation)
    ensures InGroups([g], a) <==> InMembers(g.members, a)
    ensures InGroups([g], b) <==> InMembers(g.members, b)
    ensures RelatedGroups([g], a, b, r) <==> RelatedMembers(g.members, OrderingOf(g), a, b, r)
  {
    assert [g][1..] == [];
  }

  lemma RegroupKeeps<H>(ms: seq<Tree<H>>, multiplicity: string, kind: GroupKind, op: H -> string, a: H, b: H, r: Relation)
    ensures InGroups(Regroup(ms, multiplicity, kind, op), a) <==> InMembers(ms, a)
    ensures InGroups(Regroup(ms, multiplicity, kind, op), b) <==> InMembers(ms, b)
    ensures var o := if kind == GroupConcurrent then Concurrent else Unordered;
            RelatedGroups(Regroup(ms, multiplicity, kind, op), a, b, r) <==> RelatedMembers(ms, o, a, b, r)
  {
    hide Related, InTree;
    var gs := Regroup(ms, multiplicity, kind, op);
    if |ms| == 1 {
      OneGroup(gs[0], a, b, r);
      assert ms[1..] == [];
    } else if |ms| > 1 {
      OneGroup(gs[0], a, b, r);
      var o := if kind == GroupConcurrent then Concurrent else Unordered;
      SortKeeps(ms, ByOp(op), o, a, b, r);
    }
  }

  lemma RegroupCounts<H>(ms: seq<Tree<H>>, multiplicity: string, kind: GroupKind, op: H -> string, h: H, outer: bool, looped: bool)
    ensures CountGroups(Regroup(ms, multiplicity, kind, op), h, outer, looped)
         == CountMembers(ms, h, outer || multiplicity != "", looped)
  {
    var gs := Regroup(ms, multiplicity, kind, op);
    if |ms| >= 1 { assert gs[1..] == []; }
    if |ms| > 1 { SortCounts(ms, ByOp(op), h, outer || multiplicity != "", looped); }
  }

  lemma RegroupShape<H>(ms: seq<Tree<H>>, multiplicity: string, kind: GroupKind, op: H -> string)
    requires StepsMembers(ms) && OneClaimMembers(ms)
    ensures StepsGroups(Regroup(ms, multiplicity, kind, op)) && OneClaimGroups(Regroup(ms, multiplicity, kind, op))
  {
    var gs := Regroup(ms, multiplicity, kind, op);
    if |ms| >= 1 { assert gs[1..] == []; }
    SortKeepsShape(ms, ByOp(op));
  }

  lemma {:induction false} SpliceKeeps<H>(gs: seq<Group<H>>, outer: string, a: H, b: H, r: Relation)
    ensures InGroups(Splice(gs, outer), a) <==> InGroups(gs, a)
    ensures InGroups(Splice(gs, outer), b) <==> InGroups(gs, b)
    ensures RelatedGroups(Splice(gs, outer), a, b, r) <==> RelatedGroups(gs, a, b, r)
  {
    if gs != [] {
      SpliceKeeps(gs[1..], outer, a, b, r);
      assert Splice(gs, outer)[1..] == Splice(gs[1..], outer);
    }
  }

  lemma {:induction false} SpliceCounts<H>(gs: seq<Group<H>>, multiplicity: string, h: H, outer: bool, looped: bool)
    ensures CountGroups(Splice(gs, multiplicity), h, outer, looped) == CountGroups(gs, h, outer || multiplicity != "", looped)
  {
    if gs != [] {
      SpliceCounts(gs[1..], multiplicity, h, outer, looped);
      assert Splice(gs, multiplicity)[1..] == Splice(gs[1..], multiplicity);
    }
  }

  lemma {:induction false} SpliceShape<H>(gs: seq<Group<H>>, outer: string)
    ensures StepsGroups(Splice(gs, outer)) <==> StepsGroups(gs)
    ensures OneClaimGroups(Splice(gs, outer)) <==> OneClaimGroups(gs)
  {
    if gs != [] {
      SpliceShape(gs[1..], outer);
      assert Splice(gs, outer)[1..] == Splice(gs[1..], outer);
    }
  }

  /** Whatever a slot becomes, the kept nodes in it relate to each other as they did in the group. */
  lemma SlotKeeps<H>(g: Group<H>, keep: H -> bool, op: H -> string, a: H, b: H, r: Relation)
    requires StepOk(g) && StepsMembers(g.members) && OneClaimMembers(g.members)
    requires !(g.concurrent && g.unordered) && keep(a) && keep(b)
    ensures InGroups(Slot(g, keep, op), a) <==> InMembers(g.members, a)
    ensures InGroups(Slot(g, keep, op), b) <==> InMembers(g.members, b)
    ensures RelatedGroups(Slot(g, keep, op), a, b, r) <==> RelatedMembers(g.members, OrderingOf(g), a, b, r)
  {
    hide Regroup, AllSurvivors, Splice;
    if g.concurrent || g.unordered {
      var kind := KindOf(g);
      AllSurvivorsKeep(g.members, keep, kind, a, b, r);
      RegroupKeeps(AllSurvivors(g.members, keep, kind), g.multiplicity, kind, op, a, b, r);
    } else {
      OneGroup(g, a, b, r);
      assert g.members[1..] == [];
      SpliceKeeps(g.members[0].children, g.multiplicity, a, b, r);
    }
  }

  lemma SlotCounts<H>(g: Group<H>, keep: H -> bool, op: H -> string, h: H, outer: bool, looped: bool)
    requires StepOk(g) && keep(h)
    ensures CountGroups(Slot(g, keep, op), h, outer, looped) == CountMembers(g.members, h, outer || g.multiplicity != "", looped)
  {
    hide Regroup, AllSurvivors, Splice;
    if g.concurrent || g.unordered {
      var kind := KindOf(g);
      AllSurvivorsCount(g.members, keep, kind, h, outer || g.multiplicity != "", looped);
      RegroupCounts(AllSurvivors(g.members, keep, kind), g.multiplicity, kind, op, h, outer, looped);
    } else {
      assert g.members[1..] == [] && [g][1..] == [];
      SpliceCounts(g.members[0].children, g.multiplicity, h, outer, looped);
    }
  }

  lemma SlotShape<H>(g: Group<H>, keep: H -> bool, op: H -> string)
    requires StepOk(g) && StepsMembers(g.members) && OneClaimMembers(g.members)
    requires !(g.concurrent && g.unordered)
    ensures StepsGroups(Slot(g, keep, op)) && OneClaimGroups(Slot(g, keep, op))
  {
    hide Regroup, AllSurvivors, Splice;
    if g.concurrent || g.unordered {
      var kind := KindOf(g);
      AllSurvivorsShape(g.members, keep, kind);
      RegroupShape(AllSurvivors(g.members, keep, kind), g.multiplicity, kind, op);
    } else {
      assert [g][1..] == [];
      SpliceShape(g.members[0].children, g.multiplicity);
    }
  }

  // ---- the theorems ----

  /** Contraction yields well-formed groups from well-formed groups. */
  lemma {:induction false} ContractShape<H>(t: Tree<H>, keep: H -> bool, op: H -> string)
    requires Steps(t) && OneClaim(t)
    ensures Steps(Contract(t, keep, op)) && OneClaim(Contract(t, keep, op))
    decreases t
  {
    ContractGroupsShape(t.children, keep, op);
  }

  lemma {:induction false} ContractGroupsShape<H>(gs: seq<Group<H>>, keep: H -> bool, op: H -> string)
    requires StepsGroups(gs) && OneClaimGroups(gs)
    ensures StepsGroups(ContractGroups(gs, keep, op)) && OneClaimGroups(ContractGroups(gs, keep, op))
    decreases gs
  {
    hide Slot;
    if gs != [] {
      var g := gs[0].(members := ContractMembers(gs[0].members, keep, op));
      ContractMembersShape(gs[0].members, keep, op);
      SlotShape(g, keep, op);
      ContractGroupsShape(gs[1..], keep, op);
      StepsGroupsConcat(Slot(g, keep, op), ContractGroups(gs[1..], keep, op));
    }
  }

  lemma {:induction false} ContractMembersShape<H>(ms: seq<Tree<H>>, keep: H -> bool, op: H -> string)
    requires StepsMembers(ms) && OneClaimMembers(ms)
    ensures StepsMembers(ContractMembers(ms, keep, op)) && OneClaimMembers(ContractMembers(ms, keep, op))
    decreases ms
  {
    if ms != [] {
      ContractShape(ms[0], keep, op);
      ContractMembersShape(ms[1..], keep, op);
      assert ContractMembers(ms, keep, op)[1..] == ContractMembers(ms[1..], keep, op);
    }
  }

  /**
   * Meaning preservation: for any two kept nodes, the contracted tree claims exactly the relations the
   * original claims: ancestry, sequence, race and unknown order, neither added nor lost.
   */
  lemma {:induction false} ContractKeepsClaims<H>(t: Tree<H>, keep: H -> bool, op: H -> string, a: H, b: H, r: Relation)
    requires Steps(t) && OneClaim(t) && keep(a) && keep(b)
    ensures Related(Contract(t, keep, op), a, b, r) <==> Related(t, a, b, r)
    ensures InTree(Contract(t, keep, op), a) <==> InTree(t, a)
    ensures InTree(Contract(t, keep, op), b) <==> InTree(t, b)
    decreases t
  {
    ContractGroupsKeepClaims(t.children, keep, op, a, b, r);
  }

  lemma {:induction false} ContractGroupsKeepClaims<H>(gs: seq<Group<H>>, keep: H -> bool, op: H -> string, a: H, b: H, r: Relation)
    requires StepsGroups(gs) && OneClaimGroups(gs) && keep(a) && keep(b)
    ensures RelatedGroups(ContractGroups(gs, keep, op), a, b, r) <==> RelatedGroups(gs, a, b, r)
    ensures InGroups(ContractGroups(gs, keep, op), a) <==> InGroups(gs, a)
    ensures InGroups(ContractGroups(gs, keep, op), b) <==> InGroups(gs, b)
    decreases gs
  {
    hide Slot;
    if gs != [] {
      var g := gs[0].(members := ContractMembers(gs[0].members, keep, op));
      var first, rest := Slot(g, keep, op), ContractGroups(gs[1..], keep, op);
      ContractMembersShape(gs[0].members, keep, op);
      ContractMembersKeepClaims(gs[0].members, keep, op, OrderingOf(g), a, b, r);
      SlotKeeps(g, keep, op, a, b, r);
      ContractGroupsKeepClaims(gs[1..], keep, op, a, b, r);
      RelatedGroupsConcat(first, rest, a, b, r);
      InGroupsConcat(first, rest, a);
      InGroupsConcat(first, rest, b);
    }
  }

  lemma {:induction false} ContractMembersKeepClaims<H>(ms: seq<Tree<H>>, keep: H -> bool, op: H -> string,
                                                        o: Ordering, a: H, b: H, r: Relation)
    requires StepsMembers(ms) && OneClaimMembers(ms) && keep(a) && keep(b)
    ensures RelatedMembers(ContractMembers(ms, keep, op), o, a, b, r) <==> RelatedMembers(ms, o, a, b, r)
    ensures InMembers(ContractMembers(ms, keep, op), a) <==> InMembers(ms, a)
    ensures InMembers(ContractMembers(ms, keep, op), b) <==> InMembers(ms, b)
    decreases ms
  {
    if ms != [] {
      ContractKeepsClaims(ms[0], keep, op, a, b, r);
      ContractMembersKeepClaims(ms[1..], keep, op, o, a, b, r);
      assert ContractMembers(ms, keep, op)[1..] == ContractMembers(ms[1..], keep, op);
    }
  }

  /** Conservation: every kept node survives exactly as often, and as often below a "1..*" group, as before. */
  lemma {:induction false} ContractCounts<H>(t: Tree<H>, keep: H -> bool, op: H -> string, h: H, outer: bool, looped: bool)
    requires Steps(t) && keep(h)
    ensures Count(Contract(t, keep, op), h, outer, looped) == Count(t, h, outer, looped)
    decreases t
  {
    ContractGroupsCount(t.children, keep, op, h, outer, looped);
  }

  lemma {:induction false} ContractGroupsCount<H>(gs: seq<Group<H>>, keep: H -> bool, op: H -> string, h: H, outer: bool, looped: bool)
    requires StepsGroups(gs) && keep(h)
    ensures CountGroups(ContractGroups(gs, keep, op), h, outer, looped) == CountGroups(gs, h, outer, looped)
    decreases gs
  {
    hide Slot;
    if gs != [] {
      var g := gs[0].(members := ContractMembers(gs[0].members, keep, op));
      ContractMembersCount(gs[0].members, keep, op, h, outer || g.multiplicity != "", looped);
      SlotCounts(g, keep, op, h, outer, looped);
      ContractGroupsCount(gs[1..], keep, op, h, outer, looped);
      CountGroupsConcat(Slot(g, keep, op), ContractGroups(gs[1..], keep, op), h, outer, looped);
    }
  }

  lemma {:induction false} ContractMembersCount<H>(ms: seq<Tree<H>>, keep: H -> bool, op: H -> string, h: H, outer: bool, looped: bool)
    requires StepsMembers(ms) && keep(h)
    ensures CountMembers(ContractMembers(ms, keep, op), h, outer, looped) == CountMembers(ms, h, outer, looped)
    decreases ms
  {
    if ms != [] {
      ContractCounts(ms[0], keep, op, h, outer, looped);
      ContractMembersCount(ms[1..], keep, op, h, outer, looped);
      assert ContractMembers(ms, keep, op)[1..] == ContractMembers(ms[1..], keep, op);
    }
  }

  // ---- the passes themselves ----

  /** `Filter` either rewrites the span or panics on a plain group that is not one step. */
  datatype Filtered<H> = Done(tree: Tree<H>) | Panic

  lemma NoSurvivors<H>(ms: seq<Tree<H>>, keep: H -> bool, kind: GroupKind)
    ensures AllSurvivors(ms[0..], keep, kind) == AllSurvivors(ms, keep, kind)
    ensures AllSurvivors(ms[|ms|..], keep, kind) == []
  {
    assert ms[0..] == ms;
  }

  lemma SurvivorsStep<H>(members: seq<Tree<H>>, ms: seq<Tree<H>>, i: nat, keep: H -> bool, kind: GroupKind)
    requires i < |ms|
    ensures members + AllSurvivors(ms[i..], keep, kind)
         == (members + Survivors(ms[i], keep, kind)) + AllSurvivors(ms[i + 1..], keep, kind)
  {
    hide Survivors;
    var rest := ms[i..];
    assert rest[0] == ms[i] && rest[1..] == ms[i + 1..];
  }

  /** The collecting loop of `appendContracted`. */
  method CollectSurvivors<H>(ms: seq<Tree<H>>, keep: H -> bool, kind: GroupKind) returns (members: seq<Tree<H>>)
    ensures members == AllSurvivors(ms, keep, kind)
  {
    hide AllSurvivors;
    members := [];
    NoSurvivors(ms, keep, kind);
    for i := 0 to |ms|
      invariant members + AllSurvivors(ms[i..], keep, kind) == AllSurvivors(ms, keep, kind)
    {
      var m := ms[i];
      ghost var before := members;
      if keep(m.head) {
        members := members + [m];
      } else if |m.children| == 0 {
      } else if |m.children| == 1 && PromotableIntoGroup(m.children[0], kind) {
        members := members + m.children[0].members;
      } else {
        members := members + [m];
      }
      assert members == before + Survivors(m, keep, kind);
      SurvivorsStep(before, ms, i, keep, kind);
    }
  }

  /** `appendContracted`: collect the survivors of a racing or unordered group and re-form it. */
  method AppendContracted<H>(out: seq<Group<H>>, g: Group<H>, keep: H -> bool, op: H -> string, kind: GroupKind)
    returns (extended: seq<Group<H>>)
    ensures extended == out + Regroup(AllSurvivors(g.members, keep, kind), g.multiplicity, kind, op)
  {
    hide StableSort, AllSurvivors;
    var members := CollectSurvivors(g.members, keep, kind);
    if |members| == 0 {
      extended := out;
    } else if |members| == 1 {
      extended := out + [Group(false, false, g.multiplicity, members)];
    } else {
      var sorted := StableSort(members, ByOp(op));
      var grp := Group(false, false, g.multiplicity, sorted);
      match kind {
        case GroupConcurrent => grp := grp.(concurrent := true);
        case GroupUnordered => grp := grp.(unordered := true);
      }
      extended := out + [grp];
    }
  }

  /** The first loop of `Filter`: contract every descendant of one group. */
  method FilterMembers<H>(ms: seq<Tree<H>>, keep: H -> bool, op: H -> string) returns (ok: bool, contracted: seq<Tree<H>>)
    ensures ok <==> StepsMembers(ms)
    ensures ok ==> contracted == ContractMembers(ms, keep, op)
    decreases ms
  {
    hide Steps, Contract;
    contracted := [];
    for i := 0 to |ms|
      invariant StepsMembers(ms) <==> StepsMembers(ms[i..])
      invariant StepsMembers(ms) ==> contracted + ContractMembers(ms[i..], keep, op) == ContractMembers(ms, keep, op)
    {
      ghost var rest := ms[i..];
      assert rest[0] == ms[i] && rest[1..] == ms[i + 1..];
      assert ms[i] in ms;
      var r := FilterSpan(ms[i], keep, op);
      if r.Panic? {
        return false, [];
      }
      if StepsMembers(ms) {
        assert contracted + ([r.tree] + ContractMembers(rest[1..], keep, op))
            == (contracted + [r.tree]) + ContractMembers(rest[1..], keep, op);
      }
      contracted := contracted + [r.tree];
    }
    assert ms[|ms|..] == [];
    ok := true;
  }

  /** The splice loop: a dropped step's child groups take its slot, carrying its multiplicity. */
  method AppendSpliced<H>(out: seq<Group<H>>, gs: seq<Group<H>>, multiplicity: string) returns (extended: seq<Group<H>>)
    ensures extended == out + Splice(gs, multiplicity)
  {
    extended := out;
    for i := 0 to |gs|
      invariant extended + Splice(gs[i..], multiplicity) == out + Splice(gs, multiplicity)
    {
      ghost var rest := gs[i..];
      assert rest[0] == gs[i] && rest[1..] == gs[i + 1..];
      assert extended + ([WithMultiplicity(gs[i], multiplicity)] + Splice(rest[1..], multiplicity))
          == (extended + [WithMultiplicity(gs[i], multiplicity)]) + Splice(rest[1..], multiplicity);
      extended := extended + [WithMultiplicity(gs[i], multiplicity)];
    }
    assert gs[|gs|..] == [];
  }

  /** One turn of the refill loop, over a group whose members are already contracted. */
  method FillSlot<H>(out: seq<Group<H>>, g: Group<H>, keep: H -> bool, op: H -> string)
    returns (ok: bool, extended: seq<Group<H>>)
    ensures ok <==> StepOk(g)
    ensures ok ==> extended == out + Slot(g, keep, op)
  {
    hide Regroup, AllSurvivors, Splice;
    ok, extended := true, out;
    if g.concurrent {
      extended := AppendContracted(out, g, keep, op, GroupConcurrent);
    } else if g.unordered {
      extended := AppendContracted(out, g, keep, op, GroupUnordered);
    } else if |g.members| != 1 {
      ok := false;
    } else if keep(g.members[0].head) {
      extended := out + [g];
    } else {
      extended := AppendSpliced(out, g.members[0].children, g.multiplicity);
    }
  }

  /** `Filter`: it panics exactly on trees with an ill-formed plain group, and otherwise contracts. */
  method FilterSpan<H>(span: Tree<H>, keep: H -> bool, op: H -> string) returns (r: Filtered<H>)
    ensures r.Panic? <==> !Steps(span)
    ensures r.Done? ==> r.tree == Contract(span, keep, op)
    decreases span
  {
    hide StepsMembers, ContractMembers, Slot;
    var gs := span.children;
    var out: seq<Group<H>> := [];
    for i := 0 to |gs|
      invariant StepsGroups(gs) <==> StepsGroups(gs[i..])
      invariant StepsGroups(gs) ==> out + ContractGroups(gs[i..], keep, op) == ContractGroups(gs, keep, op)
    {
      ghost var rest := gs[i..];
      assert rest[0] == gs[i] && rest[1..] == gs[i + 1..];
      assert gs[i] in gs;
      var ok, members := FilterMembers(gs[i].members, keep, op);
      if !ok {
        return Panic;
      }
      var filled, extended := FillSlot(out, gs[i].(members := members), keep, op);
      if !filled {
        return Panic;
      }
      if StepsGroups(gs) {
        assert out + (Slot(gs[i].(members := members), keep, op) + ContractGroups(rest[1..], keep, op))
            == extended + ContractGroups(rest[1..], keep, op);
      }
      out := extended;
    }
    assert gs[|gs|..] == [];
    r := Done(Tree(span.head, out));
  }

}
