/**
 * When salience filtering has settled: the exact condition under which filtering a filtered tree again
 * changes nothing, read off the tree that was filtered.
 */
module Settling {
  import opened Ir
  import opened Sorting
  import opened Promote

  // ---- trees a pass leaves alone ----

  /** A member of a racing or unordered group that a pass neither drops nor flattens. */
  predicate Stays<H>(m: Tree<H>, keep: H -> bool, kind: GroupKind) {
    || keep(m.head)
    || |m.children| > 1
    || (|m.children| == 1 && !PromotableIntoGroup(m.children[0], kind))
  }

  predicate AllStay<H>(ms: seq<Tree<H>>, keep: H -> bool, kind: GroupKind) {
    ms != [] ==> Stays(ms[0], keep, kind) && AllStay(ms[1..], keep, kind)
  }

  /** A group a pass leaves alone; `strict` asks it of plain steps, too. */
  predicate Holds<H>(g: Group<H>, keep: H -> bool, strict: bool)
    requires StepOk(g)
  {
    if g.concurrent || g.unordered then AllStay(g.members, keep, KindOf(g))
    else strict ==> keep(g.members[0].head)
  }

  predicate Stable<H>(t: Tree<H>, keep: H -> bool, strict: bool)
    requires Steps(t)
    decreases t
  {
    StableGroups(t.children, keep, strict)
  }

  predicate StableGroups<H>(gs: seq<Group<H>>, keep: H -> bool, strict: bool)
    requires StepsGroups(gs)
    decreases gs
  {
    gs != [] ==> Holds(gs[0], keep, strict) && StableMembers(gs[0].members, keep) && StableGroups(gs[1..], keep, strict)
  }

  predicate StableMembers<H>(ms: seq<Tree<H>>, keep: H -> bool)
    requires StepsMembers(ms)
    decreases ms
  {
    ms != [] ==> Stable(ms[0], keep, true) && StableMembers(ms[1..], keep)
  }

  // ---- the condition, on the tree before the first pass ----

  /** A contracted wrapper that a group of the kind flattens. */
  predicate Flattened<H>(c: Tree<H>, kind: GroupKind) {
    |c.children| == 1 && PromotableIntoGroup(c.children[0], kind)
  }

  /**
   * What is left of a racing or unordered group: a lone survivor is a plain step, so it has to be a kept node
   * (unless, not `strict`, the node above gives the step away); among several each has to stay.
   */
  predicate Fits<H>(survivors: seq<Tree<H>>, keep: H -> bool, kind: GroupKind, strict: bool) {
    if |survivors| == 1 then strict ==> keep(survivors[0].head) else AllStay(survivors, keep, kind)
  }

  /** No group anywhere in the tree strands a wrapper where a second pass would still take it out. */
  predicate Settled<H>(t: Tree<H>, keep: H -> bool, op: H -> string, strict: bool)
    requires Steps(t)
    decreases t
  {
    SettledGroups(t.children, keep, op, strict)
  }

  predicate SettledGroups<H>(gs: seq<Group<H>>, keep: H -> bool, op: H -> string, strict: bool)
    requires StepsGroups(gs)
    decreases gs
  {
    gs != [] ==> SettledGroup(gs[0], keep, op, strict) && SettledGroups(gs[1..], keep, op, strict)
  }

  predicate SettledGroup<H>(g: Group<H>, keep: H -> bool, op: H -> string, strict: bool)
    requires StepOk(g) && StepsMembers(g.members)
    decreases g
  {
    if g.concurrent || g.unordered then
      && SettledMembers(g.members, keep, op, KindOf(g))
      && Fits(AllSurvivors(ContractMembers(g.members, keep, op), keep, KindOf(g)), keep, KindOf(g), strict)
    else Settled(g.members[0], keep, op, strict || keep(g.members[0].head))
  }

  predicate SettledMembers<H>(ms: seq<Tree<H>>, keep: H -> bool, op: H -> string, kind: GroupKind)
    requires StepsMembers(ms)
    decreases ms
  {
    ms != [] ==>
      && Settled(ms[0], keep, op, keep(ms[0].head) || !Flattened(Contract(ms[0], keep, op), kind))
      && SettledMembers(ms[1..], keep, op, kind)
  }

  // ---- what every pass leaves ----

  /** Racing and unordered groups have company and are in operation order. */
  predicate Full<H(==)>(g: Group<H>, op: H -> string) {
    g.concurrent || g.unordered ==> |g.members| > 1 && StableSort(g.members, ByOp(op)) == g.members
  }

  predicate Formed<H(==)>(t: Tree<H>, op: H -> string)
    decreases t
  {
    FormedGroups(t.children, op)
  }

  predicate FormedGroups<H(==)>(gs: seq<Group<H>>, op: H -> string)
    decreases gs
  {
    gs != [] ==> Full(gs[0], op) && FormedMembers(gs[0].members, op) && FormedGroups(gs[1..], op)
  }

  predicate FormedMembers<H(==)>(ms: seq<Tree<H>>, op: H -> string)
    decreases ms
  {
    ms != [] ==> Formed(ms[0], op) && FormedMembers(ms[1..], op)
  }

  lemma {:induction false} FormedGroupsConcat<H>(x: seq<Group<H>>, y: seq<Group<H>>, op: H -> string)
    ensures FormedGroups(x + y, op) <==> FormedGroups(x, op) && FormedGroups(y, op)
  {
    hide FormedMembers, Full;
    if x == [] {
      assert x + y == y;
    } else {
      assert (x + y)[1..] == x[1..] + y;
      FormedGroupsConcat(x[1..], y, op);
    }
  }

  lemma {:induction false} FormedMembersConcat<H>(x: seq<Tree<H>>, y: seq<Tree<H>>, op: H -> string)
    ensures FormedMembers(x + y, op) <==> FormedMembers(x, op) && FormedMembers(y, op)
  {
    hide Formed;
    if x == [] {
      assert x + y == y;
    } else {
      assert (x + y)[1..] == x[1..] + y;
      FormedMembersConcat(x[1..], y, op);
    }
  }

  lemma {:induction false} InsertFormed<H>(m: Tree<H>, ms: seq<Tree<H>>, less: (Tree<H>, Tree<H>) -> bool, op: H -> string)
    ensures FormedMembers(Insert(m, ms, less), op) <==> Formed(m, op) && FormedMembers(ms, op)
  {
    hide Formed;
    if ms != [] && less(ms[0], m) {
      var rest := Insert(m, ms[1..], less);
      InsertFormed(m, ms[1..], less, op);
      assert ([ms[0]] + rest)[1..] == rest;
    } else {
      assert ([m] + ms)[1..] == ms;
    }
  }

  lemma {:induction false} SortFormed<H>(ms: seq<Tree<H>>, less: (Tree<H>, Tree<H>) -> bool, op: H -> string)
    ensures FormedMembers(StableSort(ms, less), op) <==> FormedMembers(ms, op)
  {
    hide Formed;
    if ms != [] {
      SortFormed(ms[1..], less, op);
      InsertFormed(ms[0], StableSort(ms[1..], less), less, op);
    }
  }

  lemma ByOpWeak<H(!new)>(op: H -> string)
    ensures StrictWeak(ByOp(op))
  {
    hide StrLess;
    StrOrder();
    forall a, b | ByOp(op)(a, b) ensures !ByOp(op)(b, a) {
      assert StrLess(op(a.head), op(b.head));
    }
    forall a, b, c | ByOp(op)(a, c) ensures ByOp(op)(a, b) || ByOp(op)(b, c) {
      assert StrLess(op(a.head), op(b.head)) || StrLess(op(b.head), op(c.head));
    }
  }

  lemma SortTwice<H(!new)>(ms: seq<Tree<H>>, op: H -> string)
    ensures StableSort(StableSort(ms, ByOp(op)), ByOp(op)) == StableSort(ms, ByOp(op))
  {
    ByOpWeak(op);
    StableSortSorted(ms, ByOp(op));
    SortedStays(StableSort(ms, ByOp(op)), ByOp(op));
  }

  lemma {:induction false} SurvivorsFormed<H>(ms: seq<Tree<H>>, keep: H -> bool, kind: GroupKind, op: H -> string)
    requires FormedMembers(ms, op)
    ensures FormedMembers(AllSurvivors(ms, keep, kind), op)
  {
    hide Full;
    if ms != [] {
      var first := Survivors(ms[0], keep, kind);
      SurvivorsFormed(ms[1..], keep, kind, op);
      if first == [ms[0]] {
        assert first[1..] == [];
      } else if |ms[0].children| == 1 {
        assert FormedGroups(ms[0].children, op);
      }
      FormedMembersConcat(first, AllSurvivors(ms[1..], keep, kind), op);
    }
  }

  lemma {:induction false} SpliceFormed<H>(gs: seq<Group<H>>, outer: string, op: H -> string)
    requires FormedGroups(gs, op)
    ensures FormedGroups(Splice(gs, outer), op)
  {
    hide FormedMembers;
    if gs != [] {
      SpliceFormed(gs[1..], outer, op);
      assert Splice(gs, outer)[1..] == Splice(gs[1..], outer);
    }
  }

  lemma RegroupFormed<H(!new)>(ms: seq<Tree<H>>, multiplicity: string, kind: GroupKind, op: H -> string)
    requires FormedMembers(ms, op)
    ensures FormedGroups(Regroup(ms, multiplicity, kind, op), op)
  {
    hide FormedMembers, StableSort;
    var gs := Regroup(ms, multiplicity, kind, op);
    if |ms| >= 1 { assert gs[1..] == []; }
    SortTwice(ms, op);
    SortFormed(ms, ByOp(op), op);
  }

  lemma SlotFormed<H(!new)>(g: Group<H>, keep: H -> bool, op: H -> string)
    requires StepOk(g) && FormedMembers(g.members, op)
    ensures FormedGroups(Slot(g, keep, op), op)
  {
    hide Regroup, AllSurvivors, Splice;
    if g.concurrent || g.unordered {
      SurvivorsFormed(g.members, keep, KindOf(g), op);
      RegroupFormed(AllSurvivors(g.members, keep, KindOf(g)), g.multiplicity, KindOf(g), op);
    } else {
      assert [g][1..] == [];
      SpliceFormed(g.members[0].children, g.multiplicity, op);
    }
  }

  lemma {:induction false} ContractFormed<H(!new)>(t: Tree<H>, keep: H -> bool, op: H -> string)
    requires Steps(t)
    ensures Formed(Contract(t, keep, op), op)
    decreases t
  {
    ContractGroupsFormed(t.children, keep, op);
  }

  lemma {:induction false} ContractGroupsFormed<H(!new)>(gs: seq<Group<H>>, keep: H -> bool, op: H -> string)
    requires StepsGroups(gs)
    ensures FormedGroups(ContractGroups(gs, keep, op), op)
    decreases gs
  {
    hide Slot;
    if gs != [] {
      var g := gs[0].(members := ContractMembers(gs[0].members, keep, op));
      ContractMembersFormed(gs[0].members, keep, op);
      SlotFormed(g, keep, op);
      ContractGroupsFormed(gs[1..], keep, op);
      FormedGroupsConcat(Slot(g, keep, op), ContractGroups(gs[1..], keep, op), op);
    }
  }

  lemma {:induction false} ContractMembersFormed<H(!new)>(ms: seq<Tree<H>>, keep: H -> bool, op: H -> string)
    requires StepsMembers(ms)
    ensures FormedMembers(ContractMembers(ms, keep, op), op)
    decreases ms
  {
    if ms != [] {
      ContractFormed(ms[0], keep, op);
      ContractMembersFormed(ms[1..], keep, op);
      assert ContractMembers(ms, keep, op)[1..] == ContractMembers(ms[1..], keep, op);
    }
  }

  // ---- a tree a pass leaves alone is a stable one ----

  function Size<H>(t: Tree<H>): (n: nat)
    ensures n > 0
    decreases t
  {
    1 + SizeGroups(t.children)
  }

  function SizeGroups<H>(gs: seq<Group<H>>): nat
    decreases gs
  {
    if gs == [] then 0 else SizeMembers(gs[0].members) + SizeGroups(gs[1..])
  }

  function SizeMembers<H>(ms: seq<Tree<H>>): nat
    decreases ms
  {
    if ms == [] then 0 else Size(ms[0]) + SizeMembers(ms[1..])
  }

  lemma {:induction false} SizeGroupsConcat<H>(x: seq<Group<H>>, y: seq<Group<H>>)
    ensures SizeGroups(x + y) == SizeGroups(x) + SizeGroups(y)
  {
    if x == [] {
      assert x + y == y;
    } else {
      assert (x + y)[1..] == x[1..] + y;
      SizeGroupsConcat(x[1..], y);
    }
  }

  lemma {:induction false} SizeMembersConcat<H>(x: seq<Tree<H>>, y: seq<Tree<H>>)
    ensures SizeMembers(x + y) == SizeMembers(x) + SizeMembers(y)
  {
    hide Size;
    if x == [] {
      assert x + y == y;
    } else {
      assert (x + y)[1..] == x[1..] + y;
      SizeMembersConcat(x[1..], y);
    }
  }

  lemma {:induction false} InsertSize<H>(m: Tree<H>, ms: seq<Tree<H>>, less: (Tree<H>, Tree<H>) -> bool)
    ensures SizeMembers(Insert(m, ms, less)) == Size(m) + SizeMembers(ms)
  {
    hide Size;
    if ms != [] && less(ms[0], m) {
      var rest := Insert(m, ms[1..], less);
      InsertSize(m, ms[1..], less);
      assert ([ms[0]] + rest)[1..] == rest;
    } else {
      assert ([m] + ms)[1..] == ms;
    }
  }

  lemma {:induction false} SortSize<H>(ms: seq<Tree<H>>, less: (Tree<H>, Tree<H>) -> bool)
    ensures SizeMembers(StableSort(ms, less)) == SizeMembers(ms)
  {
    hide Size;
    if ms != [] {
      SortSize(ms[1..], less);
      InsertSize(ms[0], StableSort(ms[1..], less), less);
    }
  }

  lemma {:induction false} SpliceSize<H>(gs: seq<Group<H>>, outer: string)
    ensures SizeGroups(Splice(gs, outer)) == SizeGroups(gs)
  {
    if gs != [] {
      SpliceSize(gs[1..], outer);
      assert Splice(gs, outer)[1..] == Splice(gs[1..], outer);
    }
  }

  lemma RegroupSize<H>(ms: seq<Tree<H>>, multiplicity: string, kind: GroupKind, op: H -> string)
    ensures SizeGroups(Regroup(ms, multiplicity, kind, op)) == SizeMembers(ms)
  {
    hide Size, StableSort;
    var gs := Regroup(ms, multiplicity, kind, op);
    if |ms| >= 1 { assert gs[1..] == []; }
    SortSize(ms, ByOp(op));
  }

  /** Every member that does not stay costs at least its own node. */
  lemma SurvivorSize<H>(m: Tree<H>, keep: H -> bool, kind: GroupKind)
    ensures SizeMembers(Survivors(m, keep, kind)) <= Size(m)
    ensures SizeMembers(Survivors(m, keep, kind)) == Size(m) <==> Stays(m, keep, kind)
    ensures Stays(m, keep, kind) ==> Survivors(m, keep, kind) == [m]
  {
    var s := Survivors(m, keep, kind);
    if Stays(m, keep, kind) {
      assert s == [m] && s[1..] == [];
    } else if |m.children| == 1 {
      assert m.children[1..] == [];
    }
  }

  lemma {:induction false} SurvivorsSize<H>(ms: seq<Tree<H>>, keep: H -> bool, kind: GroupKind)
    ensures SizeMembers(AllSurvivors(ms, keep, kind)) <= SizeMembers(ms)
    ensures SizeMembers(AllSurvivors(ms, keep, kind)) == SizeMembers(ms) <==> AllStay(ms, keep, kind)
    ensures AllStay(ms, keep, kind) ==> AllSurvivors(ms, keep, kind) == ms
  {
    hide Size, Stays, Survivors;
    if ms != [] {
      SurvivorSize(ms[0], keep, kind);
      SurvivorsSize(ms[1..], keep, kind);
      SizeMembersConcat(Survivors(ms[0], keep, kind), AllSurvivors(ms[1..], keep, kind));
      assert ms == [ms[0]] + ms[1..];
    }
  }

  lemma SlotSize<H>(g: Group<H>, keep: H -> bool, op: H -> string)
    requires StepOk(g)
    ensures SizeGroups(Slot(g, keep, op)) <= SizeMembers(g.members)
    ensures SizeGroups(Slot(g, keep, op)) == SizeMembers(g.members) ==> Holds(g, keep, true)
  {
    hide Regroup, AllSurvivors, Splice, AllStay;
    if g.concurrent || g.unordered {
      SurvivorsSize(g.members, keep, KindOf(g));
      RegroupSize(AllSurvivors(g.members, keep, KindOf(g)), g.multiplicity, KindOf(g), op);
    } else {
      assert [g][1..] == [] && g.members[1..] == [];
      SpliceSize(g.members[0].children, g.multiplicity);
    }
  }

  lemma SlotStays<H>(g: Group<H>, keep: H -> bool, op: H -> string)
    requires StepOk(g) && !(g.concurrent && g.unordered) && Full(g, op) && Holds(g, keep, true)
    ensures Slot(g, keep, op) == [g]
  {
    hide StableSort, AllSurvivors, AllStay;
    if g.concurrent || g.unordered {
      SurvivorsSize(g.members, keep, KindOf(g));
    }
  }

  lemma {:induction false} StableFixed<H>(t: Tree<H>, keep: H -> bool, op: H -> string)
    requires Steps(t) && OneClaim(t) && Formed(t, op) && Stable(t, keep, true)
    ensures Contract(t, keep, op) == t
    decreases t
  {
    StableGroupsFixed(t.children, keep, op);
  }

  lemma {:induction false} StableGroupsFixed<H>(gs: seq<Group<H>>, keep: H -> bool, op: H -> string)
    requires StepsGroups(gs) && OneClaimGroups(gs) && FormedGroups(gs, op) && StableGroups(gs, keep, true)
    ensures ContractGroups(gs, keep, op) == gs
    decreases gs
  {
    hide Slot, Full, Holds;
    if gs != [] {
      StableMembersFixed(gs[0].members, keep, op);
      SlotStays(gs[0], keep, op);
      StableGroupsFixed(gs[1..], keep, op);
      assert gs == [gs[0]] + gs[1..];
    }
  }

  lemma {:induction false} StableMembersFixed<H>(ms: seq<Tree<H>>, keep: H -> bool, op: H -> string)
    requires StepsMembers(ms) && OneClaimMembers(ms) && FormedMembers(ms, op) && StableMembers(ms, keep)
    ensures ContractMembers(ms, keep, op) == ms
    decreases ms
  {
    if ms != [] {
      StableFixed(ms[0], keep, op);
      StableMembersFixed(ms[1..], keep, op);
      assert ms == [ms[0]] + ms[1..];
    }
  }

  /** A pass never adds a node, and one that loses none found the tree stable. */
  lemma {:induction false} SizeShrinks<H>(t: Tree<H>, keep: H -> bool, op: H -> string)
    requires Steps(t) && OneClaim(t) && Formed(t, op)
    ensures Size(Contract(t, keep, op)) <= Size(t)
    ensures Size(Contract(t, keep, op)) == Size(t) ==> Stable(t, keep, true)
    decreases t
  {
    GroupsShrink(t.children, keep, op);
  }

  lemma {:induction false} GroupsShrink<H>(gs: seq<Group<H>>, keep: H -> bool, op: H -> string)
    requires StepsGroups(gs) && OneClaimGroups(gs) && FormedGroups(gs, op)
    ensures SizeGroups(ContractGroups(gs, keep, op)) <= SizeGroups(gs)
    ensures SizeGroups(ContractGroups(gs, keep, op)) == SizeGroups(gs) ==> StableGroups(gs, keep, true)
    decreases gs
  {
    hide Slot, Full, Holds;
    if gs != [] {
      var g := gs[0].(members := ContractMembers(gs[0].members, keep, op));
      MembersShrink(gs[0].members, keep, op);
      SlotSize(g, keep, op);
      GroupsShrink(gs[1..], keep, op);
      SizeGroupsConcat(Slot(g, keep, op), ContractGroups(gs[1..], keep, op));
      if SizeMembers(g.members) == SizeMembers(gs[0].members) {
        StableMembersFixed(gs[0].members, keep, op);
        assert g == gs[0];
      }
    }
  }

  lemma {:induction false} MembersShrink<H>(ms: seq<Tree<H>>, keep: H -> bool, op: H -> string)
    requires StepsMembers(ms) && OneClaimMembers(ms) && FormedMembers(ms, op)
    ensures SizeMembers(ContractMembers(ms, keep, op)) <= SizeMembers(ms)
    ensures SizeMembers(ContractMembers(ms, keep, op)) == SizeMembers(ms) ==> StableMembers(ms, keep)
    decreases ms
  {
    hide Size;
    if ms != [] {
      SizeShrinks(ms[0], keep, op);
      MembersShrink(ms[1..], keep, op);
      assert ContractMembers(ms, keep, op)[1..] == ContractMembers(ms[1..], keep, op);
    }
  }

  /** Among the trees a pass can leave, the fixed points are the stable ones. */
  lemma FixedIffStable<H>(t: Tree<H>, keep: H -> bool, op: H -> string)
    requires Steps(t) && OneClaim(t) && Formed(t, op)
    ensures Contract(t, keep, op) == t <==> Stable(t, keep, true)
  {
    hide Stable, Contract, Size;
    SizeShrinks(t, keep, op);
    if Stable(t, keep, true) { StableFixed(t, keep, op); }
  }

  // ---- the condition on the tree before ----

  lemma {:induction false} StableGroupsConcat<H>(x: seq<Group<H>>, y: seq<Group<H>>, keep: H -> bool, strict: bool)
    requires StepsGroups(x) && StepsGroups(y) && StepsGroups(x + y)
    ensures StableGroups(x + y, keep, strict) <==> StableGroups(x, keep, strict) && StableGroups(y, keep, strict)
  {
    hide Holds, StableMembers, StepsMembers;
    if x == [] {
      assert x + y == y;
    } else {
      assert (x + y)[1..] == x[1..] + y;
      StableGroupsConcat(x[1..], y, keep, strict);
    }
  }

  lemma {:induction false} StableMembersConcat<H>(x: seq<Tree<H>>, y: seq<Tree<H>>, keep: H -> bool)
    requires StepsMembers(x) && StepsMembers(y) && StepsMembers(x + y)
    ensures StableMembers(x + y, keep) <==> StableMembers(x, keep) && StableMembers(y, keep)
  {
    hide Stable, Steps;
    if x == [] {
      assert x + y == y;
    } else {
      assert (x + y)[1..] == x[1..] + y;
      StableMembersConcat(x[1..], y, keep);
    }
  }

  lemma {:induction false} AllStayConcat<H>(x: seq<Tree<H>>, y: seq<Tree<H>>, keep: H -> bool, kind: GroupKind)
    ensures AllStay(x + y, keep, kind) <==> AllStay(x, keep, kind) && AllStay(y, keep, kind)
  {
    hide Stays;
    if x == [] {
      assert x + y == y;
    } else {
      assert (x + y)[1..] == x[1..] + y;
      AllStayConcat(x[1..], y, keep, kind);
    }
  }

  lemma {:induction false} InsertStable<H>(m: Tree<H>, ms: seq<Tree<H>>, less: (Tree<H>, Tree<H>) -> bool, keep: H -> bool, kind: GroupKind)
    requires Steps(m) && StepsMembers(ms) && StepsMembers(Insert(m, ms, less))
    ensures StableMembers(Insert(m, ms, less), keep) <==> Stable(m, keep, true) && StableMembers(ms, keep)
    ensures AllStay(Insert(m, ms, less), keep, kind) <==> Stays(m, keep, kind) && AllStay(ms, keep, kind)
  {
    hide Stable, Steps, Stays;
    if ms != [] && less(ms[0], m) {
      var rest := Insert(m, ms[1..], less);
      assert ([ms[0]] + rest)[1..] == rest;
      InsertStable(m, ms[1..], less, keep, kind);
    } else {
      assert ([m] + ms)[1..] == ms;
    }
  }

  lemma {:induction false} SortStable<H>(ms: seq<Tree<H>>, less: (Tree<H>, Tree<H>) -> bool, keep: H -> bool, kind: GroupKind)
    requires StepsMembers(ms) && StepsMembers(StableSort(ms, less))
    ensures StableMembers(StableSort(ms, less), keep) <==> StableMembers(ms, keep)
    ensures AllStay(StableSort(ms, less), keep, kind) <==> AllStay(ms, keep, kind)
  {
    hide Stable, Steps, Stays;
    if ms != [] {
      SortKeepsShape(ms[1..], less);
      SortStable(ms[1..], less, keep, kind);
      InsertStable(ms[0], StableSort(ms[1..], less), less, keep, kind);
    }
  }

  lemma {:induction false} SpliceStable<H>(gs: seq<Group<H>>, outer: string, keep: H -> bool, strict: bool)
    requires StepsGroups(gs) && StepsGroups(Splice(gs, outer))
    ensures StableGroups(Splice(gs, outer), keep, strict) <==> StableGroups(gs, keep, strict)
  {
    hide StableMembers, StepsMembers, AllStay;
    if gs != [] {
      assert Splice(gs, outer)[1..] == Splice(gs[1..], outer);
      SpliceStable(gs[1..], outer, keep, strict);
    }
  }

  lemma RegroupStable<H>(ms: seq<Tree<H>>, multiplicity: string, kind: GroupKind, op: H -> string, keep: H -> bool, strict: bool)
    requires StepsMembers(ms) && StepsGroups(Regroup(ms, multiplicity, kind, op))
    ensures StableGroups(Regroup(ms, multiplicity, kind, op), keep, strict) <==>
              StableMembers(ms, keep) && Fits(ms, keep, kind, strict)
  {
    hide Stable, StableSort, Stays;
    var gs := Regroup(ms, multiplicity, kind, op);
    if |ms| >= 1 { assert gs[1..] == []; }
    if |ms| > 1 { SortStable(ms, ByOp(op), keep, kind); }
  }

  /** The members of a group before they are flattened: a wrapper that gives its members away is not asked to keep its step. */
  predicate Loose<H>(ms: seq<Tree<H>>, keep: H -> bool, kind: GroupKind)
    requires StepsMembers(ms)
    decreases ms
  {
    ms != [] ==>
      && Stable(ms[0], keep, keep(ms[0].head) || !Flattened(ms[0], kind))
      && Loose(ms[1..], keep, kind)
  }

  lemma OneStable<H>(gs: seq<Group<H>>, keep: H -> bool, strict: bool)
    requires |gs| == 1 && StepsGroups(gs)
    ensures StableGroups(gs, keep, strict) <==> Holds(gs[0], keep, strict) && StableMembers(gs[0].members, keep)
  {
    assert gs[1..] == [];
  }

  lemma LooseOne<H>(m: Tree<H>, keep: H -> bool, kind: GroupKind, op: H -> string)
    requires Steps(m) && OneClaim(m) && Formed(m, op) && StepsMembers(Survivors(m, keep, kind))
    requires |Survivors(m, keep, kind)| <= 1 || AllStay(Survivors(m, keep, kind), keep, kind)
    ensures Stable(m, keep, keep(m.head) || !Flattened(m, kind)) <==> StableMembers(Survivors(m, keep, kind), keep)
  {
    hide AllStay, FormedMembers;
    var s := Survivors(m, keep, kind);
    if keep(m.head) || (m.children != [] && !Flattened(m, kind)) {
      assert s == [m] && s[1..] == [];
    } else if m.children != [] {
      var cg := m.children[0];
      assert StepsGroups(m.children) && OneClaimGroups(m.children) && FormedGroups(m.children, op);
      assert cg.concurrent || cg.unordered ==> KindOf(cg) == kind && |cg.members| > 1;
      OneStable(m.children, keep, false);
    }
  }

  lemma {:induction false} LooseIsStable<H>(ms: seq<Tree<H>>, keep: H -> bool, kind: GroupKind, op: H -> string)
    requires StepsMembers(ms) && OneClaimMembers(ms) && FormedMembers(ms, op) && StepsMembers(AllSurvivors(ms, keep, kind))
    requires |AllSurvivors(ms, keep, kind)| <= 1 || AllStay(AllSurvivors(ms, keep, kind), keep, kind)
    ensures Loose(ms, keep, kind) <==> StableMembers(AllSurvivors(ms, keep, kind), keep)
  {
    hide Stable, StableGroups, Steps, Formed, OneClaim, Stays, Survivors, Flattened;
    if ms != [] {
      var first, rest := Survivors(ms[0], keep, kind), AllSurvivors(ms[1..], keep, kind);
      SurvivorsShape(ms[0], keep, kind);
      AllSurvivorsShape(ms[1..], keep, kind);
      AllStayConcat(first, rest, keep, kind);
      LooseOne(ms[0], keep, kind, op);
      LooseIsStable(ms[1..], keep, kind, op);
      StableMembersConcat(first, rest, keep);
    }
  }

  /** What a slot of already contracted members becomes is stable when its members are and they fit. */
  lemma RacingSlotStable<H>(g: Group<H>, keep: H -> bool, op: H -> string, strict: bool)
    requires (g.concurrent || g.unordered) && !(g.concurrent && g.unordered)
    requires StepsMembers(g.members) && OneClaimMembers(g.members) && FormedMembers(g.members, op)
    requires StepsGroups(Slot(g, keep, op))
    ensures StableGroups(Slot(g, keep, op), keep, strict) <==>
              && Loose(g.members, keep, KindOf(g))
              && Fits(AllSurvivors(g.members, keep, KindOf(g)), keep, KindOf(g), strict)
  {
    hide Regroup, AllSurvivors, AllStay, StableMembers, StableGroups, Loose;
    var kind := KindOf(g);
    var s := AllSurvivors(g.members, keep, kind);
    AllSurvivorsShape(g.members, keep, kind);
    RegroupStable(s, g.multiplicity, kind, op, keep, strict);
    if |s| <= 1 || AllStay(s, keep, kind) { LooseIsStable(g.members, keep, kind, op); }
  }

  lemma PlainSlotStable<H>(g: Group<H>, keep: H -> bool, op: H -> string, strict: bool)
    requires StepOk(g) && !g.concurrent && !g.unordered && StepsMembers(g.members)
    requires StepsGroups(Slot(g, keep, op))
    ensures StableGroups(Slot(g, keep, op), keep, strict) <==> Stable(g.members[0], keep, strict || keep(g.members[0].head))
  {
    var m := g.members[0];
    assert g.members == [m] && Steps(m) && StepsGroups(m.children);
    if keep(m.head) {
      OneStable([g], keep, strict);
      assert g.members[1..] == [];
    }
    if !keep(m.head) {
      SpliceStable(m.children, g.multiplicity, keep, strict);
    }
  }

  lemma {:induction false} SettledIsStable<H(!new)>(t: Tree<H>, keep: H -> bool, op: H -> string, strict: bool)
    requires Steps(t) && OneClaim(t) && Steps(Contract(t, keep, op))
    ensures Settled(t, keep, op, strict) <==> Stable(Contract(t, keep, op), keep, strict)
    decreases t
  {
    SettledGroupsAreStable(t.children, keep, op, strict);
  }

  lemma {:induction false} SettledGroupsAreStable<H(!new)>(gs: seq<Group<H>>, keep: H -> bool, op: H -> string, strict: bool)
    requires StepsGroups(gs) && OneClaimGroups(gs) && StepsGroups(ContractGroups(gs, keep, op))
    ensures SettledGroups(gs, keep, op, strict) <==> StableGroups(ContractGroups(gs, keep, op), keep, strict)
    decreases gs
  {
    hide Slot, SettledGroup;
    if gs != [] {
      var g := gs[0].(members := ContractMembers(gs[0].members, keep, op));
      var first, rest := Slot(g, keep, op), ContractGroups(gs[1..], keep, op);
      StepsGroupsConcat(first, rest);
      SettledGroupIsStable(gs[0], keep, op, strict);
      SettledGroupsAreStable(gs[1..], keep, op, strict);
      StableGroupsConcat(first, rest, keep, strict);
    }
  }

  lemma {:induction false} SettledGroupIsStable<H(!new)>(g: Group<H>, keep: H -> bool, op: H -> string, strict: bool)
    requires StepOk(g) && StepsMembers(g.members) && OneClaimMembers(g.members) && !(g.concurrent && g.unordered)
    requires StepsGroups(Slot(g.(members := ContractMembers(g.members, keep, op)), keep, op))
    ensures SettledGroup(g, keep, op, strict) <==>
              StableGroups(Slot(g.(members := ContractMembers(g.members, keep, op)), keep, op), keep, strict)
    decreases g
  {
    hide Slot, Fits;
    var c := g.(members := ContractMembers(g.members, keep, op));
    ContractMembersShape(g.members, keep, op);
    ContractMembersFormed(g.members, keep, op);
    if g.concurrent || g.unordered {
      hide Loose, StableGroups, AllSurvivors;
      RacingSlotStable(c, keep, op, strict);
      SettledMembersAreLoose(g.members, keep, op, KindOf(g));
    } else {
      PlainSlotStable(c, keep, op, strict);
      var m := g.members[0];
      assert c.members[0] == Contract(m, keep, op);
      SettledIsStable(m, keep, op, strict || keep(m.head));
    }
  }

  lemma {:induction false} SettledMembersAreLoose<H(!new)>(ms: seq<Tree<H>>, keep: H -> bool, op: H -> string, kind: GroupKind)
    requires StepsMembers(ms) && OneClaimMembers(ms) && StepsMembers(ContractMembers(ms, keep, op))
    ensures SettledMembers(ms, keep, op, kind) <==> Loose(ContractMembers(ms, keep, op), keep, kind)
    decreases ms
  {
    if ms != [] {
      var cs := ContractMembers(ms, keep, op);
      var c := Contract(ms[0], keep, op);
      assert cs[0] == c && cs[1..] == ContractMembers(ms[1..], keep, op);
      SettledIsStable(ms[0], keep, op, keep(ms[0].head) || !Flattened(c, kind));
      SettledMembersAreLoose(ms[1..], keep, op, kind);
    }
  }

  /**
   * A second pass changes nothing exactly when no group of the first strands a wrapper: alone in what used to
   * be a race or an unordered group, or moved by a wrapper around it into a group that would flatten it.
   */
  lemma SecondPassIff<H(!new)>(t: Tree<H>, keep: H -> bool, op: H -> string)
    requires Steps(t) && OneClaim(t)
    ensures Steps(Contract(t, keep, op))
    ensures Contract(Contract(t, keep, op), keep, op) == Contract(t, keep, op) <==> Settled(t, keep, op, true)
  {
    hide Contract, Stable, Settled;
    ContractShape(t, keep, op);
    ContractFormed(t, keep, op);
    SettledIsStable(t, keep, op, true);
    FixedIffStable(Contract(t, keep, op), keep, op);
  }

  // ---- when it is settled, and when it is not ----

  /** Every member of a racing or unordered group is kept. */
  predicate KeptRaces<H>(t: Tree<H>, keep: H -> bool)
    decreases t
  {
    KeptRacesGroups(t.children, keep)
  }

  predicate KeptRacesGroups<H>(gs: seq<Group<H>>, keep: H -> bool)
    decreases gs
  {
    gs != [] ==> KeptRacesMembers(gs[0].members, keep, gs[0].concurrent || gs[0].unordered) && KeptRacesGroups(gs[1..], keep)
  }

  predicate KeptRacesMembers<H>(ms: seq<Tree<H>>, keep: H -> bool, racing: bool)
    decreases ms
  {
    ms != [] ==> (racing ==> keep(ms[0].head)) && KeptRaces(ms[0], keep) && KeptRacesMembers(ms[1..], keep, racing)
  }

  /** Where only plain steps are ever dropped, one pass is enough. */
  lemma {:induction false} KeptRacesSettle<H(!new)>(t: Tree<H>, keep: H -> bool, op: H -> string, strict: bool)
    requires Steps(t) && KeptRaces(t, keep)
    ensures Settled(t, keep, op, strict)
    decreases t
  {
    KeptRacesGroupsSettle(t.children, keep, op, strict);
  }

  lemma {:induction false} KeptRacesGroupsSettle<H(!new)>(gs: seq<Group<H>>, keep: H -> bool, op: H -> string, strict: bool)
    requires StepsGroups(gs) && KeptRacesGroups(gs, keep)
    ensures SettledGroups(gs, keep, op, strict)
    decreases gs
  {
    hide AllSurvivors, AllStay;
    if gs != [] {
      var g := gs[0];
      if g.concurrent || g.unordered {
        KeptMembersSettle(g.members, keep, op, KindOf(g));
        AllKept(g.members, keep, op, KindOf(g));
      } else {
        KeptRacesSettle(g.members[0], keep, op, strict || keep(g.members[0].head));
      }
      KeptRacesGroupsSettle(gs[1..], keep, op, strict);
    }
  }

  lemma {:induction false} KeptMembersSettle<H(!new)>(ms: seq<Tree<H>>, keep: H -> bool, op: H -> string, kind: GroupKind)
    requires StepsMembers(ms) && KeptRacesMembers(ms, keep, true)
    ensures SettledMembers(ms, keep, op, kind)
    decreases ms
  {
    if ms != [] {
      KeptRacesSettle(ms[0], keep, op, true);
      KeptMembersSettle(ms[1..], keep, op, kind);
    }
  }

  lemma {:induction false} AllKept<H>(ms: seq<Tree<H>>, keep: H -> bool, op: H -> string, kind: GroupKind)
    requires StepsMembers(ms) && KeptRacesMembers(ms, keep, true)
    ensures AllStay(ContractMembers(ms, keep, op), keep, kind)
    ensures AllSurvivors(ContractMembers(ms, keep, op), keep, kind) == ContractMembers(ms, keep, op)
    ensures ms != [] ==> keep(ContractMembers(ms, keep, op)[0].head)
  {
    hide Contract;
    if ms != [] {
      AllKept(ms[1..], keep, op, kind);
      assert ContractMembers(ms, keep, op)[1..] == ContractMembers(ms[1..], keep, op);
    }
  }

  lemma {:induction false} SettledAt<H>(gs: seq<Group<H>>, keep: H -> bool, op: H -> string, i: nat)
    requires StepsGroups(gs) && i < |gs| && SettledGroups(gs, keep, op, true)
    ensures StepOk(gs[i]) && StepsMembers(gs[i].members) && SettledGroup(gs[i], keep, op, true)
  {
    hide SettledGroup;
    if i > 0 { SettledAt(gs[1..], keep, op, i - 1); }
  }

  /** A wrapper that had to stay in a race and ends up alone: a second pass takes it out, whatever it holds. */
  lemma LoneWrapperGoes<H(!new)>(t: Tree<H>, keep: H -> bool, op: H -> string, i: nat, wrapper: Tree<H>)
    requires Steps(t) && OneClaim(t) && i < |t.children| && (t.children[i].concurrent || t.children[i].unordered)
    requires StepsMembers(t.children[i].members)
    requires AllSurvivors(ContractMembers(t.children[i].members, keep, op), keep, KindOf(t.children[i])) == [wrapper]
    requires !keep(wrapper.head)
    ensures Steps(Contract(t, keep, op)) && Contract(Contract(t, keep, op), keep, op) != Contract(t, keep, op)
  {
    hide Contract, OneClaim, AllSurvivors, ContractMembers, SettledMembers;
    SecondPassIff(t, keep, op);
    if Settled(t, keep, op, true) { SettledAt(t.children, keep, op, i); }
  }

  function Leaf(h: string): Tree<string> {
    Tree(h, [])
  }

  function Plain(t: Tree<string>): Group<string> {
    Group(false, false, "", [t])
  }

  /** A wrapper around two kept steps, racing with a leaf. */
  function RacingWrapper(): Tree<string> {
    Tree("root", [Group(true, false, "", [Tree("wrapper", [Plain(Leaf("a")), Plain(Leaf("b"))]), Leaf("x")])])
  }

  /** Filtering is not idempotent: the race loses the leaf, and with it the reason to keep the wrapper. */
  lemma SecondPassSplices()
    ensures var keep := (h: string) => h == "a" || h == "b";
            var op := (h: string) => h;
            && Steps(RacingWrapper()) && Steps(Contract(RacingWrapper(), keep, op))
            && Contract(Contract(RacingWrapper(), keep, op), keep, op) != Contract(RacingWrapper(), keep, op)
  {
    var keep, op := (h: string) => h == "a" || h == "b", (h: string) => h;
    var a, b := Plain(Leaf("a")), Plain(Leaf("b"));
    var wrapper := Tree("wrapper", [a, b]);
    var ms := [wrapper, Leaf("x")];
    KeptSteps(a, b, keep, op);
    assert Contract(wrapper, keep, op) == wrapper && Contract(Leaf("x"), keep, op) == Leaf("x");
    PairContracts(wrapper, Leaf("x"), keep, op);
    TwoSurvivors(wrapper, Leaf("x"), keep, GroupConcurrent);
    WellFormedRoot(RacingWrapper(), wrapper, Leaf("x"));
    LoneWrapperGoes(RacingWrapper(), keep, op, 0, wrapper);
  }

  lemma KeptSteps(a: Group<string>, b: Group<string>, keep: string -> bool, op: string -> string)
    requires a == Plain(Leaf("a")) && b == Plain(Leaf("b")) && keep("a") && keep("b")
    ensures StepsGroups([a, b]) && OneClaimGroups([a, b]) && ContractGroups([a, b], keep, op) == [a, b]
  {
    assert [a, b][1..] == [b] && [b][1..] == [];
    assert [Leaf("a")][1..] == [] && [Leaf("b")][1..] == [];
    assert ContractMembers([Leaf("a")], keep, op) == [Leaf("a")];
    assert ContractMembers([Leaf("b")], keep, op) == [Leaf("b")];
    assert ContractGroups([b], keep, op) == [b];
  }

  lemma PairContracts(a: Tree<string>, b: Tree<string>, keep: string -> bool, op: string -> string)
    requires Steps(a) && Steps(b)
    ensures StepsMembers([a, b]) && ContractMembers([a, b], keep, op) == [Contract(a, keep, op), Contract(b, keep, op)]
  {
    hide Contract;
    assert [a, b][1..] == [b] && [b][1..] == [];
    assert ContractMembers([b], keep, op) == [Contract(b, keep, op)];
  }

  lemma TwoSurvivors(a: Tree<string>, b: Tree<string>, keep: string -> bool, kind: GroupKind)
    ensures AllSurvivors([a, b], keep, kind) == Survivors(a, keep, kind) + Survivors(b, keep, kind)
  {
    hide Survivors;
    assert [a, b][1..] == [b] && [b][1..] == [];
    assert AllSurvivors([b], keep, kind) == Survivors(b, keep, kind) + [];
  }

  lemma WellFormedRoot(t: Tree<string>, a: Tree<string>, b: Tree<string>)
    requires |t.children| == 1 && t.children[0].members == [a, b] && t.children[0].concurrent != t.children[0].unordered
    requires Steps(a) && Steps(b) && OneClaim(a) && OneClaim(b)
    ensures Steps(t) && OneClaim(t)
  {
    hide Steps, OneClaim;
    var g := t.children[0];
    assert t.children == [g] && [g][1..] == [];
    assert [a, b][1..] == [b] && [b][1..] == [];
    SoloShape(b);
    assert StepsMembers(g.members) && OneClaimMembers(g.members);
    assert StepOk(g) && StepsGroups([g][1..]) && OneClaimGroups([g][1..]);
    assert StepsGroups(t.children) && OneClaimGroups(t.children);
    WellFormedIs(t);
  }

  lemma SoloShape(b: Tree<string>)
    requires Steps(b) && OneClaim(b)
    ensures StepsMembers([b]) && OneClaimMembers([b])
  {
    assert [b][1..] == [];
  }

  lemma WellFormedIs(t: Tree<string>)
    ensures Steps(t) <==> StepsGroups(t.children)
    ensures OneClaim(t) <==> OneClaimGroups(t.children)
  {
  }

  /** A wrapper of unordered effects stays in a race that then thins out; an outer wrapper hands it to an unordered group. */
  function MovedWrapper(): Tree<string> {
    Tree("root", [Group(false, true, "", [Handing(), Leaf("y")])])
  }

  function Handing(): Tree<string> {
    Tree("outer", [Group(true, false, "", [Held(), Leaf("gone")])])
  }

  function Held(): Tree<string> {
    Tree("held", [Group(false, true, "", [Leaf("a"), Leaf("b")])])
  }

  /** The other way it is not idempotent: the group it was handed to would flatten it. */
  lemma SecondPassFlattens()
    ensures var keep := (h: string) => h == "a" || h == "b" || h == "y";
            var op := (h: string) => h;
            && Steps(MovedWrapper()) && Steps(Contract(MovedWrapper(), keep, op))
            && Contract(Contract(MovedWrapper(), keep, op), keep, op) != Contract(MovedWrapper(), keep, op)
  {
    var keep, op := (h: string) => h == "a" || h == "b" || h == "y", (h: string) => h;
    WellFormedRoot(Held(), Leaf("a"), Leaf("b"));
    WellFormedRoot(Handing(), Held(), Leaf("gone"));
    WellFormedRoot(MovedWrapper(), Handing(), Leaf("y"));
    var held, handed := Contract(Held(), keep, op), Contract(Handing(), keep, op);
    HeldContracts(keep, op);
    HandingContracts(keep, op);
    PairContracts(Handing(), Leaf("y"), keep, op);
    TwoSurvivors(handed, Contract(Leaf("y"), keep, op), keep, GroupUnordered);
    hide Contract, ContractMembers, AllSurvivors, Steps, OneClaim, SettledMembers;
    SecondPassIff(MovedWrapper(), keep, op);
  }

  lemma HeldContracts(keep: string -> bool, op: string -> string)
    requires keep("a") && keep("b") && !keep("held") && Steps(Held())
    ensures var c := Contract(Held(), keep, op);
            c.head == "held" && |c.children| == 1 && c.children[0].unordered && !c.children[0].concurrent && c.children[0].multiplicity == ""
  {
    hide StableSort;
    var g := Held().children[0];
    assert Held().children[1..] == [] && StepsGroups(Held().children);
    PairContracts(Leaf("a"), Leaf("b"), keep, op);
    TwoSurvivors(Leaf("a"), Leaf("b"), keep, GroupUnordered);
    assert ContractGroups(Held().children, keep, op) == Slot(g, keep, op) + [];
  }

  lemma HandingContracts(keep: string -> bool, op: string -> string)
    requires keep("a") && keep("b") && !keep("held") && !keep("gone") && Steps(Held()) && Steps(Handing())
    ensures Contract(Handing(), keep, op).children == [Plain(Contract(Held(), keep, op))]
  {
    var g := Handing().children[0];
    var held := Contract(Held(), keep, op);
    assert Handing().children[1..] == [] && StepsGroups(Handing().children);
    HeldContracts(keep, op);
    PairContracts(Held(), Leaf("gone"), keep, op);
    hide Contract;
    assert Contract(Leaf("gone"), keep, op) == Leaf("gone") by { LeafContracts("gone", keep, op); }
    TwoSurvivors(held, Leaf("gone"), keep, GroupConcurrent);
    assert Survivors(held, keep, GroupConcurrent) == [held];
    HandingSlot(g, held, keep, op);
    ContractIs(Handing(), keep, op);
    assert ContractGroups(Handing().children, keep, op) == Slot(g.(members := ContractMembers(g.members, keep, op)), keep, op) + [];
  }

  lemma HandingSlot(g: Group<string>, held: Tree<string>, keep: string -> bool, op: string -> string)
    requires g.concurrent && g.multiplicity == ""
    requires AllSurvivors([held, Leaf("gone")], keep, GroupConcurrent) == [held]
    ensures Slot(g.(members := [held, Leaf("gone")]), keep, op) == [Plain(held)]
  {
    hide AllSurvivors;
  }

  lemma LeafContracts(h: string, keep: string -> bool, op: string -> string)
    ensures Contract(Leaf(h), keep, op) == Leaf(h)
  {
  }

  lemma ContractIs(t: Tree<string>, keep: string -> bool, op: string -> string)
    requires Steps(t)
    ensures StepsGroups(t.children) && Contract(t, keep, op).children == ContractGroups(t.children, keep, op)
  {
  }
}
