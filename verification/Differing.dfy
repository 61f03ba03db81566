/** The differ: the passes that accumulate changes, each proved against the change set it must add. */
module Differing {
  import opened Ir
  import opened Sorting
  import opened Lis
  import opened Matching
  import opened Diff

  /** The loop over the first map: its own keys that are missing or different in the second. */
  method KeysOfFirst(a: map<string, string>, b: map<string, string>) returns (keys: seq<string>)
    ensures Distinct(keys)
    ensures forall k :: k in keys <==> k in a && k in ChangedKeys(a, b)
  {
    keys := [];
    var pending := a.Keys;
    while pending != {}
      invariant pending <= a.Keys && Distinct(keys)
      invariant forall k :: k in keys <==> k in a && k !in pending && (k !in b || b[k] != a[k])
      decreases |pending|
    {
      var k :| k in pending;
      pending := pending - {k};
      if k !in b || b[k] != a[k] {
        keys := keys + [k];
      }
    }
  }

  /** `changedAttrKeys`: both maps are walked in whatever order, the keys are sorted at the end. */
  method ChangedAttrKeys(a: map<string, string>, b: map<string, string>) returns (keys: seq<string>)
    ensures keys == InOrder(ChangedKeys(a, b))
  {
    hide InOrder, ToSet;
    keys := KeysOfFirst(a, b);
    var pending := b.Keys;
    while pending != {}
      invariant pending <= b.Keys && Distinct(keys)
      invariant forall k :: k in keys <==> k in ChangedKeys(a, b) && (k in a || k !in pending)
      decreases |pending|
    {
      var k :| k in pending;
      pending := pending - {k};
      if k in a {
        continue;
      }
      keys := keys + [k];
    }
    SortedKeys(keys);
    SameMembers(keys, ChangedKeys(a, b));
    keys := StableSort(keys, StrLess);
  }

  lemma SameMembers(keys: seq<string>, s: set<string>)
    requires forall k :: k in keys <==> k in s
    ensures ToSet(keys) == s
  {
  }

  lemma FlattenStep(groups: seq<ChildGroup>, i: nat)
    requires i < |groups|
    ensures Flatten(groups[..i + 1]) == Flatten(groups[..i]) + SlotsOf(groups[i], |Flatten(groups[..i])|)
  {
    assert groups[..i + 1][..i] == groups[..i];
  }

  method FlattenLoop(groups: seq<ChildGroup>) returns (out: seq<Slot>)
    ensures out == Flatten(groups)
  {
    hide Flatten;
    out := [];
    var i := 0;
    NoSlots();
    assert groups[..0] == [];
    for gi := 0 to |groups|
      invariant out == Flatten(groups[..gi]) && i == |out|
    {
      FlattenStep(groups, gi);
      var g := groups[gi];
      ghost var before := out;
      for mi := 0 to |g.members|
        invariant i == |before| + mi
        invariant out == before + SlotsOf(g, |before|)[..mi]
      {
        out := out + [Slot(g.members[mi], OrderingOf(g), g.multiplicity, i)];
        i := i + 1;
      }
    }
    assert groups[..|groups|] == groups;
  }

  lemma NoSlots()
    ensures Flatten([]) == []
  {
  }

  method CollectSequential(was: seq<Slot>, now: seq<Slot>, pairs: Pairs) returns (moving: Pairs, order: seq<int>)
    requires forall k :: 0 <= k < |pairs| ==> pairs[k].0 < |was| && pairs[k].1 < |now|
    ensures moving == SequentialPairs(was, now, pairs) && order == Seconds(moving)
  {
    moving, order := [], [];
    for i := 0 to |pairs|
      invariant moving == SequentialPairs(was, now, pairs[..i]) && order == Seconds(moving)
    {
      assert pairs[..i + 1][..i] == pairs[..i];
      var p := pairs[i];
      if was[p.0].ordering != Sequential || now[p.1].ordering != Sequential {
        continue;
      }
      moving := moving + [p];
      order := order + [p.1];
    }
    assert pairs[..|pairs|] == pairs;
  }

  class Differ {
    var changes: seq<Change>

    constructor ()
      ensures changes == []
    {
      changes := [];
    }

    method Add(kind: ChangeType, priority: nat, op: string, aspect: Aspect)
      modifies this
      ensures changes == old(changes) + [Change(kind, priority, op, aspect)]
    {
      changes := changes + [Change(kind, priority, op, aspect)];
    }

    method AddWhen(c: bool, kind: ChangeType, priority: nat, op: string, aspect: Aspect)
      modifies this
      ensures changes == old(changes) + When(c, Change(kind, priority, op, aspect))
    {
      if c {
        Add(kind, priority, op, aspect);
      }
    }

    method CompareFields(was: Header, now: Header)
      modifies this
      ensures changes == old(changes) + FieldChanges(was, now)
    {
      hide When, Appended;
      var op := now.op;
      ghost var start, r := changes, When(was.op != now.op, Change(Changed, TIER1, op, Entry));
      AddWhen(was.op != now.op, Changed, TIER1, op, Entry);
      AddWhen(was.status != now.status, Changed, TIER1, op, Aspect.Status);
      r := Appended(start, r, When(was.status != now.status, Change(Changed, TIER1, op, Aspect.Status)));
      assert changes == start + r;
      AddWhen(was.errorType != now.errorType, Changed, TIER1, op, ErrorClass);
      r := Appended(start, r, When(was.errorType != now.errorType, Change(Changed, TIER1, op, ErrorClass)));
      assert changes == start + r;
      var p := LOWER;
      if now.tier == 1 && was.tier != 1 {
        p := TIER1;
      }
      AddWhen(was.tier != now.tier, Changed, p, op, TierOf);
      r := Appended(start, r, When(was.tier != now.tier, Change(Changed, p, op, TierOf)));
      assert changes == start + r;
      AddWhen(was.peer != now.peer, Changed, LOWER, op, PeerOf);
      r := Appended(start, r, When(was.peer != now.peer, Change(Changed, LOWER, op, PeerOf)));
      assert changes == start + r;
      AddWhen(was.kind != now.kind, Changed, LOWER, op, KindOf);
      r := Appended(start, r, When(was.kind != now.kind, Change(Changed, LOWER, op, KindOf)));
      assert changes == start + r;
      AddWhen(was.async != now.async, Changed, STRUCTURAL, op, AsyncEdge);
      r := Appended(start, r, When(was.async != now.async, Change(Changed, STRUCTURAL, op, AsyncEdge)));
      assert changes == start + r;
    }

    method CompareAttrs(was: Header, now: Header)
      modifies this
      ensures changes == old(changes) + AttrChanges(was, now)
    {
      hide FieldChanges, InOrder;
      CompareFields(was, now);
      ghost var before := changes;
      var keys := ChangedAttrKeys(was.attrs, now.attrs);
      for i := 0 to |keys|
        invariant changes == before + KeyChanges(now.op, keys)[..i]
      {
        Add(Changed, LOWER, now.op, Attribute(keys[i]));
      }
    }

    method ReportGone(slots: seq<Slot>, gone: seq<nat>, kind: ChangeType)
      requires forall k :: 0 <= k < |gone| ==> gone[k] < |slots|
      modifies this
      ensures changes == old(changes) + RemovedChanges(slots, gone, kind)
    {
      for i := 0 to |gone|
        invariant changes == old(changes) + RemovedChanges(slots, gone[..i], kind)
      {
        assert gone[..i + 1][..i] == gone[..i];
        var h := slots[gone[i]].span.head;
        Add(kind, NodePriority(h), h.op, Whole);
      }
      assert gone[..|gone|] == gone;
    }

    /** The reorder pass: the sequential pairs outside the kept subsequence. */
    method ReportMoved(was: seq<Slot>, now: seq<Slot>, pairs: Pairs)
      requires forall k :: 0 <= k < |pairs| ==> pairs[k].0 < |was| && pairs[k].1 < |now|
      modifies this
      ensures var moving := SequentialPairs(was, now, pairs);
              changes == old(changes) + MovedChanges(now, moving, ToSet(Kept(Seconds(moving))), |moving|)
    {
      hide Kept, SequentialPairs, MovedChanges, ToSet, Seconds;
      var moving, order := CollectSequential(was, now, pairs);
      var kept := LisKept(order);
      NoMoves(now, moving, kept);
      for k := 0 to |moving|
        invariant changes == old(changes) + MovedChanges(now, moving, kept, k)
      {
        MovedStep(now, moving, kept, k);
        AddWhen(k !in kept, Reordered, STRUCTURAL, OpOf(now[moving[k].1]), Whole);
      }
    }

    method ReportTags(was: Slot, now: Slot)
      modifies this
      ensures changes == old(changes) + TagChanges(was, now)
    {
      if was.ordering != now.ordering {
        Add(ConcurrencyChanged, STRUCTURAL, OpOf(now), Whole);
      }
      if was.multiplicity != now.multiplicity {
        Add(CardinalityChanged, STRUCTURAL, OpOf(now), Whole);
      }
    }

    /** Everything `diffChildren` reports before it looks at the matched pairs one by one. */
    method ReportOwn(was: seq<Slot>, now: seq<Slot>) returns (pairs: Pairs)
      modifies this
      ensures pairs == PairsOf(was, now)
      ensures changes == old(changes) + OwnChanges(was, now)
    {
      hide RemovedChanges, MovedChanges, SequentialPairs, UnmatchedUpTo, PairsUpTo, Kept, ToSet, Seconds;
      var added, removed;
      pairs, added, removed := MatchSlots(Ops(was), Ops(now));
      ReportGone(was, removed, Removed);
      ReportGone(now, added, Added);
      ReportMoved(was, now, pairs);
    }

    /** `diffChildren`. */
    method DiffChildren(was: CanonicalSpan, now: CanonicalSpan)
      modifies this
      ensures changes == old(changes) + OwnChanges(SlotsUnder(was), SlotsUnder(now)) + PairChanges(was, now, PairCount(was, now))
      decreases Size(was), 0
    {
      hide PairChanges, OwnChanges, PairsOf, PairCount, PairAt, SlotsUnder, Size, OnePair, TagChanges, NodeChanges;
      var oldSlots := FlattenLoop(was.children);
      var newSlots := FlattenLoop(now.children);
      assert oldSlots == SlotsUnder(was) && newSlots == SlotsUnder(now) by { SlotsAre(was); SlotsAre(now); }
      var pairs := ReportOwn(oldSlots, newSlots);
      ghost var before := changes;
      PairsAre(was, now);
      NoPairs(was, now);
      for k := 0 to |pairs|
        invariant changes == before + PairChanges(was, now, k)
      {
        assert PairAt(was, now, k) == pairs[k];
        var o, n := oldSlots[pairs[k].0], newSlots[pairs[k].1];
        SlotSmaller(was, pairs[k].0);
        PairStep(was, now, k, o, n);
        ReportTags(o, n);
        MatchedPair(o.span, n.span);
        assert before + PairChanges(was, now, k) + TagChanges(o, n) + NodeChanges(o.span, n.span)
            == before + (PairChanges(was, now, k) + (TagChanges(o, n) + NodeChanges(o.span, n.span)));
      }
    }

    /** `matchedPair`. */
    method MatchedPair(was: CanonicalSpan, now: CanonicalSpan)
      modifies this
      ensures changes == old(changes) + NodeChanges(was, now)
      decreases Size(was), 1
    {
      hide AttrChanges, OwnChanges, PairChanges;
      CompareAttrs(was.head, now.head);
      DiffChildren(was, now);
    }

    method Run(a: Trace, b: Trace)
      requires changes == []
      modifies this
      ensures changes == Changes(a, b)
    {
      hide NodeChanges;
      if a.schemaVersion != b.schemaVersion {
        Add(Changed, CONTRACT, "", Schema);
      }
      if a.flow != b.flow {
        Add(Changed, TIER1, "", Aspect.Flow);
      }
      if a.service != b.service {
        Add(Changed, TIER1, "", Aspect.Service);
      }
      match (a.root, b.root) {
        case (NoRoot, NoRoot) =>
        case (NoRoot, Rooted(r)) => Add(Added, NodePriority(r.head), r.head.op, Whole);
        case (Rooted(r), NoRoot) => Add(Removed, NodePriority(r.head), r.head.op, Whole);
        case (Rooted(r), Rooted(s)) => MatchedPair(r, s);
      }
      assert changes == RawChanges(a, b);
      changes := StableSort(changes, ByPriority());
    }
  }


  lemma SlotsAre(t: CanonicalSpan)
    ensures SlotsUnder(t) == Flatten(t.children)
  {
  }

  lemma PairsAre(was: CanonicalSpan, now: CanonicalSpan)
    ensures |PairsOf(SlotsUnder(was), SlotsUnder(now))| == PairCount(was, now)
    ensures forall k: nat :: k < PairCount(was, now) ==>
              PairAt(was, now, k) == PairsOf(SlotsUnder(was), SlotsUnder(now))[k]
  {
  }

  lemma NoPairs(was: CanonicalSpan, now: CanonicalSpan)
    ensures PairChanges(was, now, 0) == []
  {
  }

  lemma PairStep(was: CanonicalSpan, now: CanonicalSpan, k: nat, o: Slot, n: Slot)
    requires k < PairCount(was, now)
    requires o == SlotsUnder(was)[PairAt(was, now, k).0] && n == SlotsUnder(now)[PairAt(was, now, k).1]
    ensures PairChanges(was, now, k + 1) == PairChanges(was, now, k) + (TagChanges(o, n) + NodeChanges(o.span, n.span))
  {
    hide TagChanges, NodeChanges, PairAt, PairCount, SlotsUnder;
    SlotSmaller(was, PairAt(was, now, k).0);
  }

  lemma NoMoves(now: seq<Slot>, pairs: Pairs, kept: set<nat>)
    requires forall k :: 0 <= k < |pairs| ==> pairs[k].1 < |now|
    ensures MovedChanges(now, pairs, kept, 0) == []
  {
  }

  lemma MovedStep(now: seq<Slot>, pairs: Pairs, kept: set<nat>, n: nat)
    requires n < |pairs| && forall k :: 0 <= k < |pairs| ==> pairs[k].1 < |now|
    ensures MovedChanges(now, pairs, kept, n + 1) == MovedChanges(now, pairs, kept, n) +
              When(n !in kept, Change(Reordered, STRUCTURAL, OpOf(now[pairs[n].1]), Whole))
  {
  }

  /** Appending to the end of what follows `start`. */
  ghost function Appended(start: seq<Change>, r: seq<Change>, more: seq<Change>): (longer: seq<Change>)
    ensures longer == r + more && start + r + more == start + longer
  {
    assert start + r + more == start + (r + more);
    r + more
  }

  /** `Diff`, for two traces that are both there. */
  method DiffTraces(a: Trace, b: Trace) returns (changes: seq<Change>)
    ensures changes == Changes(a, b)
  {
    var d := new Differ();
    d.Run(a, b);
    changes := d.changes;
  }
}
