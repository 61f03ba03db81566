/**
 * Flow membership: the slug of a flow-tagged span travels down parent links to a fixpoint, and is
 * then written back onto the spans that lost it.
 */
module Slugs {
  import opened Sorting
  import opened ParentForest
  import opened Assembly
  import opened Stitch
  import C = Capture

  type Slugging = map<string, string>

  /** The tags the spans arrive with. */
  function TagsOf(spans: Spans): (tags: Slugging)
    ensures forall a :: a in tags ==> tags[a] != "" && a in IdsOf(spans)
  {
    if spans == [] then map[]
    else
      var n := |spans| - 1;
      var tags := TagsOf(spans[..n]);
      assert spans == spans[..n] + [spans[n]];
      if C.Attr(spans[n], FLOW_KEY) == "" then tags else tags[spans[n].id := C.Attr(spans[n], FLOW_KEY)]
  }

  /** The nearest tagged id at or above `a` is `k` links up and carries `slug`. */
  ghost predicate Inherits(up: Up, tags: Slugging, a: string, k: nat, slug: string)
    decreases k
  {
    if a in tags then k == 0 && slug == tags[a]
    else k > 0 && a in up && Inherits(up, tags, up[a], k - 1, slug)
  }

  /** `b`, `k` links up, carries the tag, and no id before it is tagged. */
  ghost predicate NearestAt(up: Up, tags: Slugging, a: string, k: nat, slug: string, b: string) {
    && NthUp(up, a, k, b) && b in tags && tags[b] == slug
    && forall j: nat, c :: j < k && NthUp(up, a, j, c) ==> c !in tags
  }

  /** Read off the links: `k` steps up there is a tag, and none before. */
  lemma {:induction false} NearestTag(up: Up, tags: Slugging, a: string, k: nat, slug: string)
    ensures Inherits(up, tags, a, k, slug) <==> exists b :: NearestAt(up, tags, a, k, slug, b)
    decreases k
  {
    hide NearestAt;
    if k == 0 || a in tags || a !in up {
      forall b ensures NearestAt(up, tags, a, k, slug, b) <==> k == 0 && b == a && a in tags && tags[a] == slug {
        NearestHere(up, tags, a, k, slug, b);
      }
      assert k == 0 && a in tags && tags[a] == slug ==> NearestAt(up, tags, a, k, slug, a);
    } else {
      NearestTag(up, tags, up[a], k - 1, slug);
      forall b ensures NearestAt(up, tags, a, k, slug, b) <==> NearestAt(up, tags, up[a], k - 1, slug, b) {
        NearestAbove(up, tags, a, k, slug, b);
      }
      var p, m := up[a], k - 1;
      if b :| NearestAt(up, tags, p, m, slug, b) {
        assert NearestAt(up, tags, a, k, slug, b);
      }
    }
  }

  lemma NearestHere(up: Up, tags: Slugging, a: string, k: nat, slug: string, b: string)
    requires k == 0 || a in tags || a !in up
    ensures NearestAt(up, tags, a, k, slug, b) <==> k == 0 && b == a && a in tags && tags[a] == slug
  {
    assert NthUp(up, a, 0, a);
  }

  lemma NearestAbove(up: Up, tags: Slugging, a: string, k: nat, slug: string, b: string)
    requires a in up && a !in tags && k > 0
    ensures NearestAt(up, tags, a, k, slug, b) <==> NearestAt(up, tags, up[a], k - 1, slug, b)
  {
    if NearestAt(up, tags, a, k, slug, b) {
      forall j: nat, c | j < k - 1 && NthUp(up, up[a], j, c) ensures c !in tags {
        assert NthUp(up, a, j + 1, c);
      }
    }
    if NearestAt(up, tags, up[a], k - 1, slug, b) {
      forall j: nat, c | j < k && NthUp(up, a, j, c) ensures c !in tags {
        if j > 0 { assert NthUp(up, up[a], j - 1, c); }
      }
    }
  }

  lemma {:induction false} InheritsUnique(up: Up, tags: Slugging, a: string, k: nat, s: string, l: nat, t: string)
    requires Inherits(up, tags, a, k, s) && Inherits(up, tags, a, l, t)
    ensures k == l && s == t
    decreases k
  {
    if a !in tags { InheritsUnique(up, tags, up[a], k - 1, s, l - 1, t); }
  }

  ghost predicate HasSlug(up: Up, tags: Slugging, a: string, slug: string) {
    exists k: nat :: Inherits(up, tags, a, k, slug)
  }

  /** The flow a span belongs to: the tag of its nearest tagged ancestor or self, or "". */
  ghost function FlowOf(spans: Spans, a: string): string {
    if exists s :: HasSlug(ParentsOf(spans), TagsOf(spans), a, s)
    then var s :| HasSlug(ParentsOf(spans), TagsOf(spans), a, s); s
    else ""
  }

  lemma FlowIs(spans: Spans, a: string, slug: string)
    requires HasSlug(ParentsOf(spans), TagsOf(spans), a, slug)
    ensures FlowOf(spans, a) == slug
  {
    var up, tags := ParentsOf(spans), TagsOf(spans);
    var k: nat :| Inherits(up, tags, a, k, slug);
    var l: nat :| Inherits(up, tags, a, l, FlowOf(spans, a));
    InheritsUnique(up, tags, a, k, slug, l, FlowOf(spans, a));
  }

  /** An untagged chain, closed into a cycle or not, belongs to no flow. */
  lemma UntaggedStaysEmpty(spans: Spans, a: string)
    requires forall b :: b in TagsOf(spans) ==> !Above(ParentsOf(spans), a, b)
    ensures FlowOf(spans, a) == ""
  {
    var up, tags := ParentsOf(spans), TagsOf(spans);
    forall s, k: nat ensures !Inherits(up, tags, a, k, s) {
      NearestTag(up, tags, a, k, s);
      assert forall b :: NthUp(up, a, k, b) ==> Above(up, a, b);
    }
  }

  // ---- the fixpoint loop ----

  /** What every round keeps: known ids only, original tags in place, nothing but inherited slugs. */
  ghost predicate Sound(spans: Spans, slug: Slugging) {
    && (forall a :: a in slug ==> a in IdsOf(spans))
    && (forall a :: a in TagsOf(spans) ==> a in slug)
    && (forall a :: a in slug ==> slug[a] != "")
  }

  ghost predicate Inherited(spans: Spans, slug: Slugging) {
    forall a :: a in slug ==> HasSlug(ParentsOf(spans), TagsOf(spans), a, slug[a])
  }

  /** Distinct, non-empty ids: what makes a span's parent a function of its id. */
  ghost predicate Keyed(spans: Spans) {
    DistinctIds(spans) && forall i :: 0 <= i < |spans| ==> spans[i].id != ""
  }

  lemma ParentAt(spans: Spans, i: nat)
    requires Keyed(spans) && i < |spans|
    ensures spans[i].id in ParentsOf(spans) && ParentsOf(spans)[spans[i].id] == spans[i].parentId
  {
    LastParent(spans, i);
  }

  lemma TakesOver(spans: Spans, slug: Slugging, i: nat)
    requires Keyed(spans) && i < |spans| && Sound(spans, slug) && Inherited(spans, slug)
    requires spans[i].id !in slug && spans[i].parentId in slug
    ensures Inherited(spans, slug[spans[i].id := slug[spans[i].parentId]])
  {
    hide ParentsOf, TagsOf;
    ParentAt(spans, i);
    var up, tags, a := ParentsOf(spans), TagsOf(spans), spans[i].id;
    var s := slug[spans[i].parentId];
    var k: nat :| Inherits(up, tags, up[a], k, s);
    assert Inherits(up, tags, a, k + 1, s);
  }

  /** A round that changes nothing has closed the slugs under inheritance. */
  ghost predicate Closed(spans: Spans, slug: Slugging) {
    forall i :: 0 <= i < |spans| ==> spans[i].id in slug || spans[i].parentId !in slug
  }

  lemma {:induction false} ClosedInherits(spans: Spans, slug: Slugging, i: nat, k: nat, s: string)
    requires Keyed(spans) && Sound(spans, slug) && Closed(spans, slug)
    requires i < |spans| && Inherits(ParentsOf(spans), TagsOf(spans), spans[i].id, k, s)
    ensures spans[i].id in slug
    decreases k
  {
    hide ParentsOf, TagsOf;
    if k > 0 {
      ParentAt(spans, i);
      var p := spans[i].parentId;
      if p in TagsOf(spans) {
        assert p in slug;
      } else {
        KeyKnown(spans, p);
        var j :| 0 <= j < |spans| && spans[j].id == p;
        ClosedInherits(spans, slug, j, k - 1, s);
      }
    }
  }

  lemma {:induction false} KeyKnown(spans: Spans, a: string)
    ensures a in ParentsOf(spans) ==> exists j :: 0 <= j < |spans| && spans[j].id == a
  {
    if forall j :: 0 <= j < |spans| ==> spans[j].id != a {
      NoParent(spans, a);
    }
  }

  function Look(slug: Slugging, a: string): string {
    if a in slug then slug[a] else ""
  }

  lemma Settled(spans: Spans, slug: Slugging)
    requires Keyed(spans) && Sound(spans, slug) && Inherited(spans, slug) && Closed(spans, slug)
    ensures forall i :: 0 <= i < |spans| ==> Look(slug, spans[i].id) == FlowOf(spans, spans[i].id)
  {
    hide ParentsOf, TagsOf, Inherits;
    forall i | 0 <= i < |spans| ensures Look(slug, spans[i].id) == FlowOf(spans, spans[i].id) {
      var a := spans[i].id;
      if a in slug {
        FlowIs(spans, a, slug[a]);
      } else {
        forall s, k: nat ensures !Inherits(ParentsOf(spans), TagsOf(spans), a, k, s) {
          if Inherits(ParentsOf(spans), TagsOf(spans), a, k, s) {
            ClosedInherits(spans, slug, i, k, s);
          }
        }
      }
    }
  }

  lemma TagsStep(spans: Spans, i: nat)
    requires i < |spans|
    ensures TagsOf(spans[..i + 1]) ==
            if C.Attr(spans[i], FLOW_KEY) == "" then TagsOf(spans[..i])
            else TagsOf(spans[..i])[spans[i].id := C.Attr(spans[i], FLOW_KEY)]
  {
    assert spans[..i + 1][..i] == spans[..i];
  }

  lemma TagsInherited(spans: Spans)
    ensures Inherited(spans, TagsOf(spans))
  {
    forall a | a in TagsOf(spans) ensures HasSlug(ParentsOf(spans), TagsOf(spans), a, TagsOf(spans)[a]) {
      assert Inherits(ParentsOf(spans), TagsOf(spans), a, 0, TagsOf(spans)[a]);
    }
  }

  /**
   * The propagation loop. It ends on every input, and on distinct ids it gives each span the slug of
   * its nearest tagged ancestor, whatever order the spans come in.
   */
  method Propagate(out: array<C.Span>) returns (slug: Slugging)
    ensures Sound(out[..], slug)
    ensures Keyed(out[..]) ==>
              forall i :: 0 <= i < out.Length ==> Look(slug, out[i].id) == FlowOf(out[..], out[i].id)
  {
    hide ParentsOf, TagsOf, Inherits, FlowOf;
    ghost var spans := out[..];
    slug := CollectTags(out);
    TagsInherited(spans);
    var changed := true;
    while changed
      invariant Sound(spans, slug)
      invariant Keyed(spans) ==> Inherited(spans, slug)
      invariant !changed ==> Closed(spans, slug)
      decreases |IdsOf(spans) - slug.Keys|, changed
    {
      ghost var before := slug;
      slug, changed := PropagateOnce(out, slug);
      if changed {
        Shrinks(IdsOf(spans), before.Keys, slug.Keys);
      }
    }
    if Keyed(spans) {
      Settled(spans, slug);
    }
  }

  lemma Shrinks(ids: set<string>, before: set<string>, after: set<string>)
    requires before < after && after <= ids
    ensures |ids - after| < |ids - before|
  {
    SubsetCardinality(ids - after, ids - before);
    var x :| x in after && x !in before;
    assert x in ids - before && x !in ids - after;
  }

  method CollectTags(out: array<C.Span>) returns (slug: Slugging)
    ensures slug == TagsOf(out[..])
  {
    ghost var spans := out[..];
    slug := map[];
    for i := 0 to out.Length
      invariant slug == TagsOf(spans[..i])
    {
      TagsStep(spans, i);
      var s := C.Attr(out[i], FLOW_KEY);
      if s != "" {
        slug := slug[out[i].id := s];
      }
    }
    assert spans[..out.Length] == spans;
  }

  /** One sweep over the spans. */
  method PropagateOnce(out: array<C.Span>, before: Slugging) returns (slug: Slugging, changed: bool)
    requires Sound(out[..], before)
    ensures Sound(out[..], slug)
    ensures Keyed(out[..]) && Inherited(out[..], before) ==> Inherited(out[..], slug)
    ensures changed ==> before.Keys < slug.Keys
    ensures !changed ==> slug == before && Closed(out[..], slug)
  {
    hide ParentsOf, TagsOf, Inherited;
    ghost var spans := out[..];
    slug, changed := before, false;
    for i := 0 to out.Length
      invariant Sound(spans, slug)
      invariant Keyed(spans) && Inherited(spans, before) ==> Inherited(spans, slug)
      invariant changed ==> before.Keys < slug.Keys
      invariant !changed ==> slug == before
      invariant !changed ==> forall j :: 0 <= j < i ==> spans[j].id in slug || spans[j].parentId !in slug
    {
      if out[i].id !in slug {
        if out[i].parentId in slug {
          if Keyed(spans) && Inherited(spans, before) {
            TakesOver(spans, slug, i);
          }
          assert spans[i] in spans;
          slug := slug[out[i].id := slug[out[i].parentId]];
          changed := true;
        }
      }
    }
  }

  // ---- writing the slugs back ----

  /** Copy-on-write of the attributes: a span that already names a flow keeps it. */
  function Retag(s: C.Span, slug: string): C.Span {
    if slug == "" || C.Attr(s, FLOW_KEY) != "" then s else s.(attrs := s.attrs[FLOW_KEY := slug])
  }

  method WriteBack(out: array<C.Span>, slug: Slugging)
    modifies out
    ensures forall i :: 0 <= i < out.Length ==> out[i] == Retag(old(out[i]), Look(slug, old(out[i].id)))
  {
    for i := 0 to out.Length
      invariant forall j :: 0 <= j < i ==> out[j] == Retag(old(out[j]), Look(slug, old(out[j].id)))
      invariant forall j :: i <= j < out.Length ==> out[j] == old(out[j])
    {
      out[i] := Retag(out[i], Look(slug, out[i].id));
    }
  }

  // ---- stitch ----

  /** The index built while the ids are rewritten. */
  method RekeyAll(out: array<C.Span>) returns (wasRoot: seq<bool>, byId: map<string, nat>)
    modifies out
    ensures out[..] == Rekeyed(old(out[..]))
    ensures |wasRoot| == out.Length && forall i :: 0 <= i < out.Length ==> (wasRoot[i] <==> out[i].parentId == "")
    ensures Indexed(out[..], byId)
  {
    wasRoot, byId := [], map[];
    for i := 0 to out.Length
      invariant forall j :: 0 <= j < i ==> out[j] == Rekey(old(out[j]))
      invariant forall j :: i <= j < out.Length ==> out[j] == old(out[j])
      invariant |wasRoot| == i && forall j :: 0 <= j < i ==> (wasRoot[j] <==> out[j].parentId == "")
      invariant Indexed(out[..i], byId)
    {
      wasRoot := wasRoot + [out[i].parentId == ""];
      out[i] := Rekey(out[i]);
      byId := byId[out[i].id := i];
      assert out[..i + 1] == out[..i] + [out[i]];
    }
    assert out[..out.Length] == out[..];
    assert out[..] == Rekeyed(old(out[..]));
  }

  /** The link pass, in place: each original root is reparented against the parents chosen so far. */
  method LinkRoots(out: array<C.Span>, wasRoot: seq<bool>, byId: map<string, nat>)
    requires |wasRoot| == out.Length && forall i :: 0 <= i < out.Length ==> (wasRoot[i] <==> out[i].parentId == "")
    requires Indexed(out[..], byId)
    modifies out
    ensures out[..] == Linked(old(out[..]), out.Length)
  {
    hide Choice;
    ghost var spans := out[..];
    for i := 0 to out.Length
      invariant out[..] == Linked(spans, i)
      invariant Indexed(out[..], byId)
    {
      assert out[i] == out[..][i] == spans[i];
      if wasRoot[i] {
        var fallback := ChooseLink(byId, out, out[i]);
        if fallback != "" {
          ghost var before := out[..];
          out[i] := out[i].(parentId := fallback, asyncLink := true);
          assert out[..] == before[i := Adopt(spans[i], fallback)];
        }
      }
      assert out[..] == Linked(spans, i + 1);
    }
  }

  /** What stitching promises of its result, span by span. */
  ghost predicate Stitched(spans: Spans, out: Spans) {
    var linked := Linked(Rekeyed(spans), |spans|);
    && |out| == |spans|
    && (forall i :: 0 <= i < |spans| ==> out[i] == Retag(linked[i], C.Attr(out[i], FLOW_KEY)))
    && (Keyed(Rekeyed(spans)) ==>
          forall i :: 0 <= i < |spans| ==> C.Attr(out[i], FLOW_KEY) == FlowOf(linked, linked[i].id))
  }

  method StitchAll(spans: Spans) returns (out: array<C.Span>)
    ensures fresh(out)
    ensures Stitched(spans, out[..])
  {
    hide Linked, FlowOf, TagsOf, ParentsOf, Rekey, Stitched, Keyed, Retag, Look, Sound, Indexed;
    out := new C.Span[|spans|](i requires 0 <= i < |spans| => spans[i]);
    assert out[..] == spans;
    var wasRoot, byId := RekeyAll(out);
    LinkRoots(out, wasRoot, byId);
    ghost var linked := out[..];
    var slug := Propagate(out);
    WriteBack(out, slug);
    StitchedAfter(spans, linked, out[..], slug);
  }

  /** What the passes leave is the stitched span set. */
  lemma StitchedAfter(spans: Spans, linked: Spans, out: Spans, slug: Slugging)
    requires linked == Linked(Rekeyed(spans), |spans|) && |out| == |linked| == |spans|
    requires forall i :: 0 <= i < |out| ==> out[i] == Retag(linked[i], Look(slug, linked[i].id))
    requires Keyed(linked) ==> forall i :: 0 <= i < |linked| ==> Look(slug, linked[i].id) == FlowOf(linked, linked[i].id)
    ensures Stitched(spans, out)
  {
    hide Linked, FlowOf, Rekey, Keyed, Look, Retag, C.Attr;
    forall i | 0 <= i < |out| ensures out[i] == Retag(linked[i], C.Attr(out[i], FLOW_KEY)) {
      RetagShows(linked[i], Look(slug, linked[i].id));
    }
    if Keyed(Rekeyed(spans)) {
      KeyedLinked(Rekeyed(spans));
      TagsWritten(linked, out, slug);
    }
  }

  /** A span shows the slug it was given, or the one it had. */
  lemma RetagShows(s: C.Span, slug: string)
    ensures Retag(s, slug) == Retag(s, C.Attr(Retag(s, slug), FLOW_KEY))
  {
  }

  lemma TagsWritten(linked: Spans, out: Spans, slug: Slugging)
    requires Keyed(linked) && |out| == |linked|
    requires forall i :: 0 <= i < |out| ==> out[i] == Retag(linked[i], Look(slug, linked[i].id))
    requires forall i :: 0 <= i < |out| ==> Look(slug, linked[i].id) == FlowOf(linked, linked[i].id)
    ensures forall i :: 0 <= i < |out| ==> C.Attr(out[i], FLOW_KEY) == FlowOf(linked, linked[i].id)
  {
    hide FlowOf, Keyed, Look;
    forall i | 0 <= i < |out| ensures C.Attr(out[i], FLOW_KEY) == FlowOf(linked, linked[i].id) {
      if C.Attr(linked[i], FLOW_KEY) != "" { OwnTag(linked, i); }
    }
  }

  lemma KeyedLinked(spans: Spans)
    requires Keyed(spans)
    ensures Keyed(Linked(spans, |spans|))
  {
    hide Linked;
    StitchKeepsSpans(spans, |spans|);
  }

  lemma {:induction false} LastTag(spans: Spans, i: nat)
    requires LastOfId(spans, i) && C.Attr(spans[i], FLOW_KEY) != ""
    ensures spans[i].id in TagsOf(spans) && TagsOf(spans)[spans[i].id] == C.Attr(spans[i], FLOW_KEY)
  {
    hide TagsOf;
    var n := |spans| - 1;
    TagsStep(spans, n);
    assert spans[..n + 1] == spans;
    if i < n {
      LastEarlier(spans, i);
      LastTag(spans[..n], i);
    }
  }

  /** A tagged span is its own nearest tag. */
  lemma OwnTag(spans: Spans, i: nat)
    requires Keyed(spans) && i < |spans| && C.Attr(spans[i], FLOW_KEY) != ""
    ensures FlowOf(spans, spans[i].id) == C.Attr(spans[i], FLOW_KEY)
  {
    hide FlowOf;
    LastTag(spans, i);
    assert Inherits(ParentsOf(spans), TagsOf(spans), spans[i].id, 0, C.Attr(spans[i], FLOW_KEY));
    FlowIs(spans, spans[i].id, C.Attr(spans[i], FLOW_KEY));
  }
}
