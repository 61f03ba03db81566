/**
 * Ingest, read on the spans as they were captured: parent links within a trace survive the rewriting of ids,
 * a flow tag travels down them, and the span lands in a fragment of that flow.
 */
module TraceLinks {
  import opened Ir
  import opened Sorting
  import opened ParentForest
  import opened Assembly
  import opened Stitch
  import opened Slugs
  import opened Fragments
  import C = Capture

  /** Span `i` was captured as a child of span `j`, in one trace. */
  predicate ChildOf(spans: Spans, i: nat, j: nat) {
    && i < |spans| && j < |spans|
    && spans[i].traceId == spans[j].traceId && spans[i].parentId == spans[j].id && spans[j].id != ""
  }

  predicate PlainTrace(traceId: string) {
    traceId != "" && '|' !in traceId
  }

  /** Every span names its trace, in a way the joint key can be read back. */
  ghost predicate Traced(spans: Spans) {
    forall i :: 0 <= i < |spans| ==> PlainTrace(spans[i].traceId)
  }

  /** No two spans of one trace share an id. */
  ghost predicate Unrepeated(spans: Spans) {
    forall i, j :: 0 <= i < j < |spans| ==> spans[i].traceId != spans[j].traceId || spans[i].id != spans[j].id
  }

  // ---- ids and parents ----

  /** The ids of a traced capture, written out. */
  lemma StitchedIds(spans: Spans, out: Spans)
    requires Stitched(spans, out) && Traced(spans)
    ensures forall i :: 0 <= i < |spans| ==> out[i].id == spans[i].traceId + ("|" + spans[i].id)
  {
    hide Linked, FlowOf, Keyed;
    StitchKeepsSpans(Rekeyed(spans), |spans|);
    forall i | 0 <= i < |spans| ensures out[i].id == spans[i].traceId + ("|" + spans[i].id) {
      assert PlainTrace(spans[i].traceId);
      assert spans[i].traceId + "|" + spans[i].id == spans[i].traceId + ("|" + spans[i].id);
    }
  }

  /** A parent that was captured in the same trace is still the parent. */
  lemma ParentsSurvive(spans: Spans, out: Spans, i: nat, j: nat)
    requires Stitched(spans, out) && ChildOf(spans, i, j)
    ensures out[i].parentId == out[j].id != "" && out[i].asyncLink == spans[i].asyncLink
  {
    hide Linked, FlowOf, Keyed;
    StitchKeepsSpans(Rekeyed(spans), |spans|);
  }

  /** And on traced input nothing else becomes the parent of a span that had one. */
  lemma ParentsIff(spans: Spans, out: Spans, i: nat, j: nat)
    requires Stitched(spans, out) && Traced(spans) && i < |spans| && j < |spans| && spans[i].parentId != ""
    ensures out[i].parentId == out[j].id <==> ChildOf(spans, i, j)
  {
    hide Linked, FlowOf, Keyed;
    StitchKeepsSpans(Rekeyed(spans), |spans|);
    var s, t := spans[i], spans[j];
    assert PlainTrace(s.traceId) && PlainTrace(t.traceId);
    if GlobalKey(s.traceId, s.parentId) == GlobalKey(t.traceId, t.id) {
      GlobalKeyInjective(s.traceId, t.traceId, s.parentId, t.id);
    }
  }

  /** Unrepeated ids within traces are distinct keys. */
  lemma TracedKeyed(spans: Spans)
    requires Traced(spans) && Unrepeated(spans)
    ensures Keyed(Rekeyed(spans))
  {
    var keyed := Rekeyed(spans);
    forall i | 0 <= i < |keyed| ensures keyed[i].id != "" { assert PlainTrace(spans[i].traceId); }
    forall i, j | 0 <= i < j < |keyed| ensures keyed[i].id != keyed[j].id {
      assert PlainTrace(spans[i].traceId) && PlainTrace(spans[j].traceId);
      if keyed[i].id == keyed[j].id {
        GlobalKeyInjective(spans[i].traceId, spans[j].traceId, spans[i].id, spans[j].id);
      }
    }
  }

  // ---- what is left alone ----

  /** The parts of a span that ingest never touches. */
  ghost predicate SameOperation(before: C.Span, after: C.Span) {
    && after.traceId == before.traceId && after.name == before.name && after.kind == before.kind
    && after.status == before.status && after.errorType == before.errorType
    && after.start == before.start && after.end == before.end
    && after.links == before.links && after.goroutine == before.goroutine
  }

  /** Of the attributes only the flow tag may be added, and only where the span names no flow. */
  ghost predicate SameAttributes(before: C.Span, after: C.Span) {
    && (forall k :: k != FLOW_KEY ==> (k in after.attrs <==> k in before.attrs))
    && (forall k :: k != FLOW_KEY && k in before.attrs ==> after.attrs[k] == before.attrs[k])
    && (FLOW_KEY in before.attrs && before.attrs[FLOW_KEY] != "" ==>
          FLOW_KEY in after.attrs && after.attrs[FLOW_KEY] == before.attrs[FLOW_KEY])
  }

  lemma StitchKeepsContent(spans: Spans, out: Spans)
    requires Stitched(spans, out)
    ensures |out| == |spans|
    ensures forall i :: 0 <= i < |spans| ==> SameOperation(spans[i], out[i]) && SameAttributes(spans[i], out[i])
  {
    hide Linked, FlowOf, Keyed;
    StitchKeepsSpans(Rekeyed(spans), |spans|);
  }

  // ---- the flow of a span ----

  predicate TaggedWith(s: C.Span, flow: string) {
    "flowmap.flow" in s.attrs && s.attrs["flowmap.flow"] == flow && flow != ""
  }

  predicate Untagged(s: C.Span) {
    "flowmap.flow" in s.attrs ==> s.attrs["flowmap.flow"] == ""
  }

  /** Captured parent links from the first position to the last, only the last of which is tagged. */
  predicate ChainUp(spans: Spans, path: seq<nat>) {
    && path != [] && (forall k :: 0 <= k < |path| ==> path[k] < |spans|)
    && (forall k :: 0 <= k < |path| - 1 ==> ChildOf(spans, path[k], path[k + 1]) && Untagged(spans[path[k]]))
  }

  /** The span names the flow of its nearest tagged captured ancestor or self. */
  lemma FlowTravelsDown(spans: Spans, out: Spans, path: seq<nat>, flow: string)
    requires Stitched(spans, out) && Traced(spans) && Unrepeated(spans)
    requires ChainUp(spans, path) && TaggedWith(spans[path[|path| - 1]], flow)
    ensures TaggedWith(out[path[0]], flow)
  {
    hide Linked, FlowOf, ParentsOf, TagsOf, Inherits;
    var keyed := Rekeyed(spans);
    var linked := Linked(keyed, |spans|);
    TracedKeyed(spans);
    StitchKeepsSpans(keyed, |spans|);
    KeyedLinked(keyed);
    ChainInherits(spans, linked, path, flow);
    FlowIs(linked, linked[path[0]].id, flow);
    assert C.Attr(out[path[0]], FLOW_KEY) == flow;
  }

  lemma {:induction false} ChainInherits(spans: Spans, linked: Spans, path: seq<nat>, flow: string)
    requires linked == Linked(Rekeyed(spans), |spans|) && Keyed(linked) && Traced(spans)
    requires ChainUp(spans, path) && TaggedWith(spans[path[|path| - 1]], flow)
    ensures Inherits(ParentsOf(linked), TagsOf(linked), linked[path[0]].id, |path| - 1, flow)
    decreases |path|
  {
    hide Linked, ParentsOf, TagsOf;
    StitchKeepsSpans(Rekeyed(spans), |spans|);
    var i := path[0];
    if |path| == 1 {
      LastTag(linked, i);
    } else {
      var rest := path[1..];
      assert forall k :: 0 <= k < |rest| ==> rest[k] == path[k + 1];
      assert ChildOf(spans, path[0], path[1]) && Untagged(spans[path[0]]);
      ChainInherits(spans, linked, rest, flow);
      ParentAt(linked, i);
      NoTag(linked, i);
      assert linked[i].parentId == linked[path[1]].id;
    }
  }

  /** On distinct ids an untagged span leaves no tag under its id. */
  lemma {:induction false} NoTag(spans: Spans, i: nat)
    requires DistinctIds(spans) && i < |spans| && C.Attr(spans[i], FLOW_KEY) == ""
    ensures spans[i].id !in TagsOf(spans)
  {
    hide TagsOf;
    var n := |spans| - 1;
    TagsStep(spans, n);
    assert spans[..n + 1] == spans;
    if i < n {
      NoTag(spans[..n], i);
    } else {
      forall s | s in spans[..n] ensures s.id != spans[n].id {
        var j :| 0 <= j < n && spans[j] == s;
      }
      assert spans[n].id !in IdsOf(spans[..n]);
    }
  }

  // ---- the fragment of a span ----

  predicate Serves(s: C.Span, service: string) {
    if "service.name" in s.attrs then s.attrs["service.name"] == service else service == ""
  }

  ghost predicate Holds(f: FlowCapture, id: string) {
    exists s :: s in f.rooted.spans && s.id == id
  }

  /** Per flow and service: the span is in the fragment of that flow and of its own service. */
  lemma LandsInFragment(spans: Spans, kindOf: C.Span -> Kind, flows: seq<FlowCapture>, path: seq<nat>, flow: string, service: string)
    requires Fragmented(spans, false, kindOf, flows) && Traced(spans) && Unrepeated(spans)
    requires ChainUp(spans, path) && TaggedWith(spans[path[|path| - 1]], flow) && Serves(spans[path[0]], service)
    ensures exists f :: f in flows && f.slug == flow && f.service == service
                        && Holds(f, spans[path[0]].traceId + ("|" + spans[path[0]].id))
  {
    hide Stitched, Reduced, RootOf, BucketOf, WellFormed, EachOneTree;
    var stitched: Spans, order: seq<FlowKey> :| Stitched(spans, stitched) && Reduced(stitched, false, kindOf, order, flows);
    var i := path[0];
    StitchKeepsContent(spans, stitched);
    StitchedIds(spans, stitched);
    FlowTravelsDown(spans, stitched, path, flow);
    assert SameAttributes(spans[i], stitched[i]);
    var k := Landed(stitched, false, kindOf, order, flows, i);
    assert flows[k] in flows;
  }

  /** Per flow: in the one fragment of the flow. */
  lemma LandsInFlow(spans: Spans, kindOf: C.Span -> Kind, flows: seq<FlowCapture>, path: seq<nat>, flow: string)
    requires Fragmented(spans, true, kindOf, flows) && Traced(spans) && Unrepeated(spans)
    requires ChainUp(spans, path) && TaggedWith(spans[path[|path| - 1]], flow)
    ensures exists f :: f in flows && f.slug == flow && Holds(f, spans[path[0]].traceId + ("|" + spans[path[0]].id))
  {
    hide Stitched, Reduced, RootOf, BucketOf, WellFormed, EachOneTree;
    var stitched: Spans, order: seq<FlowKey> :| Stitched(spans, stitched) && Reduced(stitched, true, kindOf, order, flows);
    StitchKeepsContent(spans, stitched);
    StitchedIds(spans, stitched);
    FlowTravelsDown(spans, stitched, path, flow);
    var k := Landed(stitched, true, kindOf, order, flows, path[0]);
    assert flows[k] in flows;
  }

  lemma Landed(stitched: Spans, whole: bool, kindOf: C.Span -> Kind, order: seq<FlowKey>, flows: seq<FlowCapture>, i: nat) returns (k: nat)
    requires Reduced(stitched, whole, kindOf, order, flows) && i < |stitched| && C.Attr(stitched[i], FLOW_KEY) != ""
    ensures k < |flows| && flows[k].slug == C.Attr(stitched[i], FLOW_KEY)
    ensures !whole ==> flows[k].service == C.Attr(stitched[i], SERVICE_KEY)
    ensures Holds(flows[k], stitched[i].id)
  {
    hide RootOf, BucketOf, Labelled;
    var key := BucketKey(stitched[i], whole);
    var b := BucketOf(stitched, key, whole);
    BucketFacts(stitched, key, whole);
    assert stitched[i] in b;
    assert key in order;
    k :| 0 <= k < |order| && order[k] == key;
    assert Fragment(stitched, whole, kindOf, order[k], flows[k]);
    RootedIds(NameOf(key, whole), kindOf, b);
    assert stitched[i].id in IdsOf(b);
  }

  /** Fragments are listed in byte order of flow, then service. */
  lemma FragmentsInOrder(spans: Spans, kindOf: C.Span -> Kind, flows: seq<FlowCapture>, m: nat, n: nat)
    requires Fragmented(spans, false, kindOf, flows) && m < n < |flows|
    ensures BytesBefore(flows[m].slug, flows[n].slug)
            || (flows[m].slug == flows[n].slug && BytesBefore(flows[m].service, flows[n].service))
  {
    hide Stitched, RootOf, BucketOf, WellFormed, EachOneTree, StrLess, BytesBefore;
    var stitched: Spans, order: seq<FlowKey> :| Stitched(spans, stitched) && Reduced(stitched, false, kindOf, order, flows);
    var a, b := order[m], order[n];
    assert a != b && !KeyLess(b, a);
    assert Fragment(stitched, false, kindOf, order[m], flows[m]) && Fragment(stitched, false, kindOf, order[n], flows[n]);
    StrLessIff(a.slug, b.slug);
    StrLessIff(a.service, b.service);
    if a.slug != b.slug { StrLessConnected(a.slug, b.slug); } else { StrLessConnected(a.service, b.service); }
  }

  // ---- links ----

  predicate Names(l: C.SpanLink, s: C.Span) {
    l.traceId == s.traceId && l.spanId == s.id
  }

  /** On plain trace names a link's key is the id of exactly the span it names. */
  lemma KeyNames(l: C.SpanLink, s: C.Span)
    requires PlainTrace(l.traceId) && PlainTrace(s.traceId)
    ensures KeyOf(l) == Rekey(s).id <==> Names(l, s)
  {
    if KeyOf(l) == Rekey(s).id { GlobalKeyInjective(l.traceId, s.traceId, l.spanId, s.id); }
  }

  /** Links as they are captured: with plain trace names. */
  ghost predicate TracedLinks(s: C.Span) {
    forall k :: 0 <= k < |s.links| ==> PlainTrace(s.links[k].traceId)
  }

  /** A captured root that gets a parent gets one its own links name, and is marked; another stays as it was. */
  lemma RootsFollowLinks(spans: Spans, out: Spans, i: nat)
    requires Stitched(spans, out) && Traced(spans) && i < |spans| && spans[i].parentId == "" && TracedLinks(spans[i])
    ensures if out[i].parentId == "" then out[i].asyncLink == spans[i].asyncLink
            else out[i].asyncLink && exists j, k :: 0 <= j < |spans| && 0 <= k < |spans[i].links|
                                      && Names(spans[i].links[k], spans[j]) && out[i].parentId == out[j].id
  {
    hide FlowOf, Keyed, Reaches, Linked, ParentsOf, Rekey;
    var keyed := Rekeyed(spans);
    StitchKeepsSpans(keyed, |spans|);
    RootIsRoot(spans[i]);
    if out[i].parentId != "" {
      var k := LinkedBy(keyed, |spans|, i);
      assert Rekey(spans[i]).links == spans[i].links by { SameLinksAfter(spans[i]); }
      var t :| t in keyed && t.id == KeyOf(spans[i].links[k]);
      var j :| 0 <= j < |keyed| && keyed[j] == t;
      KeyNames(spans[i].links[k], spans[j]);
    }
  }

  lemma RootIsRoot(s: C.Span)
    ensures Rekey(s).parentId == "" <==> s.parentId == "" || (s.traceId == "" && s.parentId == "")
    ensures Rekey(s).asyncLink == s.asyncLink
  {
  }

  lemma SameLinksAfter(s: C.Span)
    ensures Rekey(s).links == s.links
  {
  }

  /** The parent a root was given is the key of one of its links. */
  lemma {:induction false} LinkedBy(spans: Spans, n: nat, i: nat) returns (k: nat)
    requires i < |spans| && n <= |spans| && spans[i].parentId == "" && Linked(spans, n)[i].parentId != ""
    ensures k < |spans[i].links| && Linked(spans, n)[i].parentId == KeyOf(spans[i].links[k]) && KeyOf(spans[i].links[k]) in IdsOf(spans)
    decreases n
  {
    hide Choice, KeyOf, Kept, IdsOf;
    assert n > 0;
    var before := Linked(spans, n - 1);
    if i == n - 1 {
      assert before[i] == spans[i];
      k := ChoiceIsLink(before, spans[i]);
      OwnTurn(spans, i);
      SameIdsSoFar(spans, n - 1);
    } else {
      k := LinkedBy(spans, n - 1, i);
    }
  }

  lemma OwnTurn(spans: Spans, i: nat)
    requires i < |spans| && spans[i].parentId == "" && Linked(spans, i + 1)[i].parentId != ""
    ensures Choice(Linked(spans, i), spans[i]) == Linked(spans, i + 1)[i].parentId
    ensures Choice(Linked(spans, i), spans[i]) in IdsOf(Linked(spans, i))
  {
    hide Choice;
    ChoiceIsValid(Linked(spans, i), spans[i]);
  }

  lemma SameIdsSoFar(spans: Spans, n: nat)
    requires n <= |spans|
    ensures IdsOf(Linked(spans, n)) == IdsOf(spans)
  {
    StitchKeepsSpans(spans, n);
  }

  lemma ChoiceIsLink(spans: Spans, s: C.Span) returns (k: nat)
    requires Choice(spans, s) != ""
    ensures k < |s.links| && Choice(spans, s) == KeyOf(s.links[k])
  {
    k := FirstWhere(s.links, l => Valid(spans, s.id, l) && Tagged(spans, l));
    if k == |s.links| { k := FirstWhere(s.links, l => Valid(spans, s.id, l) && KeyOf(l) != ""); }
  }

  // ---- which link ----

  /** The target is a span that is there, and going up its parents never comes to `self`. */
  ghost predicate Followable(spans: Spans, self: string, key: string) {
    && (exists i :: 0 <= i < |spans| && spans[i].id == key)
    && (self == "" || forall m: nat :: !NthUp(ParentsOf(spans), key, m, self))
  }

  /** The span that answers to a key is the last one captured under it; this one names a flow. */
  ghost predicate TargetTagged(spans: Spans, key: string) {
    exists i :: 0 <= i < |spans| && spans[i].id == key && !Untagged(spans[i]) && forall j :: i < j < |spans| ==> spans[j].id != key
  }

  /** The first link with a property is the one chosen. */
  ghost predicate FirstSuch(links: seq<C.SpanLink>, good: C.SpanLink -> bool, chosen: string) {
    exists k :: 0 <= k < |links| && good(links[k]) && chosen == KeyOf(links[k]) && forall m :: 0 <= m < k ==> !good(links[m])
  }

  ghost predicate NoneSuch(links: seq<C.SpanLink>, good: C.SpanLink -> bool) {
    forall k :: 0 <= k < |links| ==> !good(links[k])
  }

  /**
   * Of the links that may be followed, the first to a tagged span is chosen, else the first with a key, and none
   * where there is none.
   */
  lemma LinkChosen(spans: Spans, s: C.Span)
    ensures var tagged := (l: C.SpanLink) => Followable(spans, s.id, KeyOf(l)) && TargetTagged(spans, KeyOf(l));
            var any := (l: C.SpanLink) => Followable(spans, s.id, KeyOf(l)) && KeyOf(l) != "";
            && (NoneSuch(s.links, tagged) || FirstSuch(s.links, tagged, Choice(spans, s)))
            && (NoneSuch(s.links, tagged) ==> NoneSuch(s.links, any) || FirstSuch(s.links, any, Choice(spans, s)))
            && (NoneSuch(s.links, tagged) && NoneSuch(s.links, any) ==> Choice(spans, s) == "")
  {
    hide ParentsOf, KeyOf, Followable, TargetTagged, Valid, Tagged;
    var tagged := (l: C.SpanLink) => Followable(spans, s.id, KeyOf(l)) && TargetTagged(spans, KeyOf(l));
    var any := (l: C.SpanLink) => Followable(spans, s.id, KeyOf(l)) && KeyOf(l) != "";
    forall l: C.SpanLink ensures Valid(spans, s.id, l) <==> Followable(spans, s.id, KeyOf(l))
                         ensures Tagged(spans, l) <==> TargetTagged(spans, KeyOf(l)) {
      ValidIs(spans, s.id, l);
    }
    var best := FirstWhere(s.links, l => Valid(spans, s.id, l) && Tagged(spans, l));
    var first := FirstWhere(s.links, l => Valid(spans, s.id, l) && KeyOf(l) != "");
    if best < |s.links| {
      assert tagged(s.links[best]);
    } else if first < |s.links| {
      assert any(s.links[first]);
    }
  }

  lemma ValidIs(spans: Spans, self: string, l: C.SpanLink)
    ensures Valid(spans, self, l) <==> Followable(spans, self, KeyOf(l))
    ensures Tagged(spans, l) <==> TargetTagged(spans, KeyOf(l))
  {
    hide ParentsOf, KeyOf;
    assert KeyOf(l) in IdsOf(spans) <==> exists i :: 0 <= i < |spans| && spans[i].id == KeyOf(l) by { IdIsThere(spans, KeyOf(l)); }
  }

  lemma IdIsThere(spans: Spans, key: string)
    ensures key in IdsOf(spans) <==> exists i :: 0 <= i < |spans| && spans[i].id == key
  {
    if i :| 0 <= i < |spans| && spans[i].id == key { assert spans[i] in spans; }
  }

  // ---- the root of a fragment ----

  /** What starts a flow: an inbound request anywhere at the top makes it HTTP; only without one does a consumer make it an event. */
  lemma TriggerIs(name: string, kindOf: C.Span -> Kind, spans: Spans)
    ensures RootOf(name, kindOf, spans).trigger == Event <==>
              (exists s :: s in spans && Parentless(spans, s) && kindOf(s) == Consumer)
              && forall s :: s in spans && Parentless(spans, s) ==> kindOf(s) != Server
  {
    hide Parentless;
    var parentless := ParentlessAt(spans, |spans|);
    forall s | s in spans && Parentless(spans, s) ensures exists i :: i in parentless && spans[i] == s {
      var i :| 0 <= i < |spans| && spans[i] == s;
      assert i in parentless;
    }
    assert forall i :: i in parentless ==> spans[i] in spans;
    if |parentless| == 1 { assert forall i :: i in parentless ==> i == parentless[0]; }
  }

  /** A synthesized root is an internal operation named after the fragment, with nothing else to it. */
  lemma SynthesizedRootIs(name: string, kindOf: C.Span -> Kind, spans: Spans)
    ensures var r := RootOf(name, kindOf, spans);
            r.synthesized ==>
              var s := r.spans[|spans|];
              && |r.spans| == |spans| + 1 && r.root == |spans|
              && s.name == name && s.kind == Internal && s.attrs == map[] && s.links == [] && !s.asyncLink
              && s.parentId == "" && s.status == "" && s.errorType == "" && s.start == s.end == s.goroutine == 0
              && forall i :: 0 <= i < |spans| ==> r.spans[i].(parentId := spans[i].parentId) == spans[i]
  {
    hide ParentlessAt, Parentless;
  }

  /** A natural entry: the only span at the top is inbound; it is kept as the root, and otherwise one is made up. */
  lemma EntryIsKept(name: string, kindOf: C.Span -> Kind, spans: Spans)
    ensures var r := RootOf(name, kindOf, spans);
            !r.synthesized <==> exists i :: AloneOnTop(spans, i) && (kindOf(spans[i]) == Server || kindOf(spans[i]) == Consumer)
    ensures var r := RootOf(name, kindOf, spans); !r.synthesized ==> r.spans == spans && AloneOnTop(spans, r.root)
  {
    hide Parentless;
    var top := ParentlessAt(spans, |spans|);
    if |top| == 1 {
      assert top[0] in top && forall j :: j in top ==> j == top[0];
      assert AloneOnTop(spans, top[0]);
    }
    forall i | AloneOnTop(spans, i) ensures top == [i] { OnTopIs(spans, i); }
  }

  /** The one place in the list whose parent is outside. */
  ghost predicate AloneOnTop(spans: Spans, i: int) {
    0 <= i < |spans| && forall j :: 0 <= j < |spans| ==> (Parentless(spans, spans[j]) <==> j == i)
  }

  lemma OnTopIs(spans: Spans, i: int)
    requires AloneOnTop(spans, i)
    ensures ParentlessAt(spans, |spans|) == [i]
  {
    hide Parentless;
    var top := ParentlessAt(spans, |spans|);
    TopAscends(spans, |spans|);
    assert i in top;
    assert forall k :: 0 <= k < |top| ==> top[k] in top && top[k] == i;
    AtMostOne(top, i);
  }

  lemma {:induction false} TopAscends(spans: Spans, n: nat)
    requires n <= |spans|
    ensures forall k, l :: 0 <= k < l < |ParentlessAt(spans, n)| ==> ParentlessAt(spans, n)[k] < ParentlessAt(spans, n)[l]
  {
    hide Parentless;
    if n > 0 { TopAscends(spans, n - 1); }
  }

  lemma AtMostOne(top: seq<nat>, i: nat)
    requires forall k, l :: 0 <= k < l < |top| ==> top[k] < top[l]
    requires forall k :: 0 <= k < |top| ==> top[k] == i
    ensures |top| <= 1
  {
    DistinctSize(top);
    assert ToSet(top) <= {i};
    SubsetCardinality(ToSet(top), {i});
  }

  /** The made-up root is named after the service where fragments are per service, and after the flow where they are whole. */
  lemma RootNamedAfter(spans: Spans, whole: bool, kindOf: C.Span -> Kind, flows: seq<FlowCapture>, k: nat)
    requires Fragmented(spans, whole, kindOf, flows) && k < |flows| && flows[k].rooted.synthesized
    ensures flows[k].rooted.root < |flows[k].rooted.spans|
    ensures var r := flows[k].rooted.spans[flows[k].rooted.root];
            r.name == (if whole then flows[k].slug else flows[k].service) && r.id == "flowmap-root:" + r.name
  {
    hide Stitched, BucketOf, WellFormed, EachOneTree, Labelled, ParentlessAt, Parentless;
    var stitched: Spans, order: seq<FlowKey> :| Stitched(spans, stitched) && Reduced(stitched, whole, kindOf, order, flows);
    assert Fragment(stitched, whole, kindOf, order[k], flows[k]);
    var key := order[k];
    RootInside(NameOf(key, whole), kindOf, BucketOf(stitched, key, whole));
  }

  /** The services the spans name. */
  ghost function ServicesOf(spans: Spans): set<string> {
    set s | s in spans && !Serves(s, "") && SERVICE_KEY in s.attrs :: s.attrs[SERVICE_KEY]
  }

  /** A whole flow is labelled by its root's service, else by the one service its spans name, else by its own name. */
  lemma FlowLabel(spans: Spans, kindOf: C.Span -> Kind, flows: seq<FlowCapture>, k: nat)
    requires Fragmented(spans, true, kindOf, flows) && k < |flows|
    ensures flows[k].rooted.root < |flows[k].rooted.spans|
    ensures var f := flows[k];
            var root, services := f.rooted.spans[f.rooted.root], ServicesOf(f.rooted.spans);
            if !Serves(root, "") then Serves(root, f.service) else services == {f.service} || (|services| != 1 && f.service == f.slug)
  {
    hide Stitched, BucketOf, WellFormed, EachOneTree, RootOf, ServicesOf, Agreed;
    var stitched: Spans, order: seq<FlowKey> :| Stitched(spans, stitched) && Reduced(stitched, true, kindOf, order, flows);
    assert Fragment(stitched, true, kindOf, order[k], flows[k]);
    var f := flows[k];
    forall service ensures Agreed(f.rooted.spans, service) <==> ServicesOf(f.rooted.spans) == {service} { AgreedIs(f.rooted.spans, service); }
    if |ServicesOf(f.rooted.spans)| == 1 { OneService(ServicesOf(f.rooted.spans)); }
  }

  lemma OneService(services: set<string>)
    requires |services| == 1
    ensures exists x :: services == {x}
  {
    var x :| x in services;
    assert |services - {x}| == 0;
    assert services == {x};
  }

  lemma AgreedIs(spans: Spans, service: string)
    ensures Agreed(spans, service) <==> ServicesOf(spans) == {service}
  {
    var services := ServicesOf(spans);
    forall s | s in spans ensures C.Attr(s, SERVICE_KEY) != "" ==> C.Attr(s, SERVICE_KEY) in services {
    }
    if services == {service} {
      assert service in services;
      var s :| s in spans && !Serves(s, "") && SERVICE_KEY in s.attrs && s.attrs[SERVICE_KEY] == service;
      assert C.Attr(s, SERVICE_KEY) == service;
    }
  }
}
