/**
 * Grouping stitched spans into flow fragments, and giving each fragment one root: its single inbound
 * entry, or a synthesized span that owns every parentless one.
 */
module Fragments {
  import opened Ir
  import opened Sorting
  import opened ParentForest
  import opened Assembly
  import opened Stitch
  import opened Slugs
  import C = Capture

  const SERVICE_KEY := "service.name"
  const SYNTHETIC := "flowmap-root:"

  datatype Trigger = Http | Event

  /** A rooted span set; `root` is a position, where the source keeps a pointer. */
  datatype Rooted = Rooted(spans: Spans, root: nat, trigger: Trigger, synthesized: bool)

  // ---- one root per fragment ----

  predicate Parentless(spans: Spans, s: C.Span) {
    s.parentId !in IdsOf(spans)
  }

  /** Positions of the parentless spans, in order. */
  function ParentlessAt(spans: Spans, n: nat): (r: seq<nat>)
    requires n <= |spans|
    ensures forall i :: i in r <==> 0 <= i < n && Parentless(spans, spans[i])
    ensures forall k :: 0 <= k < |r| ==> r[k] < n && Parentless(spans, spans[r[k]])
  {
    if n == 0 then []
    else ParentlessAt(spans, n - 1) + if Parentless(spans, spans[n - 1]) then [n - 1] else []
  }

  function SyntheticRoot(name: string): C.Span {
    C.Span("", SYNTHETIC + name, "", name, Internal, map[], "", "", 0, 0, [], false, 0)
  }

  function Reowned(spans: Spans, name: string): (r: Spans)
    ensures |r| == |spans|
  {
    seq(|spans|, i requires 0 <= i < |spans| =>
      if Parentless(spans, spans[i]) then spans[i].(parentId := SYNTHETIC + name) else spans[i])
  }

  predicate IsEntryKind(k: Kind) {
    k == Server || k == Consumer
  }

  /** `kindOf` is the effective kind: a consume call seen as a client span counts as a consumer. */
  ghost function RootOf(name: string, kindOf: C.Span -> Kind, spans: Spans): Rooted {
    var parentless := ParentlessAt(spans, |spans|);
    if |parentless| == 1 && IsEntryKind(kindOf(spans[parentless[0]])) then
      Rooted(spans, parentless[0], if kindOf(spans[parentless[0]]) == Server then Http else Event, false)
    else
      var served := exists i :: i in parentless && kindOf(spans[i]) == Server;
      var consumed := exists i :: i in parentless && kindOf(spans[i]) == Consumer;
      Rooted(Reowned(spans, name) + [SyntheticRoot(name)], |spans|, if !served && consumed then Event else Http, true)
  }

  /** `assembleRoot`: parentless spans are re-parented in place when a root has to be synthesized. */
  method AssembleRoot(name: string, kindOf: C.Span -> Kind, spans: array<C.Span>) returns (r: Rooted)
    modifies spans
    ensures r == RootOf(name, kindOf, old(spans[..]))
  {
    hide ParentlessAt, Reowned;
    var parentless := FindParentless(spans);
    if |parentless| == 1 {
      var k := kindOf(spans[parentless[0]]);
      if k == Server {
        return Rooted(spans[..], parentless[0], Http, false);
      }
      if k == Consumer {
        return Rooted(spans[..], parentless[0], Event, false);
      }
    }
    var trigger := MixedTrigger(parentless, kindOf, spans);
    var syn := SyntheticRoot(name);
    Reown(parentless, spans, name);
    r := Rooted(spans[..] + [syn], spans.Length, trigger, true);
  }

  /** Any server among the parentless spans makes the fragment HTTP-triggered, else any consumer event-triggered. */
  method MixedTrigger(parentless: seq<nat>, kindOf: C.Span -> Kind, spans: array<C.Span>) returns (trigger: Trigger)
    requires forall k :: 0 <= k < |parentless| ==> parentless[k] < spans.Length
    ensures var served := exists i :: i in parentless && kindOf(spans[..][i]) == Server;
            var consumed := exists i :: i in parentless && kindOf(spans[..][i]) == Consumer;
            trigger == if !served && consumed then Event else Http
  {
    var hasServer, hasConsumer := false, false;
    for n := 0 to |parentless|
      invariant hasServer <==> exists k :: 0 <= k < n && kindOf(spans[parentless[k]]) == Server
      invariant hasConsumer <==> exists k :: 0 <= k < n && kindOf(spans[parentless[k]]) == Consumer
    {
      var k := kindOf(spans[parentless[n]]);
      hasServer := hasServer || k == Server;
      hasConsumer := hasConsumer || k == Consumer;
    }
    assert forall k :: 0 <= k < |parentless| ==> parentless[k] in parentless;
    trigger := if !hasServer && hasConsumer then Event else Http;
  }

  method Reown(parentless: seq<nat>, spans: array<C.Span>, name: string)
    requires parentless == ParentlessAt(spans[..], spans.Length)
    modifies spans
    ensures spans[..] == Reowned(old(spans[..]), name)
  {
    hide ParentlessAt, Parentless;
    ghost var before := spans[..];
    for n := 0 to |parentless|
      invariant forall i :: 0 <= i < spans.Length ==>
                  spans[i] == if i in parentless[..n] then before[i].(parentId := SYNTHETIC + name) else before[i]
    {
      assert forall i :: i in parentless[..n + 1] <==> i in parentless[..n] || i == parentless[n];
      spans[parentless[n]] := spans[parentless[n]].(parentId := SYNTHETIC + name);
    }
    assert parentless[..|parentless|] == parentless;
    assert spans[..] == Reowned(before, name);
  }

  lemma IdsStep(spans: Spans, i: nat)
    requires i < |spans|
    ensures IdsOf(spans[..i + 1]) == IdsOf(spans[..i]) + {spans[i].id}
  {
    assert spans[..i + 1] == spans[..i] + [spans[i]];
  }

  method FindParentless(spans: array<C.Span>) returns (parentless: seq<nat>)
    ensures parentless == ParentlessAt(spans[..], spans.Length)
  {
    hide IdsOf;
    ghost var all := spans[..];
    var ids := {};
    assert IdsOf(all[..0]) == {} by { NoIds(); }
    for i := 0 to spans.Length
      invariant ids == IdsOf(all[..i])
    {
      IdsStep(all, i);
      ids := ids + {spans[i].id};
    }
    assert all[..spans.Length] == all;
    parentless := [];
    for i := 0 to spans.Length
      invariant parentless == ParentlessAt(all, i)
    {
      if spans[i].parentId !in ids {
        parentless := parentless + [i];
      }
    }
  }

  lemma NoIds()
    ensures IdsOf([]) == {}
  {
  }

  /** What the completeness guard wants, and no head left to surface as an orphan. */
  ghost predicate OneTree(r: Rooted) {
    && r.root < |r.spans|
    && DistinctIds(r.spans) && Acyclic(UpOf(r.spans))
    && IsEntry(r.spans, r.spans[r.root])
    && HeadsOf(r.spans, IdsOf(r.spans), r.spans[r.root].id) == []
  }

  lemma NoHeads(spans: Spans, root: string)
    requires forall s :: s in spans ==> s.id == root || s.parentId in IdsOf(spans)
    ensures HeadsOf(spans, IdsOf(spans), root) == []
  {
    HeadsFacts(spans, IdsOf(spans), root);
    SomeMember(HeadsOf(spans, IdsOf(spans), root));
  }

  lemma SomeMember<T>(s: seq<T>)
    ensures s != [] ==> exists x :: x in s
  {
    if s != [] { assert s[0] in s; }
  }

  lemma EntryIsOneTree(name: string, kindOf: C.Span -> Kind, spans: Spans)
    requires DistinctIds(spans) && Acyclic(UpOf(spans))
    ensures !RootOf(name, kindOf, spans).synthesized ==> OneTree(RootOf(name, kindOf, spans))
  {
    hide UpOf, Acyclic, HeadsOf, IsEntryKind, DistinctIds;
    var r := RootOf(name, kindOf, spans);
    if !r.synthesized {
      var parentless := ParentlessAt(spans, |spans|);
      assert parentless[0] in parentless;
      forall s | s in spans ensures s.id == spans[r.root].id || s.parentId in IdsOf(spans) {
        var i :| 0 <= i < |spans| && spans[i] == s;
        if Parentless(spans, s) { assert i in parentless; }
      }
      NoHeads(spans, spans[r.root].id);
    }
  }

  lemma ReownedIds(spans: Spans, name: string)
    ensures IdsOf(Reowned(spans, name) + [SyntheticRoot(name)]) == IdsOf(spans) + {SYNTHETIC + name}
  {
    var out := Reowned(spans, name) + [SyntheticRoot(name)];
    assert forall i :: 0 <= i < |spans| ==> out[i].id == spans[i].id;
    SameIds(spans, Reowned(spans, name));
    assert out[|spans|] == SyntheticRoot(name);
  }

  lemma ReownedDistinct(spans: Spans, name: string)
    requires DistinctIds(spans) && SYNTHETIC + name !in IdsOf(spans)
    ensures DistinctIds(Reowned(spans, name) + [SyntheticRoot(name)])
  {
    var out := Reowned(spans, name) + [SyntheticRoot(name)];
    forall i, j | 0 <= i < j < |out| ensures out[i].id != out[j].id {
      assert spans[i] in spans;
    }
  }

  /** Links that left the set now end at the new root, whose own link leaves it. */
  ghost predicate Under(up: Up, owned: Up, root: string) {
    && (forall a :: a in owned <==> a in up || a == root)
    && root !in up && owned[root] !in owned
    && forall a :: a in up ==> owned[a] == if up[a] in up then up[a] else root
  }

  lemma {:induction false} GroundedUnder(up: Up, owned: Up, root: string, a: string, n: nat)
    requires Under(up, owned, root) && Grounded(up, a, n)
    ensures Grounded(owned, a, n + 1)
    decreases n
  {
    if n > 0 {
      GroundedUnder(up, owned, root, up[a], n - 1);
    } else {
      assert Grounded(owned, root, 0);
    }
  }

  lemma AcyclicUnder(up: Up, owned: Up, root: string)
    requires Under(up, owned, root) && Acyclic(up)
    ensures Acyclic(owned)
  {
    hide Acyclic, Grounded;
    AcyclicIffGrounded(up);
    AcyclicIffGrounded(owned);
    forall a | a in owned ensures HasGround(owned, a) {
      if a in up {
        var n: nat :| Grounded(up, a, n);
        GroundedUnder(up, owned, root, a, n);
      } else {
        RootGrounded(owned, a);
      }
    }
  }

  lemma RootGrounded(up: Up, a: string)
    requires a in up && up[a] !in up
    ensures HasGround(up, a)
  {
    assert Grounded(up, a, 0);
  }

  lemma LinkAt(spans: Spans, i: nat)
    requires DistinctIds(spans) && i < |spans|
    ensures spans[i].id in UpOf(spans) && UpOf(spans)[spans[i].id] == spans[i].parentId
  {
    UpKeys(spans);
    assert spans[i] in spans;
  }

  lemma NoBlankId(spans: Spans)
    requires Keyed(spans)
    ensures "" !in IdsOf(spans)
  {
  }

  lemma PlaceOf(spans: Spans, a: string) returns (i: nat)
    requires a in IdsOf(spans)
    ensures i < |spans| && spans[i].id == a
  {
    i :| 0 <= i < |spans| && spans[i].id == a;
  }

  lemma ReownedUnder(spans: Spans, name: string)
    requires Keyed(spans) && SYNTHETIC + name !in IdsOf(spans)
    ensures Under(UpOf(spans), UpOf(Reowned(spans, name) + [SyntheticRoot(name)]), SYNTHETIC + name)
  {
    hide UpOf, DistinctIds, IdsOf;
    var root, up := SYNTHETIC + name, UpOf(spans);
    var out := Reowned(spans, name) + [SyntheticRoot(name)];
    var owned := UpOf(out);
    ReownedDistinct(spans, name);
    ReownedIds(spans, name);
    SameKeys(spans);
    SameKeys(out);
    LinkAt(out, |spans|);
    NoBlankId(spans);
    forall a | a in up ensures owned[a] == if up[a] in up then up[a] else root {
      var i := PlaceOf(spans, a);
      LinkAt(spans, i);
      LinkAt(out, i);
    }
  }

  lemma SameKeys(spans: Spans)
    ensures UpOf(spans).Keys == IdsOf(spans)
  {
    UpKeys(spans);
  }

  lemma SynthesizedIsOneTree(name: string, kindOf: C.Span -> Kind, spans: Spans)
    requires Keyed(spans) && Acyclic(UpOf(spans)) && SYNTHETIC + name !in IdsOf(spans)
    ensures RootOf(name, kindOf, spans).synthesized ==> OneTree(RootOf(name, kindOf, spans))
  {
    hide UpOf, Acyclic, Grounded, Under;
    var out := Reowned(spans, name) + [SyntheticRoot(name)];
    ReownedDistinct(spans, name);
    ReownedIds(spans, name);
    ReownedUnder(spans, name);
    AcyclicUnder(UpOf(spans), UpOf(out), SYNTHETIC + name);
    forall s | s in out ensures s.id == SYNTHETIC + name || s.parentId in IdsOf(out) {
      var i :| 0 <= i < |out| && out[i] == s;
    }
    NoHeads(out, SYNTHETIC + name);
    assert out[|spans|] in out;
  }

  /** The one thing that spoils a fragment: a root is synthesized under an id that a span of it has already. */
  ghost predicate Clash(name: string, kindOf: C.Span -> Kind, spans: Spans) {
    RootOf(name, kindOf, spans).synthesized && SYNTHETIC + name in IdsOf(spans)
  }

  lemma ClashRepeats(name: string, kindOf: C.Span -> Kind, spans: Spans)
    requires Clash(name, kindOf, spans)
    ensures !OneTree(RootOf(name, kindOf, spans))
  {
    hide Acyclic, UpOf, HeadsOf;
    var out := RootOf(name, kindOf, spans).spans;
    var s :| s in spans && s.id == SYNTHETIC + name;
    var i :| 0 <= i < |spans| && spans[i] == s;
    assert out[i].id == out[|spans|].id;
  }

  /** Whatever the entry looks like, an acyclic fragment becomes one tree the guard accepts, but for a clash. */
  lemma FragmentIsOneTree(name: string, kindOf: C.Span -> Kind, spans: Spans)
    requires Keyed(spans) && Acyclic(UpOf(spans))
    ensures OneTree(RootOf(name, kindOf, spans)) <==> !Clash(name, kindOf, spans)
  {
    hide OneTree, RootOf, Acyclic, UpOf;
    EntryIsOneTree(name, kindOf, spans);
    if Clash(name, kindOf, spans) {
      ClashRepeats(name, kindOf, spans);
    } else if SYNTHETIC + name !in IdsOf(spans) {
      SynthesizedIsOneTree(name, kindOf, spans);
    }
  }

  function Captured(id: string, parentId: string): C.Span {
    C.Span("", id, parentId, "op", Internal, map[], "", "", 0, 0, [], false, 0)
  }

  /** A captured span under the id the synthesized root will take: distinct ids, no cycle, and still not one tree. */
  lemma ClashInput(kindOf: C.Span -> Kind)
    requires forall s :: kindOf(s) == s.kind
    ensures var spans := [Captured(SYNTHETIC + "f", "")];
            && Keyed(spans) && Acyclic(UpOf(spans))
            && Clash("f", kindOf, spans) && !OneTree(RootOf("f", kindOf, spans))
  {
    hide UpOf, OneTree;
    var spans := [Captured(SYNTHETIC + "f", "")];
    assert |spans[0].id| > 0;
    SameKeys(spans);
    LinkAt(spans, 0);
    assert IdsOf(spans) == {SYNTHETIC + "f"};
    AcyclicIffGrounded(UpOf(spans));
    assert ParentlessAt(spans, 1) == [0];
    RootGrounded(UpOf(spans), SYNTHETIC + "f");
    ClashRepeats("f", kindOf, spans);
  }

  // ---- one fragment per flow and service ----

  /** The bucket a span falls into; whole flows are not split by service. */
  datatype FlowKey = FlowKey(slug: string, service: string)

  function BucketKey(s: C.Span, whole: bool): FlowKey {
    FlowKey(C.Attr(s, FLOW_KEY), if whole then "" else C.Attr(s, SERVICE_KEY))
  }

  predicate KeyLess(a: FlowKey, b: FlowKey) {
    if a.slug != b.slug then StrLess(a.slug, b.slug) else StrLess(a.service, b.service)
  }

  /** The spans of one bucket, in capture order; a span without a slug is in none. */
  function BucketOf(spans: Spans, key: FlowKey, whole: bool): Spans {
    if spans == [] then []
    else
      var n := |spans| - 1;
      BucketOf(spans[..n], key, whole) +
      if C.Attr(spans[n], FLOW_KEY) != "" && BucketKey(spans[n], whole) == key then [spans[n]] else []
  }

  lemma {:induction false} BucketFacts(spans: Spans, key: FlowKey, whole: bool)
    ensures forall s :: s in BucketOf(spans, key, whole) <==>
                        s in spans && C.Attr(s, FLOW_KEY) != "" && BucketKey(s, whole) == key
  {
    if spans != [] {
      var n := |spans| - 1;
      BucketFacts(spans[..n], key, whole);
      assert spans == spans[..n] + [spans[n]];
    }
  }

  lemma {:induction false} BucketKeyed(spans: Spans, key: FlowKey, whole: bool)
    requires Keyed(spans)
    ensures Keyed(BucketOf(spans, key, whole))
  {
    if spans != [] {
      var n := |spans| - 1;
      var front, last := spans[..n], spans[n];
      BucketKeyed(front, key, whole);
      BucketFacts(front, key, whole);
      var b := BucketOf(front, key, whole);
      forall i | 0 <= i < |b| ensures b[i].id != last.id {
        assert b[i] in b;
        var k :| 0 <= k < |front| && front[k] == b[i];
        assert spans[k].id != spans[n].id;
      }
    }
  }

  ghost predicate SubLinks(sub: Up, up: Up) {
    forall a :: a in sub ==> a in up && up[a] == sub[a]
  }

  lemma {:induction false} SubWalk(sub: Up, up: Up, a: string, k: nat, b: string)
    requires SubLinks(sub, up) && NthUp(sub, a, k, b)
    ensures NthUp(up, a, k, b)
    decreases k
  {
    if k > 0 { SubWalk(sub, up, sub[a], k - 1, b); }
  }

  /** Fewer links close no cycle. */
  lemma SubAcyclic(sub: Up, up: Up)
    requires SubLinks(sub, up) && Acyclic(up)
    ensures Acyclic(sub)
  {
    forall a | a in sub ensures !OnCycle(sub, a) {
      if OnCycle(sub, a) {
        var k: nat :| k > 0 && NthUp(sub, a, k, a);
        SubWalk(sub, up, a, k, a);
      }
    }
  }

  lemma BucketLinks(spans: Spans, key: FlowKey, whole: bool)
    requires Keyed(spans)
    ensures SubLinks(UpOf(BucketOf(spans, key, whole)), UpOf(spans))
  {
    hide UpOf, BucketOf;
    var b := BucketOf(spans, key, whole);
    BucketKeyed(spans, key, whole);
    BucketFacts(spans, key, whole);
    UpKeys(spans);
    UpKeys(b);
    forall a | a in UpOf(b) ensures a in UpOf(spans) && UpOf(spans)[a] == UpOf(b)[a] {
      var s :| s in b && s.id == a;
      assert s in spans;
    }
  }

  /** Ingest input as OTLP delivers it: distinct non-empty ids and no parent cycle. */
  ghost predicate WellFormed(spans: Spans) {
    Keyed(Rekeyed(spans)) && Acyclic(ParentsOf(Rekeyed(spans)))
  }

  lemma {:induction false} SameLinks(a: Spans, b: Spans)
    requires |a| == |b|
    requires forall i :: 0 <= i < |a| ==> a[i].id == b[i].id != "" && a[i].parentId == b[i].parentId
    ensures UpOf(a) == ParentsOf(b)
  {
    if a != [] {
      SameLinks(a[..|a| - 1], b[..|b| - 1]);
    }
  }

  /** Writing slugs back moves no id and no parent. */
  lemma StitchedLinks(spans: Spans, stitched: Spans)
    requires Keyed(Rekeyed(spans)) && Stitched(spans, stitched)
    ensures Keyed(stitched) && UpOf(stitched) == ParentsOf(Linked(Rekeyed(spans), |spans|))
    ensures |stitched| == |spans| && forall i :: 0 <= i < |stitched| ==> stitched[i].id == Rekeyed(spans)[i].id
  {
    hide ParentsOf, UpOf, Linked, FlowOf, Rekey;
    var keyed := Rekeyed(spans);
    StitchKeepsSpans(keyed, |spans|);
    KeyedLinked(keyed);
    SameLinks(stitched, Linked(keyed, |spans|));
  }

  /** The stitched span set is still a forest on the same ids. */
  lemma StitchedForest(spans: Spans, stitched: Spans)
    requires WellFormed(spans) && Stitched(spans, stitched)
    ensures Keyed(stitched) && Acyclic(UpOf(stitched))
  {
    hide ParentsOf, OnCycle, UpOf, Linked, Stitched, Rekey, Keyed;
    var keyed := Rekeyed(spans);
    StitchedLinks(spans, stitched);
    forall a | a in UpOf(stitched) ensures !OnCycle(UpOf(stitched), a) {
      StitchKeepsCycles(keyed, |spans|, a);
    }
  }

  function NameOf(key: FlowKey, whole: bool): string {
    if whole then key.slug else key.service
  }

  /** Ingest yields one tree per fragment, which the guard accepts and no head is left over from, but for a clash. */
  lemma IngestYieldsOneTree(spans: Spans, stitched: Spans, kindOf: C.Span -> Kind, key: FlowKey, whole: bool)
    requires WellFormed(spans) && Stitched(spans, stitched)
    ensures var b := BucketOf(stitched, key, whole);
            OneTree(RootOf(NameOf(key, whole), kindOf, b)) <==> !Clash(NameOf(key, whole), kindOf, b)
  {
    hide Stitched, WellFormed, UpOf, Acyclic, BucketOf, RootOf, OneTree, SubLinks;
    var b := BucketOf(stitched, key, whole);
    StitchedForest(spans, stitched);
    BucketKeyed(stitched, key, whole);
    BucketLinks(stitched, key, whole);
    SubAcyclic(UpOf(b), UpOf(stitched));
    FragmentIsOneTree(NameOf(key, whole), kindOf, b);
  }

  lemma RootedIds(name: string, kindOf: C.Span -> Kind, spans: Spans)
    ensures IdsOf(RootOf(name, kindOf, spans).spans) ==
            if RootOf(name, kindOf, spans).synthesized then IdsOf(spans) + {SYNTHETIC + name} else IdsOf(spans)
  {
    ReownedIds(spans, name);
  }

  /**
   * A span that belongs to a flow is in its own fragment and in no other; only a synthesized root can be
   * mistaken for it.
   */
  lemma ExactlyOneFragment(spans: Spans, stitched: Spans, kindOf: C.Span -> Kind, i: nat, key: FlowKey, whole: bool)
    requires WellFormed(spans) && Stitched(spans, stitched)
    requires i < |stitched| && C.Attr(stitched[i], FLOW_KEY) != ""
    ensures var r := RootOf(NameOf(key, whole), kindOf, BucketOf(stitched, key, whole));
            stitched[i].id in IdsOf(r.spans) <==>
              key == BucketKey(stitched[i], whole) || (r.synthesized && stitched[i].id == SYNTHETIC + NameOf(key, whole))
  {
    hide Stitched, WellFormed, BucketOf, RootOf, UpOf;
    StitchedForest(spans, stitched);
    BucketFacts(stitched, key, whole);
    var b := BucketOf(stitched, key, whole);
    RootedIds(NameOf(key, whole), kindOf, b);
    assert stitched[i] in stitched;
    if stitched[i].id in IdsOf(b) {
      var s :| s in b && s.id == stitched[i].id;
      var j :| 0 <= j < |stitched| && stitched[j] == s;
    }
  }

  // ---- the two reductions ----

  datatype FlowCapture = FlowCapture(slug: string, service: string, rooted: Rooted)

  /** Some span names `service`, and no span names another. */
  ghost predicate Agreed(spans: Spans, service: string) {
    && service != ""
    && (exists s :: s in spans && C.Attr(s, SERVICE_KEY) == service)
    && (forall s :: s in spans ==> C.Attr(s, SERVICE_KEY) == "" || C.Attr(s, SERVICE_KEY) == service)
  }

  /** `commonService`: the single service the spans agree on, or "". */
  method CommonService(spans: Spans) returns (service: string)
    ensures service != "" ==> Agreed(spans, service)
    ensures service == "" ==> forall other :: !Agreed(spans, other)
  {
    service := "";
    for i := 0 to |spans|
      invariant service == "" ==> forall j :: 0 <= j < i ==> C.Attr(spans[j], SERVICE_KEY) == ""
      invariant service != "" ==> Agreed(spans[..i], service)
    {
      assert spans[..i + 1] == spans[..i] + [spans[i]];
      var s := C.Attr(spans[i], SERVICE_KEY);
      if s == "" {
        continue;
      }
      if service == "" {
        service := s;
        assert forall t :: t in spans[..i] ==> C.Attr(t, SERVICE_KEY) == "";
      } else if service != s {
        assert spans[i] in spans && forall t :: t in spans[..i] ==> t in spans;
        return "";
      }
    }
    assert spans[..|spans|] == spans;
  }

  /** The lifeline of a whole flow: its entry's service, else the one service in it, else the slug. */
  ghost predicate Labelled(f: FlowCapture) {
    f.rooted.root < |f.rooted.spans| &&
    var entry := C.Attr(f.rooted.spans[f.rooted.root], SERVICE_KEY);
    if entry != "" then f.service == entry
    else Agreed(f.rooted.spans, f.service) || (f.service == f.slug && forall other :: !Agreed(f.rooted.spans, other))
  }

  /** The buckets and the order they were met in. */
  ghost predicate Partitioned(spans: Spans, whole: bool, order: seq<FlowKey>, buckets: map<FlowKey, Spans>) {
    && (forall k :: k in buckets <==> BucketOf(spans, k, whole) != [])
    && (forall k :: k in buckets ==> buckets[k] == BucketOf(spans, k, whole))
    && (forall k :: k in order <==> k in buckets)
    && (forall i, j :: 0 <= i < j < |order| ==> order[i] != order[j])
  }

  lemma PartitionStep(spans: Spans, whole: bool, i: nat, k: FlowKey)
    requires i < |spans|
    ensures BucketOf(spans[..i + 1], k, whole) == BucketOf(spans[..i], k, whole) +
              if C.Attr(spans[i], FLOW_KEY) != "" && BucketKey(spans[i], whole) == k then [spans[i]] else []
  {
    assert spans[..i + 1][..i] == spans[..i];
  }

  method Partition(spans: Spans, whole: bool) returns (order: seq<FlowKey>, buckets: map<FlowKey, Spans>)
    ensures Partitioned(spans, whole, order, buckets)
  {
    hide BucketOf;
    order, buckets := [], map[];
    NoBuckets(whole);
    assert spans[..0] == [];
    for i := 0 to |spans|
      invariant Partitioned(spans[..i], whole, order, buckets)
    {
      forall k { PartitionStep(spans, whole, i, k); }
      if C.Attr(spans[i], FLOW_KEY) == "" {
        continue;
      }
      var k := BucketKey(spans[i], whole);
      if k !in buckets {
        order := order + [k];
        buckets := buckets[k := [spans[i]]];
      } else {
        buckets := buckets[k := buckets[k] + [spans[i]]];
      }
    }
    assert spans[..|spans|] == spans;
  }

  lemma NoBuckets(whole: bool)
    ensures forall k :: BucketOf([], k, whole) == []
  {
  }

  lemma KeyOrder()
    ensures StrictWeak(KeyLess)
  {
    forall a, b | KeyLess(a, b) ensures !KeyLess(b, a) {
      if a.slug != b.slug { StrLessAsymmetric(a.slug, b.slug); } else { StrLessAsymmetric(a.service, b.service); }
    }
    forall a, b, c | KeyLess(a, c) ensures KeyLess(a, b) || KeyLess(b, c) {
      KeyCotransitive(a, b, c);
    }
  }

  lemma KeyCotransitive(a: FlowKey, b: FlowKey, c: FlowKey)
    requires KeyLess(a, c)
    ensures KeyLess(a, b) || KeyLess(b, c)
  {
    if a.slug == b.slug == c.slug {
      StrLessCotransitive(a.service, b.service, c.service);
    } else if a.slug == c.slug {
      StrLessConnected(a.slug, b.slug);
    } else {
      StrLessCotransitive(a.slug, b.slug, c.slug);
    }
  }

  /** The fragment one bucket becomes. */
  ghost predicate Fragment(stitched: Spans, whole: bool, kindOf: C.Span -> Kind, key: FlowKey, f: FlowCapture) {
    && f.slug == key.slug
    && f.rooted == RootOf(NameOf(key, whole), kindOf, BucketOf(stitched, key, whole))
    && (if whole then Labelled(f) else f.service == key.service)
  }

  /** Each flow with spans, once, in key order, with the fragment rooted from its bucket. */
  ghost predicate Reduced(stitched: Spans, whole: bool, kindOf: C.Span -> Kind, order: seq<FlowKey>, flows: seq<FlowCapture>) {
    && (forall k :: k in order <==> BucketOf(stitched, k, whole) != [])
    && (forall i, j :: 0 <= i < j < |order| ==> order[i] != order[j] && !KeyLess(order[j], order[i]))
    && |flows| == |order|
    && (forall i :: 0 <= i < |order| ==> Fragment(stitched, whole, kindOf, order[i], flows[i]))
  }

  lemma ReorderDistinct<T>(a: seq<T>, b: seq<T>)
    requires multiset(a) == multiset(b)
    requires forall i, j :: 0 <= i < j < |a| ==> a[i] != a[j]
    ensures forall i, j :: 0 <= i < j < |b| ==> b[i] != b[j]
    ensures forall x :: x in a <==> x in b
  {
    var p := FindPermutation(b, a);
    forall x ensures x in a <==> x in b {
      assert x in a <==> x in multiset(a);
      assert x in b <==> x in multiset(b);
    }
    assert forall i, j :: 0 <= i < j < |b| ==> p[i] < p[j] || p[j] < p[i];
  }

  method ReduceOne(spans: Spans, key: FlowKey, whole: bool, kindOf: C.Span -> Kind) returns (f: FlowCapture)
    ensures f.slug == key.slug && f.rooted == RootOf(NameOf(key, whole), kindOf, spans)
    ensures if whole then Labelled(f) else f.service == key.service
  {
    hide Agreed, RootOf;
    var bucket := new C.Span[|spans|](i requires 0 <= i < |spans| => spans[i]);
    assert bucket[..] == spans;
    var rooted := AssembleRoot(NameOf(key, whole), kindOf, bucket);
    RootInside(NameOf(key, whole), kindOf, spans);
    var service := key.service;
    if whole {
      service := C.Attr(rooted.spans[rooted.root], SERVICE_KEY);
      if service == "" {
        service := CommonService(rooted.spans);
      }
      if service == "" {
        service := key.slug;
      }
    }
    f := FlowCapture(key.slug, service, rooted);
  }

  lemma RootInside(name: string, kindOf: C.Span -> Kind, spans: Spans)
    ensures RootOf(name, kindOf, spans).root < |RootOf(name, kindOf, spans).spans|
  {
  }

  /** `Group` and `WholeFlows` share everything but the bucket key and the service label. */
  method Reduce(spans: Spans, whole: bool, kindOf: C.Span -> Kind)
    returns (flows: seq<FlowCapture>, ghost stitched: Spans, ghost order: seq<FlowKey>)
    ensures Stitched(spans, stitched)
    ensures Reduced(stitched, whole, kindOf, order, flows)
  {
    hide Stitched, BucketOf, RootOf, KeyLess, Labelled;
    var out := StitchAll(spans);
    stitched := out[..];
    var met, buckets := Partition(out[..], whole);
    KeyOrder();
    var keys := SortSlice(met, KeyLess);
    ReorderDistinct(met, keys);
    order := keys;
    flows := [];
    for i := 0 to |keys|
      invariant |flows| == i && forall j :: 0 <= j < i ==> Fragment(stitched, whole, kindOf, keys[j], flows[j])
    {
      assert keys[i] in keys;
      var flow := ReduceOne(buckets[keys[i]], keys[i], whole, kindOf);
      flows := flows + [flow];
    }
  }

  /** Every fragment is one tree, but for those whose synthesized root clashes with a span. */
  ghost predicate EachOneTree(stitched: Spans, whole: bool, kindOf: C.Span -> Kind, order: seq<FlowKey>, flows: seq<FlowCapture>) {
    |flows| == |order| && forall i :: 0 <= i < |flows| ==>
      (OneTree(flows[i].rooted) <==> !Clash(NameOf(order[i], whole), kindOf, BucketOf(stitched, order[i], whole)))
  }

  /** The fragments of the stitched spans, one per key that has spans, in key order. */
  ghost predicate Fragmented(spans: Spans, whole: bool, kindOf: C.Span -> Kind, flows: seq<FlowCapture>) {
    exists stitched: Spans, order: seq<FlowKey> ::
      && Stitched(spans, stitched) && Reduced(stitched, whole, kindOf, order, flows)
      && (WellFormed(spans) ==> EachOneTree(stitched, whole, kindOf, order, flows))
  }

  /** Fragments per flow and service, for gating. */
  method Group(spans: Spans, kindOf: C.Span -> Kind) returns (flows: seq<FlowCapture>)
    ensures Fragmented(spans, false, kindOf, flows)
  {
    hide Stitched, Reduced, WellFormed, EachOneTree;
    ghost var stitched, order;
    flows, stitched, order := Reduce(spans, false, kindOf);
    FragmentsAreTrees(spans, stitched, false, kindOf, order, flows);
  }

  /** Fragments per flow, for rendering. */
  method WholeFlows(spans: Spans, kindOf: C.Span -> Kind) returns (flows: seq<FlowCapture>)
    ensures Fragmented(spans, true, kindOf, flows)
  {
    hide Stitched, Reduced, WellFormed, EachOneTree;
    ghost var stitched, order;
    flows, stitched, order := Reduce(spans, true, kindOf);
    FragmentsAreTrees(spans, stitched, true, kindOf, order, flows);
  }

  lemma FragmentsAreTrees(spans: Spans, stitched: Spans, whole: bool, kindOf: C.Span -> Kind, order: seq<FlowKey>, flows: seq<FlowCapture>)
    requires Stitched(spans, stitched) && Reduced(stitched, whole, kindOf, order, flows)
    ensures WellFormed(spans) ==> EachOneTree(stitched, whole, kindOf, order, flows)
  {
    hide Stitched, WellFormed, RootOf, OneTree, Clash, Labelled, BucketOf;
    if WellFormed(spans) {
      forall i | 0 <= i < |flows|
        ensures OneTree(flows[i].rooted) <==> !Clash(NameOf(order[i], whole), kindOf, BucketOf(stitched, order[i], whole))
      {
        assert Fragment(stitched, whole, kindOf, order[i], flows[i]);
        IngestYieldsOneTree(spans, stitched, kindOf, order[i], whole);
      }
    }
  }
}
