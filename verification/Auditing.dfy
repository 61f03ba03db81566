/** The audit over a corpus of observed effects, and the gate that accepts or refuses a repair. */
module Auditing {
  import opened Sorting
  import opened Reach
  import opened Impeach
  import opened Fqn
  import opened Anchoring
  import opened Severing
  import opened Observing
  import I = Identities

  // ---- the proof obligation never trips ----

  lemma EmitterMembers(g: Graph, k: string)
    ensures forall from :: from in Emitters(g, k) <==> Emits(g, k, from)
  {
    hide InOrder, EmitterSet, Emits;
    InOrderMembers(EmitterSet(g, k, |g.effects|));
    EmitterParity(g, k);
  }

  /** A root that reaches an emitter makes the effect live. */
  lemma RootReachesEmitter(g: Graph, root: string, from: string, k: string)
    requires RootCone(g, root) && Emits(g, k, from) && Reaches(Callees(g.calls, g.nodes), root, from)
    ensures Live(g, k)
  {
    hide Callees, Reaches, EntrySeeds, Emits;
    var next := Callees(g.calls, g.nodes);
    var s :| s in EntrySeeds(g) && Reaches(next, s, root);
    ReachesTrans(next, s, root, from);
    ConeMember(next, EntrySeeds(g), s, from);
  }

  /** Every candidate is localized, whatever the walk is given: its discovered entry reaches no emitter of the effect. */
  lemma CandidateIsLocalized(g: Graph, nx: NodeIndex, o: Observation, claim: Reachability, walked: seq<string>)
    requires Candidate(g, o.key)
    ensures LocalizedFrom(g, nx, o, claim, walked).kind != NoSeverance
  {
    hide Callees, Reaches, RootCone, MapEntry, InOrder, EmitterSet, AnchorsOf, Live, Blind;
    var emitters, entry := Emitters(g, o.key), MapEntry(g, o.entry);
    EmitterMembers(g, o.key);
    if Reproducible(g, entry, emitters) {
      var e :| e in emitters && Reaches(Callees(g.calls, g.nodes), entry, e);
      EntryIsRoot(g, o.entry);
      RootReachesEmitter(g, entry, e, o.key);
    }
  }

  // ---- the severed site ----

  /** The site the walk along the path finds, if any. */
  ghost function PreciseSite(g: Graph, nx: NodeIndex, o: Observation): string {
    FirstSevered(g, Emitters(g, o.key), AnchorsOf(nx, PathSpans(o.path)))
  }

  lemma {:induction false} SeveredFacts(g: Graph, emitters: seq<string>, anchors: seq<Anchor>)
    requires FirstSevered(g, emitters, anchors) != ""
    ensures exists i :: 0 <= i < |anchors| && anchors[i] == Mapped(FirstSevered(g, emitters, anchors))
    ensures Severed(g, emitters, FirstSevered(g, emitters, anchors))
  {
    hide Severed;
    var n := |anchors| - 1;
    if FirstSevered(g, emitters, anchors[..n]) != "" {
      SeveredFacts(g, emitters, anchors[..n]);
      var i :| 0 <= i < n && anchors[..n][i] == Mapped(FirstSevered(g, emitters, anchors));
      assert anchors[i] == Mapped(FirstSevered(g, emitters, anchors));
    } else {
      assert anchors[n] == Mapped(FirstSevered(g, emitters, anchors));
    }
  }

  lemma {:induction false} BucketInside(nodes: seq<string>, key: FqnKey)
    ensures forall n :: n in Bucket(nodes, key) ==> n in nodes
  {
    if nodes != [] {
      var n := |nodes| - 1;
      BucketInside(nodes[..n], key);
      assert nodes == nodes[..n] + [nodes[n]];
    }
  }

  /** Only nodes of the graph are ever mapped. */
  lemma MappedIsNode(nx: NodeIndex, nodes: seq<string>, tag: string)
    requires Indexes(nx, nodes) && MapInternal(nx, tag).Mapped?
    ensures MapInternal(nx, tag).node in nodes
  {
    hide Parse, StableSort;
    var key := Parse(tag).key;
    BucketInside(nodes, key);
    var sorted := StableSort(Bucket(nodes, key), StrLess);
    assert Nodes(nx, key) == sorted;
    assert sorted[0] in multiset(sorted);
    assert sorted[0] in multiset(Bucket(nodes, key));
  }

  /** Upstream of an emitter, read forwards. */
  lemma UpstreamLeads(g: Graph, k: string, n: string)
    requires Upstream(g, Emitters(g, k), n)
    ensures Leads(g, n, k)
  {
    hide InOrder, EmitterSet, Emits;
    var emitters := Emitters(g, k);
    EmitterMembers(g, k);
    var e :| e in emitters && Reaches(Callers(g.calls, g.nodes), e, n);
    var p :| WalkFromTo(Callers(g.calls, g.nodes), p, e, n);
    Backwards(Callers(g.calls, g.nodes), Callees(g.calls, g.nodes), p);
    assert Emits(g, k, e) && Reaches(Callees(g.calls, g.nodes), n, e);
  }

  /** The precise site is a function of the graph that leads to an emitter, and no root reaches it. */
  lemma PreciseSiteFacts(g: Graph, nx: NodeIndex, o: Observation)
    requires Indexes(nx, g.nodes) && PreciseSite(g, nx, o) != ""
    ensures PreciseSite(g, nx, o) in g.nodes && Leads(g, PreciseSite(g, nx, o), o.key)
    ensures !RootCone(g, PreciseSite(g, nx, o))
  {
    hide InOrder, EmitterSet, FirstSevered, RootCone, InCone, Indexes, Leads, MapInternal;
    var emitters, spans := Emitters(g, o.key), PathSpans(o.path);
    var anchors := AnchorsOf(nx, spans);
    SeveredFacts(g, emitters, anchors);
    var i :| 0 <= i < |anchors| && anchors[i] == Mapped(PreciseSite(g, nx, o));
    MappedIsNode(nx, g.nodes, spans[i].tag);
    UpstreamLeads(g, o.key, PreciseSite(g, nx, o));
  }

  /**
   * Repairing a candidate at its own localized site removes it exactly when the site is the precise one, or
   * the text of an undiscovered entry that happens to name a function leading to an emitter. Any other coarse
   * site is an entry that the roots already reach, or no function at all, and changes nothing.
   */
  lemma RepairAtSite(g: Graph, nx: NodeIndex, o: Observation, claim: Reachability)
    requires Indexes(nx, g.nodes) && Candidate(g, o.key)
    ensures Candidate(WithBlindSpot(g, Localized(g, nx, o, claim).site), o.key) <==>
              PreciseSite(g, nx, o) == "" && !(MapEntry(g, o.entry) == "" && o.entry in g.nodes && Leads(g, o.entry, o.key))
  {
    hide Candidate, Reproducible, FirstSevered, MapEntry, InOrder, EmitterSet, AnchorsOf, RootCone, Leads, Indexes, FrontierKnown;
    CandidateIsLocalized(g, nx, o, claim, Emitters(g, o.key));
    var site, precise, entry := Localized(g, nx, o, claim).site, PreciseSite(g, nx, o), MapEntry(g, o.entry);
    BlindSpotMonotone(g, site, o.key);
    if precise != "" {
      PreciseSiteFacts(g, nx, o);
    } else if entry != "" {
      EntryIsRoot(g, o.entry);
      RootSiteIsInert(g, entry, o.key);
    }
  }

  // ---- the audit ----

  datatype Witness = Witness(observed: Observation, claim: Reachability, severance: Severance, entryDiscovered: bool)

  datatype Report = Report(candidates: seq<Witness>, gaps: seq<string>, blindCovered: nat, selfInconsistent: nat)

  ghost function ClaimOf(g: Graph, k: string): Reachability {
    if Named(g, k) then Unreachable else NoEmitter
  }

  /** The observations among the first `n` that contradict the graph. */
  ghost function Contradictions(g: Graph, observed: seq<Observation>, n: nat): seq<Observation>
    requires n <= |observed|
  {
    if n == 0 then []
    else
      Contradictions(g, observed, n - 1) + if Candidate(g, observed[n - 1].key) then [observed[n - 1]] else []
  }

  lemma {:induction false} ContradictionsFacts(g: Graph, observed: seq<Observation>, n: nat)
    requires n <= |observed|
    ensures forall o :: o in Contradictions(g, observed, n) <==> o in observed[..n] && Candidate(g, o.key)
  {
    hide Candidate;
    if n > 0 {
      ContradictionsFacts(g, observed, n - 1);
      assert observed[..n] == observed[..n - 1] + [observed[n - 1]];
    }
  }

  function KeysOf(list: seq<Observation>): (r: seq<string>)
    ensures |r| == |list| && forall i :: 0 <= i < |list| ==> r[i] == list[i].key
  {
    seq(|list|, i requires 0 <= i < |list| => list[i].key)
  }

  /** What the walk of the i-th contradiction is given, after those of the ones before it. */
  ghost function WalkedFor(g: Graph, list: seq<Observation>, i: nat): seq<string>
    requires i < |list|
  {
    Served(AskedFor(g, KeysOf(list[..i])), Emitters(g, list[i].key))
  }

  /** The witness of the i-th contradiction. */
  ghost predicate Explains(g: Graph, nx: NodeIndex, list: seq<Observation>, i: nat, w: Witness)
    requires i < |list|
  {
    && w.observed == list[i] && w.claim == ClaimOf(g, list[i].key)
    && w.severance == LocalizedFrom(g, nx, list[i], w.claim, WalkedFor(g, list, i))
    && (w.entryDiscovered <==> MapEntry(g, list[i].entry) != "")
  }

  /** Where the memo is sound, every contradiction is localized as it would be alone. */
  lemma LocalizedAlone(g: Graph, nx: NodeIndex, list: seq<Observation>, i: nat, w: Witness)
    requires MemoSound(g) && i < |list| && Explains(g, nx, list, i, w)
    ensures w.severance == Localized(g, nx, list[i], w.claim)
  {
    hide Upstream, Emitters, Served, AnchorsOf, FirstSevered, FrontierKnown, MappedNodes, FirstAbsent, AnySignal;
    SameSevered(g, WalkedFor(g, list, i), Emitters(g, list[i].key), AnchorsOf(nx, PathSpans(list[i].path)));
  }

  lemma {:induction false} SameSevered(g: Graph, a: seq<string>, b: seq<string>, anchors: seq<Anchor>)
    requires forall x :: Upstream(g, a, x) <==> Upstream(g, b, x)
    ensures FirstSevered(g, a, anchors) == FirstSevered(g, b, anchors)
  {
    hide Upstream, RootCone;
    if anchors != [] { SameSevered(g, a, b, anchors[..|anchors| - 1]); }
  }

  /** Observations that static analysis abstains from among the first `n`. */
  ghost function CoveredCount(g: Graph, observed: seq<Observation>, n: nat): nat
    requires n <= |observed|
  {
    if n == 0 then 0
    else
      var k := observed[n - 1].key;
      CoveredCount(g, observed, n - 1) + if !Live(g, k) && !Candidate(g, k) then 1 else 0
  }

  /** The join's switch: live, covered, or a contradiction with its claim. */
  method Join(g: Graph, observed: seq<Observation>)
    returns (found: seq<(Observation, Reachability)>, reachable: set<string>, covered: nat)
    ensures |found| == |Contradictions(g, observed, |observed|)|
    ensures forall i :: 0 <= i < |found| ==>
              found[i] == (Contradictions(g, observed, |observed|)[i], ClaimOf(g, Contradictions(g, observed, |observed|)[i].key))
    ensures forall k :: k in reachable <==> Live(g, k)
    ensures covered == CoveredCount(g, observed, |observed|)
  {
    hide Live, Blind, Named, Covered;
    var named, blind;
    named, reachable, blind := StaticEffectSets(g);
    found, covered := [], 0;
    for i := 0 to |observed|
      invariant |found| == |Contradictions(g, observed, i)|
      invariant forall j :: 0 <= j < |found| ==>
                  found[j] == (Contradictions(g, observed, i)[j], ClaimOf(g, Contradictions(g, observed, i)[j].key))
      invariant covered == CoveredCount(g, observed, i)
    {
      var o := observed[i];
      if o.key in reachable {
      } else if o.key in blind {
        covered := covered + 1;
      } else if o.key !in named {
        if Covered(g, o.key) {
          covered := covered + 1;
        } else {
          found := found + [(o, NoEmitter)];
        }
      } else {
        found := found + [(o, Unreachable)];
      }
    }
  }

  predicate LessWitness(a: Witness, b: Witness) {
    I.LessObserved(a.observed, b.observed)
  }

  /** What the report on a list of observations says. */
  ghost predicate Reports(g: Graph, nx: NodeIndex, observed: seq<Observation>, r: Report) {
    var list := Contradictions(g, observed, |observed|);
    && |r.candidates| == |list|
    && (forall i :: 0 <= i < |list| ==> Explains(g, nx, list, i, r.candidates[i]))
    && (forall k :: k in r.gaps <==> Live(g, k) && forall i :: 0 <= i < |observed| ==> observed[i].key != k)
    && r.gaps == InOrder(ToSet(r.gaps))
    && r.blindCovered == CoveredCount(g, observed, |observed|)
    && r.selfInconsistent == 0
  }

  /** `Audit`: collect, join, localize every candidate and sort; no candidate is ever self-inconsistent. */
  method Audit(g: Graph, traces: seq<Trace>) returns (r: Report, ghost nx: NodeIndex, ghost observed: seq<Observation>)
    ensures Effects(traces, observed) && Indexes(nx, g.nodes) && Reports(g, nx, observed, r)
  {
    hide Live, Candidate, Indexes, LocalizedFrom, MapEntry, ClaimOf, Contradictions, CoveredCount, InOrder, Effects, LessWitness;
    hide I.Once, I.LessObserved, Served, Emitters;
    var seen := ObservedEffects(traces);
    observed := seen;
    var found, reachable, covered := Join(g, seen);
    var gaps := Gaps(reachable, seen);
    ghost var list := Contradictions(g, observed, |observed|);
    ContradictionsFacts(g, observed, |observed|);
    var lz := new Localizer(g);
    nx := lz.nx;
    var ws: seq<Witness>, bad := [], 0;
    for i := 0 to |found|
      invariant fresh(lz) && lz.Valid() && lz.nx == nx
      invariant lz.asked == AskedFor(g, KeysOf(list[..i]))
      invariant |ws| == i && forall j :: 0 <= j < i ==> Explains(g, nx, list, j, ws[j])
      invariant bad == 0
    {
      var sev, discovered, ok := lz.Localize(found[i].0, found[i].1);
      assert list[i] in list;
      CandidateIsLocalized(g, nx, list[i], found[i].1, WalkedFor(g, list, i));
      if !ok {
        bad := bad + 1;
      }
      ws := ws + [Witness(found[i].0, found[i].1, sev, discovered)];
      assert Explains(g, nx, list, i, ws[i]);
      assert lz.asked == AskedFor(g, KeysOf(list[..i + 1]));
    }
    StaysSorted(traces, g, observed, ws);
    var candidates := SortSlice(ws, LessWitness);
    StrictUnique(ws, candidates, LessWitness);
    r := Report(candidates, gaps, covered, bad);
  }

  /** The final sort finds the candidates in order: they were met in the order of the observations. */
  lemma StaysSorted(traces: seq<Trace>, g: Graph, observed: seq<Observation>, ws: seq<Witness>)
    requires Effects(traces, observed) && |ws| == |Contradictions(g, observed, |observed|)|
    requires forall i :: 0 <= i < |ws| ==> ws[i].observed == Contradictions(g, observed, |observed|)[i]
    ensures StrictWeak(LessWitness) && Strictly(ws, LessWitness)
  {
    hide I.LessObserved, I.Once, Contradictions, Collect, InTraces;
    EffectsFacts(traces, observed);
    I.OnceStrict(observed);
    ContradictionsStrict(g, observed, |observed|);
    I.IdentityOrder();
  }

  lemma {:induction false} ContradictionsStrict(g: Graph, observed: seq<Observation>, n: nat)
    requires n <= |observed| && Strictly(observed, I.LessObserved)
    ensures Strictly(Contradictions(g, observed, n), I.LessObserved)
  {
    hide Candidate, I.LessObserved;
    if n > 0 {
      ContradictionsStrict(g, observed, n - 1);
      ContradictionsFacts(g, observed, n - 1);
      var before := Contradictions(g, observed, n - 1);
      forall i | 0 <= i < |before| ensures I.LessObserved(before[i], observed[n - 1]) {
        assert before[i] in before;
        var j :| 0 <= j < n - 1 && observed[..n - 1][j] == before[i];
      }
    }
  }

  /** Live effects that nothing in the corpus exercised. */
  method Gaps(reachable: set<string>, observed: seq<Observation>) returns (gaps: seq<string>)
    ensures forall k :: k in gaps <==> k in reachable && forall i :: 0 <= i < |observed| ==> observed[i].key != k
    ensures gaps == InOrder(ToSet(gaps))
  {
    hide InOrder;
    var seen := {};
    for i := 0 to |observed|
      invariant forall k :: k in seen <==> exists j :: 0 <= j < i && observed[j].key == k
    {
      seen := seen + {observed[i].key};
    }
    InOrderMembers(reachable - seen);
    gaps := SortedSet(reachable - seen);
    assert ToSet(gaps) == reachable - seen;
  }

  // ---- the report does not depend on arrival order ----

  /** A report the audit can return. */
  ghost predicate AuditReturns(g: Graph, traces: seq<Trace>, r: Report) {
    exists nx, observed :: Effects(traces, observed) && Indexes(nx, g.nodes) && Reports(g, nx, observed, r)
  }

  lemma SameAnchors(nx: NodeIndex, mx: NodeIndex, nodes: seq<string>, spans: seq<PathSpan>)
    requires Indexes(nx, nodes) && Indexes(mx, nodes)
    ensures AnchorsOf(nx, spans) == AnchorsOf(mx, spans)
  {
    hide Parse, StableSort, Bucket;
    assert forall key :: Nodes(nx, key) == Nodes(mx, key);
  }

  lemma ExplainsOne(g: Graph, nx: NodeIndex, mx: NodeIndex, list: seq<Observation>, i: nat, v: Witness, w: Witness)
    requires Indexes(nx, g.nodes) && Indexes(mx, g.nodes) && i < |list|
    requires Explains(g, nx, list, i, v) && Explains(g, mx, list, i, w)
    ensures v == w
  {
    hide Indexes, AnchorsOf, FirstSevered, FrontierKnown, MapEntry, MappedNodes, FirstAbsent, AnySignal, Reproducible, Served;
    SameAnchors(nx, mx, g.nodes, PathSpans(list[i].path));
  }

  /** The observations determine the report. */
  lemma ReportUnique(g: Graph, nx: NodeIndex, mx: NodeIndex, observed: seq<Observation>, r: Report, q: Report)
    requires Indexes(nx, g.nodes) && Indexes(mx, g.nodes)
    requires Reports(g, nx, observed, r) && Reports(g, mx, observed, q)
    ensures r == q
  {
    hide Indexes, Explains, Contradictions, CoveredCount, InOrder, Live;
    forall i | 0 <= i < |r.candidates| ensures r.candidates[i] == q.candidates[i] {
      ExplainsOne(g, nx, mx, Contradictions(g, observed, |observed|), i, r.candidates[i], q.candidates[i]);
    }
    assert forall k :: k in r.gaps <==> k in q.gaps;
    assert ToSet(r.gaps) == ToSet(q.gaps);
  }

  /** The report does not depend on the order in which the traces arrived. */
  ghost predicate ReportFree(g: Graph, a: seq<Trace>) {
    forall b, c, r, q :: multiset(b) == multiset(a) == multiset(c) && AuditReturns(g, b, r) && AuditReturns(g, c, q) ==> r == q
  }

  /** Without a clash it depends on which traces were seen, not on their order or repetition. */
  lemma ReportOrderFree(g: Graph, a: seq<Trace>, b: seq<Trace>, c: seq<Trace>, r: Report, q: Report)
    requires NoClash(a) && SameTraces(a, b) && SameTraces(a, c)
    requires AuditReturns(g, b, r) && AuditReturns(g, c, q)
    ensures r == q
  {
    hide NoClash, SameTraces, Effects, Indexes, Reports;
    var nx, x :| Effects(b, x) && Indexes(nx, g.nodes) && Reports(g, nx, x, r);
    var mx, y :| Effects(c, y) && Indexes(mx, g.nodes) && Reports(g, mx, y, q);
    NoClashIsFree(a, b, c, x, y);
    ReportUnique(g, nx, mx, x, r, q);
  }

  /** A clash over an effect that contradicts the graph does reach the report. */
  lemma ClashReachesReport(g: Graph, a: seq<Trace>, t: Trace, u: Trace, o: Observation, p: Observation)
    requires t in a && u in a && FirstIn(InTrace(t), o) && FirstIn(InTrace(u), p)
    requires I.Identity(o) == I.Identity(p) && o != p && Candidate(g, o.key)
    ensures !ReportFree(g, a)
  {
    hide InTrace, FirstIn, I.Identity, Candidate, AuditReturns;
    var b := ToFront(a, t);
    var c := ToFront(a, u);
    var r := SomeReport(g, [t] + b);
    var q := SomeReport(g, [u] + c);
    ReportsDiffer(g, t, b, u, c, o, p, r, q);
  }

  /** So arrival order is never seen, whatever the graph, exactly when no two observations clash. */
  lemma ReportFreeIff(a: seq<Trace>)
    ensures (forall g :: ReportFree(g, a)) <==> NoClash(a)
  {
    hide InTrace, FirstIn, I.Identity, AuditReturns, Candidate;
    if NoClash(a) {
      forall g, b, c, r, q | multiset(b) == multiset(a) == multiset(c) && AuditReturns(g, b, r) && AuditReturns(g, c, q) ensures r == q {
        SameMembers(a, b);
        SameMembers(a, c);
        ReportOrderFree(g, a, b, c, r, q);
      }
    } else {
      var t, u, o, p :|
        t in a && u in a && FirstIn(InTrace(t), o) && FirstIn(InTrace(u), p) && I.Identity(o) == I.Identity(p) && o != p;
      NothingIsLive(o.key);
      ClashReachesReport(NoGraph(), a, t, u, o, p);
    }
  }

  /** A graph that knows nothing, so that every effect contradicts it. */
  function NoGraph(): Graph {
    Graph([], {}, [], [], 0, 0, [], [])
  }

  lemma NothingIsLive(k: string)
    ensures Candidate(NoGraph(), k)
  {
  }

  // ---- a report always exists ----

  lemma SomeIndex(nodes: seq<string>) returns (nx: NodeIndex)
    ensures Indexes(nx, nodes)
  {
    hide Parse, StableSort;
    var keys := set n | n in nodes && Parse(n).Keyed? :: Parse(n).key;
    nx := map key | key in keys :: StableSort(Bucket(nodes, key), StrLess);
    forall key ensures Nodes(nx, key) == StableSort(Bucket(nodes, key), StrLess) {
      if key !in keys { EmptyBucket(nodes, key); }
    }
  }

  lemma {:induction false} EmptyBucket(nodes: seq<string>, key: FqnKey)
    requires forall n :: n in nodes ==> Parse(n) != Keyed(key)
    ensures Bucket(nodes, key) == [] && StableSort(Bucket(nodes, key), StrLess) == []
  {
    hide Parse;
    if nodes != [] { EmptyBucket(nodes[..|nodes| - 1], key); }
  }

  /** The live effects that are not observed. */
  lemma SomeGaps(g: Graph, observed: seq<Observation>) returns (gaps: seq<string>)
    ensures forall k :: k in gaps <==> Live(g, k) && forall i :: 0 <= i < |observed| ==> observed[i].key != k
    ensures gaps == InOrder(ToSet(gaps))
  {
    hide InOrder, RootCone, EffectKey;
    var keys := set i | 0 <= i < |g.effects| :: EffectKey(g.effects[i]);
    var unseen := set k | k in keys && Live(g, k) && forall i :: 0 <= i < |observed| ==> observed[i].key != k;
    gaps := InOrder(unseen);
    InOrderMembers(unseen);
    assert ToSet(gaps) == unseen;
  }

  lemma SomeReport(g: Graph, traces: seq<Trace>) returns (r: Report)
    ensures AuditReturns(g, traces, r)
  {
    hide Effects, Indexes, Contradictions, CoveredCount, InOrder, Live, LocalizedFrom, WalkedFor, MapEntry, ClaimOf;
    var observed := SomeEffects(traces);
    var nx := SomeIndex(g.nodes);
    var gaps := SomeGaps(g, observed);
    var list := Contradictions(g, observed, |observed|);
    var ws := seq(|list|, i requires 0 <= i < |list| =>
      var o, claim := list[i], ClaimOf(g, list[i].key);
      Witness(o, claim, LocalizedFrom(g, nx, o, claim, WalkedFor(g, list, i)), MapEntry(g, o.entry) != ""));
    r := Report(ws, gaps, CoveredCount(g, observed, |observed|), 0);
    assert Reports(g, nx, observed, r);
  }

  lemma ReportsDiffer(g: Graph, t: Trace, b: seq<Trace>, u: Trace, c: seq<Trace>, o: Observation, p: Observation, r: Report, q: Report)
    requires FirstIn(InTrace(t), o) && FirstIn(InTrace(u), p)
    requires I.Identity(o) == I.Identity(p) && o != p && Candidate(g, o.key)
    requires AuditReturns(g, [t] + b, r) && AuditReturns(g, [u] + c, q)
    ensures r != q
  {
    hide InTrace, FirstIn, I.Identity, I.Once, Candidate, Effects, Indexes, Reports;
    var nx, x :| Effects([t] + b, x) && Indexes(nx, g.nodes) && Reports(g, nx, x, r);
    var mx, y :| Effects([u] + c, y) && Indexes(mx, g.nodes) && Reports(g, mx, y, q);
    FirstTraceWins(t, b, x, o);
    FirstTraceWins(u, c, y, p);
    EffectsFacts([u] + c, y);
    Reported(g, nx, x, r, o);
    Reported(g, mx, y, q, o);
    if r == q { BothUnderOneText(y, o, p); }
  }

  /** A contradiction is reported exactly when it was observed. */
  lemma Reported(g: Graph, nx: NodeIndex, observed: seq<Observation>, r: Report, o: Observation)
    requires Reports(g, nx, observed, r) && Candidate(g, o.key)
    ensures o in observed <==> exists i :: 0 <= i < |r.candidates| && r.candidates[i].observed == o
  {
    hide Candidate, Contradictions, CoveredCount, InOrder, Live, LocalizedFrom, WalkedFor, MapEntry, ClaimOf;
    var list := Contradictions(g, observed, |observed|);
    ContradictionsFacts(g, observed, |observed|);
    assert observed[..|observed|] == observed;
    assert forall i :: 0 <= i < |list| ==> r.candidates[i].observed == list[i] by {
      assert forall i :: 0 <= i < |list| ==> Explains(g, nx, list, i, r.candidates[i]);
    }
    if o in observed {
      var i :| 0 <= i < |list| && list[i] == o;
      assert r.candidates[i].observed == o;
    }
    if exists i :: 0 <= i < |r.candidates| && r.candidates[i].observed == o {
      var i :| 0 <= i < |r.candidates| && r.candidates[i].observed == o;
      assert list[i] in list;
    }
  }

  // ---- the repair gate ----

  /** `sameWitness`: the fields and the path signature. */
  predicate SameWitness(a: Observation, b: Observation) {
    && a.key == b.key && a.flow == b.flow && a.service == b.service && a.entry == b.entry && a.op == b.op
    && I.PathSig(a.path) == I.PathSig(b.path)
  }

  ghost predicate Listed(observed: seq<Observation>, target: Observation) {
    exists i :: 0 <= i < |observed| && SameWitness(observed[i], target)
  }

  /**
   * The first criterion of `SelfExtinguishes`: re-audit with the site disclosed, and look for the target. A
   * repair without a site is refused. A candidate of the corpus goes away exactly when the site is a function
   * that leads to its effect.
   */
  method Extinguishes(g: Graph, site: string, target: Observation, traces: seq<Trace>)
    returns (gone: bool, ghost observed: seq<Observation>)
    ensures Effects(traces, observed)
    ensures gone <==> site != "" && !(Listed(observed, target) && Candidate(WithBlindSpot(g, site), target.key))
    ensures Listed(observed, target) && Candidate(g, target.key) ==>
              (gone <==> site != "" && site in g.nodes && Leads(g, site, target.key))
  {
    hide Candidate, Contradictions, LocalizedFrom, Indexes, Leads, Effects, I.PathSig, Live, CoveredCount, InOrder, Served;
    if site == "" {
      observed := SomeEffects(traces);
      return false, observed;
    }
    BlindSpotMonotone(g, site, target.key);
    var repaired := WithBlindSpot(g, site);
    var r;
    ghost var nx;
    r, nx, observed := Audit(repaired, traces);
    ghost var list := Contradictions(repaired, observed, |observed|);
    gone := true;
    for i := 0 to |r.candidates|
      invariant gone <==> forall j :: 0 <= j < i ==> !SameWitness(list[j], target)
    {
      assert Explains(repaired, nx, list, i, r.candidates[i]);
      if SameWitness(r.candidates[i].observed, target) {
        gone := false;
      }
    }
    StillListed(repaired, observed, target);
  }

  lemma StillListed(g: Graph, observed: seq<Observation>, target: Observation)
    ensures Listed(Contradictions(g, observed, |observed|), target) <==> Listed(observed, target) && Candidate(g, target.key)
  {
    hide Candidate, Contradictions, I.PathSig;
    ContradictionsFacts(g, observed, |observed|);
    var list := Contradictions(g, observed, |observed|);
    assert observed[..|observed|] == observed;
    if Listed(list, target) {
      var i :| 0 <= i < |list| && SameWitness(list[i], target);
      assert list[i] in list;
      var j :| 0 <= j < |observed| && observed[j] == list[i];
    }
    if Listed(observed, target) && Candidate(g, target.key) {
      var i :| 0 <= i < |observed| && SameWitness(observed[i], target);
      assert observed[i] in list;
      var j :| 0 <= j < |list| && list[j] == observed[i];
    }
  }
}
