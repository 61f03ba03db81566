/**
 * What a witness of the audit says, read on the graph and on the observation: where roots and disclosed seams
 * come from, which kind of severance it is, what the effect span itself contributes, and how witnesses are ordered.
 */
module Witnesses {
  import opened Sorting
  import opened Text
  import opened Reach
  import opened Impeach
  import opened Severing
  import opened Auditing
  import Id = Identities
  import An = Anchoring

  // ---- seeds ----

  /** A named entry function, or, when no entry names one, a function that nothing calls. */
  ghost predicate IsRoot(g: Graph, x: string) {
    if exists e :: e in g.entrypoints && e.fn != "" then exists e :: e in g.entrypoints && e.fn == x && x != ""
    else x in g.nodes && forall caller :: (caller, x) !in g.calls
  }

  lemma {:induction false} SourcesAre(g: Graph, n: nat, x: string)
    requires n <= |g.nodes|
    ensures x in Sources(g, n) <==> x in g.nodes[..n] && forall caller :: (caller, x) !in g.calls
  {
    if n > 0 {
      SourcesAre(g, n - 1, x);
      assert g.nodes[..n] == g.nodes[..n - 1] + [g.nodes[n - 1]];
      NoCallersIff(g, g.nodes[n - 1]);
    }
  }

  lemma NoCallersIff(g: Graph, x: string)
    requires x in g.nodes
    ensures Callers(g.calls, g.nodes)(x) == {} <==> forall caller :: (caller, x) !in g.calls
  {
    var c := Callers(g.calls, g.nodes)(x);
    forall caller | (caller, x) in g.calls ensures caller in c {
      var edge := (caller, x);
      assert edge in g.calls && edge.1 == x && edge.1 in g.nodes;
    }
  }

  lemma RootsAre(g: Graph)
    ensures forall x :: x in EntrySeeds(g) <==> IsRoot(g, x)
  {
    var fns := NamedFns(g.entrypoints);
    forall x ensures x in fns <==> x != "" && exists e :: e in g.entrypoints && e.fn == x { EntryIn(g.entrypoints, x); }
    if fns != [] { assert fns[0] in fns; }
    if e :| e in g.entrypoints && e.fn != "" { assert e.fn in fns; }
    forall x ensures x in EntrySeeds(g) <==> IsRoot(g, x) {
      SourcesAre(g, |g.nodes|, x);
      assert g.nodes[..|g.nodes|] == g.nodes;
    }
  }

  lemma EntryIn(eps: seq<Entrypoint>, x: string)
    ensures (exists i :: 0 <= i < |eps| && eps[i].fn == x) <==> exists e :: e in eps && e.fn == x
  {
    if i :| 0 <= i < |eps| && eps[i].fn == x { assert eps[i] in eps; }
  }

  /** The graph itself says that something is missing at this function. */
  ghost predicate IsSeam(g: Graph, x: string) {
    x in g.nodes && (x in g.blindSpots || exists m :: m in g.markers && (m.site == x || m.owner == x))
  }

  lemma {:induction false} MarkersAre(g: Graph, n: nat, x: string)
    requires n <= |g.markers|
    ensures x in MarkerSeeds(g, n) <==> x in g.nodes && exists m :: m in g.markers[..n] && (m.site == x || m.owner == x)
  {
    if n > 0 {
      MarkersAre(g, n - 1, x);
      assert g.markers[..n] == g.markers[..n - 1] + [g.markers[n - 1]];
    }
  }

  /** The abstain region starts at the roots and at every disclosed seam that is a known function, and nowhere else. */
  lemma SeamsAre(g: Graph)
    ensures forall x :: x in SeamSeeds(g) <==> IsRoot(g, x) || IsSeam(g, x)
  {
    RootsAre(g);
    forall x ensures x in SeamSeeds(g) <==> IsRoot(g, x) || IsSeam(g, x) {
      MarkersAre(g, |g.markers|, x);
      assert g.markers[..|g.markers|] == g.markers;
    }
  }

  /** A call of the graph into a function the graph has. */
  predicate Call(g: Graph, x: string, y: string) {
    (x, y) in g.calls && y in g.nodes
  }

  /** From `a` to `b` by such calls. */
  ghost predicate CallWay(g: Graph, p: seq<string>, a: string, b: string) {
    && p != [] && p[0] == a && p[|p| - 1] == b
    && forall i :: 0 <= i < |p| - 1 ==> Call(g, p[i], p[i + 1])
  }

  lemma CalleesAre(g: Graph, x: string, y: string)
    ensures y in Callees(g.calls, g.nodes)(x) <==> Call(g, x, y)
    ensures x in Callers(g.calls, g.nodes)(y) <==> Call(g, x, y)
  {
    if (x, y) in g.calls && y in g.nodes {
      var edge := (x, y);
      assert edge in g.calls && edge.0 == x && edge.1 == y && edge.1 in g.nodes;
    }
  }

  /** Reaching is calling, step by step. */
  lemma ReachesByCalls(g: Graph, a: string, b: string)
    ensures Reaches(Callees(g.calls, g.nodes), a, b) <==> exists p :: CallWay(g, p, a, b)
  {
    hide Callees, Call;
    var next := Callees(g.calls, g.nodes);
    forall x, y ensures y in next(x) <==> Call(g, x, y) { CalleesAre(g, x, y); }
    forall p ensures WalkFromTo(next, p, a, b) <==> CallWay(g, p, a, b) {}
  }

  ghost predicate CallsInto(g: Graph, a: string, b: string) {
    exists p :: CallWay(g, p, a, b)
  }

  /** An effect is blind exactly when no root reaches an emitter and a disclosed seam does. */
  ghost predicate ReachedFromSome(g: Graph, seeds: string -> bool, k: string) {
    exists s, from :: seeds(s) && Emits(g, k, from) && CallsInto(g, s, from)
  }

  lemma LiveAndBlind(g: Graph, k: string)
    ensures Live(g, k) <==> ReachedFromSome(g, s => IsRoot(g, s), k)
    ensures !Live(g, k) ==> (Blind(g, k) <==> ReachedFromSome(g, s => IsSeam(g, s), k))
  {
    hide Reaches, Callees, Emits, IsRoot, IsSeam, EntrySeeds, SeamSeeds, CallsInto;
    RootsAre(g);
    SeamsAre(g);
    var next := Callees(g.calls, g.nodes);
    forall a, b ensures Reaches(next, a, b) <==> CallsInto(g, a, b) { ReachesIsCalls(g, a, b); }
    if Live(g, k) {
      var from :| Emits(g, k, from) && RootCone(g, from);
      var s :| s in EntrySeeds(g) && Reaches(next, s, from);
      assert IsRoot(g, s) && CallsInto(g, s, from);
    }
    if s, from :| IsRoot(g, s) && Emits(g, k, from) && CallsInto(g, s, from) { ConeMember(next, EntrySeeds(g), s, from); }
    if !Live(g, k) && Blind(g, k) {
      var from :| Emits(g, k, from) && !RootCone(g, from) && SeamCone(g, from);
      var s :| s in SeamSeeds(g) && Reaches(next, s, from);
      if IsRoot(g, s) { ConeMember(next, EntrySeeds(g), s, from); }
      assert IsSeam(g, s) && CallsInto(g, s, from);
    }
    if s, from :| !Live(g, k) && IsSeam(g, s) && Emits(g, k, from) && CallsInto(g, s, from) {
      ConeMember(next, SeamSeeds(g), s, from);
    }
  }

  lemma ReachesIsCalls(g: Graph, a: string, b: string)
    ensures Reaches(Callees(g.calls, g.nodes), a, b) <==> CallsInto(g, a, b)
  {
    ReachesByCalls(g, a, b);
  }

  // ---- the entry ----

  /** The entrypoint an observed entry names: by the part behind the transport word. */
  predicate Spells(op: string, name: string) {
    op == "HTTP " + name || op == "CONSUME " + name
  }

  /** The first named entrypoint of that name. */
  ghost predicate FirstNamed(eps: seq<Entrypoint>, name: string, fn: string) {
    exists i :: 0 <= i < |eps| && eps[i].name == name && eps[i].fn == fn && fn != ""
                && forall j :: 0 <= j < i ==> eps[j].name != name || eps[j].fn == ""
  }

  lemma {:induction false} FirstEntryIs(eps: seq<Entrypoint>, name: string)
    ensures FirstEntry(eps, name) != "" ==> FirstNamed(eps, name, FirstEntry(eps, name))
    ensures FirstEntry(eps, name) == "" ==> forall i :: 0 <= i < |eps| ==> eps[i].name != name || eps[i].fn == ""
  {
    if eps != [] {
      if eps[0].name == name && eps[0].fn != "" {
        assert FirstEntry(eps, name) == eps[0].fn;
      } else {
        FirstEntryIs(eps[1..], name);
        if FirstEntry(eps, name) != "" {
          var i :| 0 <= i < |eps[1..]| && eps[1..][i].name == name && eps[1..][i].fn == FirstEntry(eps, name)
                && forall j :: 0 <= j < i ==> eps[1..][j].name != name || eps[1..][j].fn == "";
          assert eps[i + 1] == eps[1..][i];
          forall j | 0 <= j < i + 1 ensures eps[j].name != name || eps[j].fn == "" {
            if j > 0 { assert eps[j] == eps[1..][j - 1]; }
          }
        } else {
          assert forall i :: 0 < i < |eps| ==> eps[i] == eps[1..][i - 1];
        }
      }
    }
  }

  /** An entry is discovered as the first named entrypoint it spells, and only a request or a message spells one. */
  lemma EntryIs(g: Graph, op: string, name: string)
    requires Spells(op, name)
    ensures MapEntry(g, op) != "" ==> FirstNamed(g.entrypoints, name, MapEntry(g, op))
    ensures MapEntry(g, op) == "" ==> forall i :: 0 <= i < |g.entrypoints| ==> g.entrypoints[i].name != name || g.entrypoints[i].fn == ""
  {
    FirstEntryIs(g.entrypoints, name);
    if op == "HTTP " + name {
      assert op[5..] == name && "HTTP " <= op;
    } else {
      assert op[8..] == name && "CONSUME " <= op && op[0] == 'C';
    }
  }

  lemma OtherEntryIsNone(g: Graph, op: string)
    requires forall name :: !Spells(op, name)
    ensures MapEntry(g, op) == ""
  {
    if "HTTP " <= op { assert op == "HTTP " + op[5..] && Spells(op, op[5..]); }
    if "CONSUME " <= op { assert op == "CONSUME " + op[8..] && Spells(op, op[8..]); }
  }

  // ---- kinds ----

  /** Whether the graph has the entry, and whether it has an emitter, decide what kind of break it is. */
  lemma KindsAre(g: Graph, nx: An.NodeIndex, observed: seq<Observation>, r: Report, i: nat)
    requires Reports(g, nx, observed, r) && i < |r.candidates|
    ensures var w := r.candidates[i];
            var found := MapEntry(g, w.observed.entry) != "";
            var emitted := exists from :: Emits(g, w.observed.key, from);
            && w.entryDiscovered == found
            && (w.severance.kind == MissedRoot <==> !found)
            && (w.severance.kind == SeveredEmitter <==> found && emitted)
            && (w.severance.kind == UnmodeledEffect <==> found && !emitted)
            && (w.claim == NoEmitter <==> !emitted)
  {
    hide Candidate, CoveredCount, InOrder, Live, WalkedFor, MapEntry, Emitters, FirstSevered, AnchorsOf, Joined, EffectKey;
    var list := Contradictions(g, observed, |observed|);
    ContradictionsFacts(g, observed, |observed|);
    assert list[i] in list;
    var w := r.candidates[i];
    assert Explains(g, nx, list, i, w);
    CandidateIsLocalized(g, nx, list[i], w.claim, WalkedFor(g, list, i));
    NamedIff(g, w.observed.key);
  }

  lemma NamedIff(g: Graph, k: string)
    ensures Named(g, k) <==> exists from :: Emits(g, k, from)
  {
    hide Joined, EffectKey;
    if Named(g, k) {
      var i :| 0 <= i < |g.effects| && Joined(g.effects[i]) && EffectKey(g.effects[i]) == k;
      assert Emits(g, k, g.effects[i].from);
    }
  }

  /** The site a witness names is marked as known exactly when the graph discloses it, as a blind spot or a marker. */
  lemma FrontierIs(g: Graph, nx: An.NodeIndex, observed: seq<Observation>, r: Report, i: nat)
    requires Reports(g, nx, observed, r) && i < |r.candidates|
    ensures var s := r.candidates[i].severance;
            s.frontierKnown <==> s.site != "" && (s.site in g.blindSpots || exists m :: m in g.markers && (m.site == s.site || m.owner == s.site))
  {
    hide Candidate, CoveredCount, InOrder, Live, WalkedFor, MapEntry, Emitters, FirstSevered, AnchorsOf, Reproducible;
    var list := Contradictions(g, observed, |observed|);
    ContradictionsFacts(g, observed, |observed|);
    assert list[i] in list;
    var w := r.candidates[i];
    assert Explains(g, nx, list, i, w);
    CandidateIsLocalized(g, nx, list[i], w.claim, WalkedFor(g, list, i));
    MarkerAt(g, w.severance.site);
  }

  lemma MarkerAt(g: Graph, site: string)
    ensures FrontierKnown(g, site) <==> site != "" && (site in g.blindSpots || exists m :: m in g.markers && (m.site == site || m.owner == site))
  {
    if m :| m in g.markers && (m.site == site || m.owner == site) {
      var i :| 0 <= i < |g.markers| && g.markers[i] == m;
    }
    if i :| 0 <= i < |g.markers| && (g.markers[i].site == site || g.markers[i].owner == site) { assert g.markers[i] in g.markers; }
  }

  // ---- the effect span ----

  /** The span of the effect itself is never an anchor: neither its operation nor its function tag is read. */
  lemma EffectSpanUnread(g: Graph, nx: An.NodeIndex, o: Observation, p: Observation, claim: Reachability, walked: seq<string>,
                         way: seq<PathSpan>, last: PathSpan, other: PathSpan)
    requires o.path == way + [last] && p == o.(path := way + [other])
    ensures LocalizedFrom(g, nx, o, claim, walked) == LocalizedFrom(g, nx, p, claim, walked)
    ensures forall s :: s in MappedNodes(AnchorsOf(nx, PathSpans(o.path))) ==> exists k :: 0 <= k < |way| && An.MapInternal(nx, way[k].tag) == An.Mapped(s)
  {
    hide An.MapInternal;
    assert PathSpans(o.path) == way && PathSpans(p.path) == way;
    NodesAre(AnchorsOf(nx, way));
  }

  lemma {:induction false} NodesAre(anchors: seq<An.Anchor>)
    ensures forall s :: s in MappedNodes(anchors) <==> exists k :: 0 <= k < |anchors| && anchors[k] == An.Mapped(s)
  {
    if anchors != [] {
      var n := |anchors| - 1;
      NodesAre(anchors[..n]);
      assert anchors == anchors[..n] + [anchors[n]];
    }
  }

  /** Every other span is: a span in front of the effect that maps to one node is among the anchors. */
  lemma WayIsRead(nx: An.NodeIndex, way: seq<PathSpan>, last: PathSpan, k: nat, node: string)
    requires k < |way| && An.MapInternal(nx, way[k].tag) == An.Mapped(node)
    ensures node in MappedNodes(AnchorsOf(nx, PathSpans(way + [last])))
  {
    hide An.MapInternal;
    assert PathSpans(way + [last]) == way;
    NodesAre(AnchorsOf(nx, way));
    assert AnchorsOf(nx, way)[k] == An.Mapped(node);
  }

  // ---- the site ----

  /** Upstream of an effect: calling, in some number of steps, a function that emits it. */
  lemma UpstreamIs(g: Graph, k: string, x: string)
    ensures Upstream(g, Emitters(g, k), x) <==> exists from :: Emits(g, k, from) && CallsInto(g, x, from)
  {
    hide Emitters, Emits, CallsInto, Callers, Callees;
    EmitterMembers(g, k);
    var next, back := Callees(g.calls, g.nodes), Callers(g.calls, g.nodes);
    forall a, b ensures b in next(a) <==> a in back(b) { CalleesAre(g, a, b); }
    forall a, b ensures Reaches(next, a, b) <==> CallsInto(g, a, b) { ReachesIsCalls(g, a, b); }
    if Upstream(g, Emitters(g, k), x) {
      var e :| e in Emitters(g, k) && Reaches(back, e, x);
      var p :| WalkFromTo(back, p, e, x);
      Backwards(back, next, p);
      assert Emits(g, k, e) && CallsInto(g, x, e);
    }
    if from :| Emits(g, k, from) && CallsInto(g, x, from) {
      var p :| WalkFromTo(next, p, x, from);
      Backwards(next, back, p);
      assert from in Emitters(g, k);
      ConeMember(back, Emitters(g, k), from, x);
    }
  }

  /** A mapped function that no root calls into, and that calls into one of the emitters asked for. */
  ghost predicate CutOff(g: Graph, walked: seq<string>, a: An.Anchor) {
    a.Mapped? && a.node != "" && !RootCone(g, a.node) && Upstream(g, walked, a.node)
  }

  /** The first such on the way is the site. */
  lemma {:induction false} SiteIs(g: Graph, walked: seq<string>, anchors: seq<An.Anchor>)
    ensures var site := FirstSevered(g, walked, anchors);
            || (site == "" && forall i :: 0 <= i < |anchors| ==> !CutOff(g, walked, anchors[i]))
            || exists i :: 0 <= i < |anchors| && anchors[i] == An.Mapped(site) && CutOff(g, walked, anchors[i])
                           && forall j :: 0 <= j < i ==> !CutOff(g, walked, anchors[j])
  {
    hide RootCone, Upstream;
    if anchors != [] {
      var n := |anchors| - 1;
      SiteIs(g, walked, anchors[..n]);
      assert forall i :: 0 <= i < n ==> anchors[..n][i] == anchors[i];
      if FirstSevered(g, walked, anchors[..n]) != "" {
        var i :| 0 <= i < n && anchors[..n][i] == An.Mapped(FirstSevered(g, walked, anchors[..n])) && CutOff(g, walked, anchors[..n][i])
              && forall j :: 0 <= j < i ==> !CutOff(g, walked, anchors[..n][j]);
        assert anchors[i] == An.Mapped(FirstSevered(g, walked, anchors));
      } else if CutOff(g, walked, anchors[n]) {
        assert anchors[n] == An.Mapped(FirstSevered(g, walked, anchors));
      }
    }
  }

  /** The first tag on the way whose function the graph lacks. */
  lemma {:induction false} AbsentIs(anchors: seq<An.Anchor>)
    ensures || (FirstAbsent(anchors) == "" && forall i :: 0 <= i < |anchors| && anchors[i].Absent? ==> anchors[i].tag == "")
            || FirstOfTag(anchors, FirstAbsent(anchors))
  {
    if anchors != [] {
      var n := |anchors| - 1;
      AbsentIs(anchors[..n]);
      assert forall i :: 0 <= i < n ==> anchors[..n][i] == anchors[i];
      if FirstAbsent(anchors[..n]) != "" {
        var i :| 0 <= i < n && anchors[..n][i] == An.Absent(FirstAbsent(anchors[..n]))
              && forall j :: 0 <= j < i && anchors[..n][j].Absent? ==> anchors[..n][j].tag == "";
        assert anchors[i] == An.Absent(FirstAbsent(anchors));
      } else if anchors[n].Absent? && anchors[n].tag != "" {
        assert anchors[n] == An.Absent(FirstAbsent(anchors));
      }
    }
  }

  ghost predicate FirstOfTag(anchors: seq<An.Anchor>, tag: string) {
    tag != "" && exists i :: 0 <= i < |anchors| && anchors[i] == An.Absent(tag)
                             && forall j :: 0 <= j < i && anchors[j].Absent? ==> anchors[j].tag == ""
  }

  /** Any span in front of the effect maps to one node, or to a function the graph lacks. */
  ghost predicate Signalled(nx: An.NodeIndex, path: seq<PathSpan>) {
    exists k :: 0 <= k < |path| - 1 && (An.MapInternal(nx, path[k].tag).Mapped? || An.MapInternal(nx, path[k].tag).Absent?)
  }

  /**
   * The fields of a witness: the site on the way, or else the entry, as function or as text; the entry, the mapped
   * nodes on the way and the emitters as its anchors; and whether the way gave any sign.
   */
  lemma FieldsOfWitness(g: Graph, nx: An.NodeIndex, observed: seq<Observation>, r: Report, i: nat)
    requires Reports(g, nx, observed, r) && i < |r.candidates|
    ensures i < |Contradictions(g, observed, |observed|)|
    ensures var w := r.candidates[i];
            var entry, way := MapEntry(g, w.observed.entry), AnchorsOf(nx, PathSpans(w.observed.path));
            var severed := FirstSevered(g, WalkedFor(g, Contradictions(g, observed, |observed|), i), way);
            && w.severance.site == (if severed != "" then severed else if entry != "" then entry else w.observed.entry)
            && w.severance.anchors == (if entry != "" then [entry] else []) + (MappedNodes(way) + Emitters(g, w.observed.key))
            && w.severance.absent == FirstAbsent(way)
            && (w.severance.precise <==> Signalled(nx, w.observed.path))
  {
    hide Candidate, CoveredCount, InOrder, Live, WalkedFor, MapEntry, Emitters, FirstSevered, AnchorsOf, Reproducible, An.MapInternal, FrontierKnown;
    var list := Contradictions(g, observed, |observed|);
    ContradictionsFacts(g, observed, |observed|);
    assert list[i] in list;
    var w := r.candidates[i];
    assert Explains(g, nx, list, i, w);
    CandidateIsLocalized(g, nx, list[i], w.claim, WalkedFor(g, list, i));
    SignalIs(nx, w.observed.path);
  }

  lemma SignalIs(nx: An.NodeIndex, path: seq<PathSpan>)
    ensures AnySignal(AnchorsOf(nx, PathSpans(path))) <==> Signalled(nx, path)
  {
    hide An.MapInternal;
    var way := PathSpans(path);
    var anchors := AnchorsOf(nx, way);
    if i :| 0 <= i < |anchors| && (anchors[i].Mapped? || anchors[i].Absent?) {
      assert anchors[i] == An.MapInternal(nx, path[i].tag);
    }
    if k :| 0 <= k < |path| - 1 && (An.MapInternal(nx, path[k].tag).Mapped? || An.MapInternal(nx, path[k].tag).Absent?) {
      assert anchors[k] == An.MapInternal(nx, path[k].tag);
    }
  }

  // ---- what static analysis abstains from ----

  /** Not live, and behind a disclosed seam, or not named at all where something unnamed may cover it. */
  ghost predicate Abstained(g: Graph, k: string) {
    !Live(g, k) && (Blind(g, k) || (!Named(g, k) && Covered(g, k)))
  }

  ghost function AbstainedAt(g: Graph, observed: seq<Observation>, n: nat): set<int>
    requires n <= |observed|
  {
    set i | 0 <= i < n && Abstained(g, observed[i].key)
  }

  /** The covered count of a report is the number of such observations. */
  lemma CoveredIsAbstained(g: Graph, nx: An.NodeIndex, observed: seq<Observation>, r: Report)
    requires Reports(g, nx, observed, r)
    ensures r.blindCovered == |AbstainedAt(g, observed, |observed|)|
  {
    hide Reports, CoveredCount, AbstainedAt;
    assert r.blindCovered == CoveredCount(g, observed, |observed|) by { CountOf(g, nx, observed, r); }
    CountIs(g, observed, |observed|);
  }

  lemma CountOf(g: Graph, nx: An.NodeIndex, observed: seq<Observation>, r: Report)
    requires Reports(g, nx, observed, r)
    ensures r.blindCovered == CoveredCount(g, observed, |observed|)
  {
  }

  lemma {:induction false} CountIs(g: Graph, observed: seq<Observation>, n: nat)
    requires n <= |observed|
    ensures CoveredCount(g, observed, n) == |AbstainedAt(g, observed, n)|
  {
    hide Live, Blind, Named, Covered;
    if n == 0 {
      assert AbstainedAt(g, observed, 0) == {};
    } else {
      CountIs(g, observed, n - 1);
      var before := AbstainedAt(g, observed, n - 1);
      assert AbstainedAt(g, observed, n) == before + if Abstained(g, observed[n - 1].key) then {n - 1} else {};
      assert n - 1 !in before;
    }
  }

  // ---- order and identity ----

  function SixFields(o: Observation): seq<string> {
    [o.key, o.flow, o.service, o.entry, o.op, Id.PathSig(o.path)]
  }

  /** Observations, and so witnesses, are ordered by effect, flow, service, entry, operation and path, in byte order. */
  lemma ObservedOrder(a: Observation, b: Observation)
    ensures Id.LessObserved(a, b) <==> FirstDiffers(SixFields(a), SixFields(b))
  {
    hide Id.PathSig, StrLess, BytesBefore;
    var x, y := SixFields(a), SixFields(b);
    forall k: nat | k < 6 ensures StrLess(x[k], y[k]) <==> BytesBefore(x[k], y[k]) { StrLessIff(x[k], y[k]); }
    forall k: nat | k < 6 ensures StrLess(x[k], y[k]) ==> x[k] != y[k] {
      if x[k] == y[k] { StrIrreflexive(x[k]); }
    }
    var k: nat := if x[0] != y[0] then 0 else if x[1] != y[1] then 1 else if x[2] != y[2] then 2
                  else if x[3] != y[3] then 3 else if x[4] != y[4] then 4 else 5;
    assert forall j :: 0 <= j < k ==> x[j] == y[j];
    assert x[..k] == y[..k];
    assert Id.LessObserved(a, b) <==> StrLess(x[k], y[k]);
    if m: nat :| m < 6 && x[..m] == y[..m] && BytesBefore(x[m], y[m]) {
      assert forall j :: 0 <= j < m ==> x[..m][j] == x[j] && y[..m][j] == y[j];
      assert m == k;
    }
  }

  /** On plain names the gate recognizes a witness exactly when it is the same observation. */
  lemma SameWitnessIs(a: Observation, b: Observation)
    requires Id.PlainObservation(a) && Id.PlainObservation(b)
    ensures SameWitness(a, b) <==> a == b
  {
    hide Id.PathSig, Id.PlainPath;
    if SameWitness(a, b) { Id.PathSigInjective(a.path, b.path); }
  }
}
