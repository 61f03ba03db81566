/**
 * Localizing a contradiction: where on the observed path the graph lost the effect, why a candidate
 * always has such a place, and which repairs make the candidate go away.
 */
module Severing {
  import opened Text
  import opened Sorting
  import opened Reach
  import opened Impeach
  import opened Anchoring

  /** One span of a causal path: its operation and its function tag. */
  datatype PathSpan = PathSpan(op: string, tag: string)

  /** One observed effect with its causal path, entry first and the effect itself last. */
  datatype Observation = Observation(key: string, op: string, flow: string, service: string, entry: string, path: seq<PathSpan>)

  datatype Reachability = Unreachable | NoEmitter

  datatype Kind = MissedRoot | SeveredEmitter | UnmodeledEffect | NoSeverance

  datatype Severance = Severance(site: string, kind: Kind, frontierKnown: bool, anchors: seq<string>, precise: bool, absent: string)

  // ---- emitters ----

  /** The family of the key decides which effects are looked at. */
  predicate EmitterOf(e: Effect, k: string) {
    if IsDbKey(k) then e.Db? && EffectKey(e) == k
    else IsBusKey(k) && e.Bus? && e.op == PUBLISH && EffectKey(e) == k
  }

  function EmitterSet(g: Graph, k: string, n: nat): set<string>
    requires n <= |g.effects|
  {
    if n == 0 then {}
    else EmitterSet(g, k, n - 1) + if EmitterOf(g.effects[n - 1], k) then {g.effects[n - 1].from} else {}
  }

  /** The emitters of an effect, sorted and without repetition. */
  ghost function Emitters(g: Graph, k: string): seq<string> {
    InOrder(EmitterSet(g, k, |g.effects|))
  }

  lemma KeyFamilies(e: Effect, k: string)
    ensures EmitterOf(e, k) <==> Joined(e) && EffectKey(e) == k
  {
    if e.Db? && EffectKey(e) == k {
      assert k[..3] == "db ";
    }
    if e.Bus? && e.op == PUBLISH && EffectKey(e) == k {
      assert k[..8] == "PUBLISH ";
      assert k[0] == 'P';
    }
  }

  lemma {:induction false} EmitterSetIff(g: Graph, k: string, n: nat, from: string)
    requires n <= |g.effects|
    ensures from in EmitterSet(g, k, n) <==>
            exists i :: 0 <= i < n && Joined(g.effects[i]) && EffectKey(g.effects[i]) == k && g.effects[i].from == from
  {
    hide EmitterOf, Joined, EffectKey;
    if n > 0 {
      EmitterSetIff(g, k, n - 1, from);
      KeyFamilies(g.effects[n - 1], k);
    }
  }

  /** The emitters the localizer walks from are exactly the ones the join saw. */
  lemma EmitterParity(g: Graph, k: string)
    ensures forall from :: from in EmitterSet(g, k, |g.effects|) <==> Emits(g, k, from)
  {
    hide EmitterSet, Joined, EffectKey;
    forall from ensures from in EmitterSet(g, k, |g.effects|) <==> Emits(g, k, from) {
      EmitterSetIff(g, k, |g.effects|, from);
    }
  }

  /** `staticEmitters`: sorted and without repetition. */
  method StaticEmitters(g: Graph, k: string) returns (out: seq<string>)
    ensures out == Emitters(g, k)
    ensures forall from :: from in out <==> Emits(g, k, from)
  {
    hide InOrder, Emits;
    var seen := {};
    for i := 0 to |g.effects|
      invariant seen == EmitterSet(g, k, i)
    {
      if EmitterOf(g.effects[i], k) {
        seen := seen + {g.effects[i].from};
      }
    }
    out := SortedSet(seen);
    InOrderMembers(seen);
    EmitterParity(g, k);
  }

  // ---- the entry ----

  function EntryName(op: string): string {
    if "HTTP " <= op then op[5..] else if "CONSUME " <= op then op[8..] else ""
  }

  predicate HasEntryPrefix(op: string) {
    "HTTP " <= op || "CONSUME " <= op
  }

  function FirstEntry(eps: seq<Entrypoint>, name: string): string {
    if eps == [] then ""
    else if eps[0].name == name && eps[0].fn != "" then eps[0].fn
    else FirstEntry(eps[1..], name)
  }

  /** `mapEntry`: the handler of the entrypoint the observed entry names, or "". */
  function MapEntry(g: Graph, op: string): string {
    if HasEntryPrefix(op) then FirstEntry(g.entrypoints, EntryName(op)) else ""
  }

  method MapEntryLoop(g: Graph, op: string) returns (fn: string)
    ensures fn == MapEntry(g, op)
  {
    if !HasEntryPrefix(op) {
      return "";
    }
    var name := EntryName(op);
    for i := 0 to |g.entrypoints|
      invariant FirstEntry(g.entrypoints, name) == FirstEntry(g.entrypoints[i..], name)
    {
      assert g.entrypoints[i..][1..] == g.entrypoints[i + 1..];
      var ep := g.entrypoints[i];
      if ep.name == name && ep.fn != "" {
        return ep.fn;
      }
    }
    return "";
  }

  lemma {:induction false} EntryIsNamed(eps: seq<Entrypoint>, name: string)
    requires FirstEntry(eps, name) != ""
    ensures exists i :: 0 <= i < |eps| && eps[i].fn == FirstEntry(eps, name)
  {
    if eps[0].name == name && eps[0].fn != "" {
      assert eps[0].fn == FirstEntry(eps, name);
    } else {
      EntryIsNamed(eps[1..], name);
      var i :| 0 <= i < |eps[1..]| && eps[1..][i].fn == FirstEntry(eps, name);
      assert eps[i + 1].fn == FirstEntry(eps, name);
    }
  }

  /** A discovered entry is one of the roots. */
  lemma EntryIsRoot(g: Graph, op: string)
    requires MapEntry(g, op) != ""
    ensures RootCone(g, MapEntry(g, op))
  {
    hide Callees, Reaches;
    EntryIsNamed(g.entrypoints, EntryName(op));
    var fn := MapEntry(g, op);
    assert fn in NamedFns(g.entrypoints);
    ReachesSelf(Callees(g.calls, g.nodes), fn);
    ConeMember(Callees(g.calls, g.nodes), EntrySeeds(g), fn, fn);
  }

  predicate FrontierKnown(g: Graph, site: string) {
    site != "" && (site in g.blindSpots
                   || exists i :: 0 <= i < |g.markers| && (g.markers[i].site == site || g.markers[i].owner == site))
  }

  // ---- the walk along the observed path ----

  /** The path without the effect span itself. */
  function PathSpans(path: seq<PathSpan>): seq<PathSpan> {
    if |path| <= 1 then [] else path[..|path| - 1]
  }

  function AnchorsOf(nx: NodeIndex, spans: seq<PathSpan>): (r: seq<Anchor>)
    ensures |r| == |spans|
  {
    seq(|spans|, i requires 0 <= i < |spans| => MapInternal(nx, spans[i].tag))
  }

  function MappedNodes(anchors: seq<Anchor>): seq<string> {
    if anchors == [] then []
    else
      var n := |anchors| - 1;
      MappedNodes(anchors[..n]) + if anchors[n].Mapped? then [anchors[n].node] else []
  }

  function FirstAbsent(anchors: seq<Anchor>): string {
    if anchors == [] then ""
    else
      var n := |anchors| - 1;
      var before := FirstAbsent(anchors[..n]);
      if before == "" && anchors[n].Absent? then anchors[n].tag else before
  }

  predicate AnySignal(anchors: seq<Anchor>) {
    exists i :: 0 <= i < |anchors| && (anchors[i].Mapped? || anchors[i].Absent?)
  }

  /** Cut off from every root, but upstream of an emitter. */
  ghost predicate Severed(g: Graph, emitters: seq<string>, n: string) {
    !RootCone(g, n) && Upstream(g, emitters, n)
  }

  ghost function FirstSevered(g: Graph, emitters: seq<string>, anchors: seq<Anchor>): string {
    if anchors == [] then ""
    else
      var n := |anchors| - 1;
      var before := FirstSevered(g, emitters, anchors[..n]);
      if before == "" && anchors[n].Mapped? && Severed(g, emitters, anchors[n].node) then anchors[n].node else before
  }

  // ---- the localization as a whole ----

  function KindOf(discovered: bool, claim: Reachability): Kind {
    if !discovered then MissedRoot else if claim == NoEmitter then UnmodeledEffect else SeveredEmitter
  }

  /** The observed entry reaches an emitter: there is nothing to localize. */
  ghost predicate Reproducible(g: Graph, entry: string, emitters: seq<string>) {
    entry != "" && exists e :: e in emitters && Reaches(Callees(g.calls, g.nodes), entry, e)
  }

  /** The localization when the walk is given what reaches `walked`. */
  ghost function LocalizedFrom(g: Graph, nx: NodeIndex, o: Observation, claim: Reachability, walked: seq<string>): Severance {
    var emitters := Emitters(g, o.key);
    var entry := MapEntry(g, o.entry);
    var anchors := AnchorsOf(nx, PathSpans(o.path));
    if Reproducible(g, entry, emitters) then Severance("", NoSeverance, false, [], AnySignal(anchors), "")
    else
      var severed := FirstSevered(g, walked, anchors);
      var site := if severed != "" then severed else if entry != "" then entry else o.entry;
      Severance(site, KindOf(entry != "", claim), FrontierKnown(g, site),
                (if entry != "" then [entry] else []) + MappedNodes(anchors) + emitters,
                AnySignal(anchors), FirstAbsent(anchors))
  }

  /** The localization of a contradiction: the walk is given what reaches the emitters of its own effect. */
  ghost function Localized(g: Graph, nx: NodeIndex, o: Observation, claim: Reachability): Severance {
    LocalizedFrom(g, nx, o, claim, Emitters(g, o.key))
  }

  // ---- the memo ----

  const NUL := '\U{0000}'

  /** What the memo is keyed by. */
  function MemoKey(emitters: seq<string>): string {
    JoinWith(emitters, NUL)
  }

  ghost predicate Upstream(g: Graph, emitters: seq<string>, x: string) {
    InCone(Callers(g.calls, g.nodes), emitters, x)
  }

  ghost predicate Remembered(asked: seq<seq<string>>, key: string) {
    exists i :: 0 <= i < |asked| && MemoKey(asked[i]) == key
  }

  /** The emitters an answer is really about: the first ones asked for under the same key, or those of the question. */
  ghost function Served(asked: seq<seq<string>>, emitters: seq<string>): seq<string> {
    if asked == [] then emitters
    else if MemoKey(asked[0]) == MemoKey(emitters) then asked[0]
    else Served(asked[1..], emitters)
  }

  lemma RememberedMore(asked: seq<seq<string>>, emitters: seq<string>, key: string)
    ensures Remembered(asked + [emitters], key) <==> Remembered(asked, key) || MemoKey(emitters) == key
  {
    hide MemoKey;
    var more := asked + [emitters];
    assert more[|asked|] == emitters;
    if Remembered(asked, key) {
      var i :| 0 <= i < |asked| && MemoKey(asked[i]) == key;
      assert more[i] == asked[i];
    }
  }

  lemma {:induction false} ServedMore(asked: seq<seq<string>>, emitters: seq<string>, es: seq<string>)
    ensures !Remembered(asked, MemoKey(es)) ==> Served(asked, es) == es
    ensures Served(asked + [emitters], es) ==
            if Remembered(asked, MemoKey(es)) || MemoKey(emitters) != MemoKey(es) then Served(asked, es) else emitters
  {
    hide MemoKey;
    if asked == [] {
      assert (asked + [emitters])[1..] == [];
    } else {
      ServedMore(asked[1..], emitters, es);
      assert (asked + [emitters])[1..] == asked[1..] + [emitters];
      assert Remembered(asked, MemoKey(es)) <==> MemoKey(asked[0]) == MemoKey(es) || Remembered(asked[1..], MemoKey(es)) by {
        RememberedFirst(asked, MemoKey(es));
      }
    }
  }

  lemma RememberedFirst(asked: seq<seq<string>>, key: string)
    requires asked != []
    ensures Remembered(asked, key) <==> MemoKey(asked[0]) == key || Remembered(asked[1..], key)
  {
    hide MemoKey;
    if Remembered(asked[1..], key) {
      var i :| 0 <= i < |asked[1..]| && MemoKey(asked[1..][i]) == key;
      assert asked[i + 1] == asked[1..][i];
    }
    assert forall i :: 0 < i < |asked| ==> asked[i] == asked[1..][i - 1];
  }

  /** The questions a run over some effects puts to the memo. */
  ghost function AskedFor(g: Graph, keys: seq<string>): (r: seq<seq<string>>)
    ensures |r| == |keys| && forall i :: 0 <= i < |keys| ==> r[i] == Emitters(g, keys[i])
  {
    seq(|keys|, i requires 0 <= i < |keys| => Emitters(g, keys[i]))
  }

  /** Effects whose emitters have one key are upstream of the same functions. */
  ghost predicate KeysTell(g: Graph) {
    forall k, l, x :: MemoKey(Emitters(g, k)) == MemoKey(Emitters(g, l)) ==>
                        (Upstream(g, Emitters(g, k), x) <==> Upstream(g, Emitters(g, l), x))
  }

  /** Whatever was asked before, every effect is answered with what reaches its own emitters. */
  ghost predicate MemoSound(g: Graph) {
    forall keys, k, x :: Upstream(g, Served(AskedFor(g, keys), Emitters(g, k)), x) <==> Upstream(g, Emitters(g, k), x)
  }

  lemma {:induction false} ServedIsAsked(asked: seq<seq<string>>, emitters: seq<string>)
    ensures MemoKey(Served(asked, emitters)) == MemoKey(emitters)
    ensures Served(asked, emitters) == emitters || Served(asked, emitters) in asked
  {
    hide MemoKey;
    if asked != [] { ServedIsAsked(asked[1..], emitters); }
  }

  /** The memo is sound exactly when its keys tell effects apart as far as it matters. */
  lemma MemoSoundIff(g: Graph)
    ensures MemoSound(g) <==> KeysTell(g)
  {
    hide MemoKey, Upstream, Emitters;
    if KeysTell(g) {
      forall keys, k, x ensures Upstream(g, Served(AskedFor(g, keys), Emitters(g, k)), x) <==> Upstream(g, Emitters(g, k), x) {
        var asked := AskedFor(g, keys);
        ServedIsAsked(asked, Emitters(g, k));
        if Served(asked, Emitters(g, k)) in asked {
          var i :| 0 <= i < |asked| && asked[i] == Served(asked, Emitters(g, k));
          assert asked[i] == Emitters(g, keys[i]);
        }
      }
    }
    if MemoSound(g) {
      forall k, l, x | MemoKey(Emitters(g, k)) == MemoKey(Emitters(g, l))
        ensures Upstream(g, Emitters(g, k), x) <==> Upstream(g, Emitters(g, l), x)
      {
        assert AskedFor(g, [k])[0] == Emitters(g, k);
        assert Served(AskedFor(g, [k]), Emitters(g, l)) == Emitters(g, k);
      }
    }
  }

  /** Graphs as they are built: every emitter has a name, and no name holds the separator. */
  predicate NamedEmitters(g: Graph) {
    forall i :: 0 <= i < |g.effects| ==> g.effects[i].from != "" && NUL !in g.effects[i].from
  }

  lemma NamedEmittersTell(g: Graph)
    requires NamedEmitters(g)
    ensures KeysTell(g)
  {
    hide Emitters, Upstream;
    forall k, l | MemoKey(Emitters(g, k)) == MemoKey(Emitters(g, l)) ensures Emitters(g, k) == Emitters(g, l) {
      EmittersNamed(g, k);
      EmittersNamed(g, l);
      SameKey(Emitters(g, k), Emitters(g, l));
    }
  }

  lemma EmittersNamed(g: Graph, k: string)
    requires NamedEmitters(g)
    ensures forall i :: 0 <= i < |Emitters(g, k)| ==> Emitters(g, k)[i] != "" && NUL !in Emitters(g, k)[i]
  {
    hide InOrder, EmitterSet, Joined, EffectKey;
    var es := Emitters(g, k);
    InOrderMembers(EmitterSet(g, k, |g.effects|));
    EmitterParity(g, k);
    forall i | 0 <= i < |es| ensures es[i] != "" && NUL !in es[i] { assert Emits(g, k, es[i]); }
  }

  lemma SameKey(a: seq<string>, b: seq<string>)
    requires MemoKey(a) == MemoKey(b)
    requires forall i :: 0 <= i < |a| ==> a[i] != "" && NUL !in a[i]
    requires forall i :: 0 <= i < |b| ==> b[i] != "" && NUL !in b[i]
    ensures a == b
  {
    if a != [] && b != [] {
      JoinInjective(a, b, NUL);
    } else {
      assert a != [] ==> MemoKey(a) != "";
      assert b != [] ==> MemoKey(b) != "";
    }
  }

  /** One event published by a function whose name holds the separator, another by two functions. */
  function TwoEvents(): Graph {
    Graph([], {}, [], [Bus(PUBLISH, "x", "a" + [NUL] + "b"), Bus(PUBLISH, "y", "a"), Bus(PUBLISH, "y", "b")], 0, 0, [], [])
  }

  lemma SharedKey()
    ensures !KeysTell(TwoEvents()) && !MemoSound(TwoEvents())
  {
    hide Emitters, Emits, Reaches, Callers, JoinWith;
    var g, joined := TwoEvents(), "a" + [NUL] + "b";
    EventEmitters();
    assert Emitters(g, "PUBLISH x") == [joined] by { EmittersAre(g, "PUBLISH x", [joined]); }
    assert Emitters(g, "PUBLISH y") == ["a", "b"] by { EmittersAre(g, "PUBLISH y", ["a", "b"]); }
    OneText();
    ReachesSelf(Callers(g.calls, g.nodes), "a");
    assert Upstream(g, ["a", "b"], "a") by { assert "a" in ["a", "b"]; }
    assert !Upstream(g, [joined], "a") by { NoCallers(joined, "a"); }
    MemoSoundIff(g);
  }

  lemma OneText()
    ensures MemoKey(["a" + [NUL] + "b"]) == MemoKey(["a", "b"])
  {
    assert ["a", "b"][1..] == ["b"];
  }

  lemma EventEmitters()
    ensures forall from :: Emits(TwoEvents(), "PUBLISH x", from) <==> from in ["a" + [NUL] + "b"]
    ensures forall from :: Emits(TwoEvents(), "PUBLISH y", from) <==> from in ["a", "b"]
  {
    var g := TwoEvents();
    assert EffectKey(g.effects[0]) == "PUBLISH x" && EffectKey(g.effects[1]) == EffectKey(g.effects[2]) == "PUBLISH y";
    assert "PUBLISH x"[8] != "PUBLISH y"[8];
  }

  lemma FirstStep(next: Step, p: seq<string>)
    requires IsWalk(next, p) && |p| > 1
    ensures p[1] in next(p[0])
  {
    assert forall i :: 0 <= i < |p| - 1 ==> p[i + 1] in next(p[i]);
  }

  /** Nothing calls anything. */
  lemma NoCallers(from: string, x: string)
    ensures Reaches(Callers({}, []), from, x) ==> x == from
  {
    var next := Callers({}, []);
    forall p | IsWalk(next, p) ensures |p| == 1 {
      if |p| > 1 {
        FirstStep(next, p);
        assert false;
      }
    }
  }

  lemma EmittersAre(g: Graph, k: string, es: seq<string>)
    requires (forall from :: from in es <==> Emits(g, k, from)) && Distinct(es) && Sorted(es, StrLess)
    ensures Emitters(g, k) == es
  {
    hide InOrder, EmitterSet, Emits;
    EmitterParity(g, k);
    assert ToSet(es) == EmitterSet(g, k, |g.effects|);
    SortedKeys(es);
    SortedStays(es, StrLess);
  }

  /** The state the walk shares across candidates; `emitReach` remembers what reaches which emitters. */
  class Localizer {
    const g: Graph
    var nx: NodeIndex
    var rootReach: set<string>
    var emitReach: map<string, set<string>>
    /** The emitters asked for so far. */
    ghost var asked: seq<seq<string>>

    ghost predicate Valid()
      reads this
    {
      && Indexes(nx, g.nodes)
      && (forall x :: x in rootReach <==> RootCone(g, x))
      && (forall key :: key in emitReach <==> Remembered(asked, key))
      && (forall es, x :: MemoKey(es) in emitReach ==> (x in emitReach[MemoKey(es)] <==> Upstream(g, Served(asked, es), x)))
    }

    constructor (graph: Graph)
      ensures Valid() && g == graph && asked == []
    {
      g := graph;
      emitReach, asked := map[], [];
      nx, rootReach := map[], {};
      new;
      hide RootCone, Indexes, InCone;
      nx := BuildNodeIndex(graph.nodes);
      var roots := RootReachOf(graph);
      rootReach := roots;
    }

    /** `reachesEmitterSet`: the reverse walk runs once per key; what it found answers every later question under it. */
    method ReachesEmitterSet(emitters: seq<string>) returns (m: set<string>)
      requires Valid()
      modifies this`emitReach, this`asked
      ensures Valid() && asked == old(asked) + [emitters]
      ensures forall x :: x in m <==> Upstream(g, Served(old(asked), emitters), x)
    {
      hide RootCone, Indexes, InCone, Callers, MemoKey, Served, Remembered;
      var key := MemoKey(emitters);
      ghost var before := asked;
      forall k ensures Remembered(before + [emitters], k) <==> Remembered(before, k) || key == k { RememberedMore(before, emitters, k); }
      forall es
        ensures !Remembered(before, MemoKey(es)) ==> Served(before, es) == es
        ensures Served(before + [emitters], es) ==
                if Remembered(before, MemoKey(es)) || key != MemoKey(es) then Served(before, es) else emitters
      {
        ServedMore(before, emitters, es);
      }
      asked := before + [emitters];
      if key in emitReach {
        return emitReach[key];
      }
      CalleesBounded(g.calls, g.nodes);
      m := ConeOf(Callers(g.calls, g.nodes), Functions(g.calls), emitters);
      emitReach := emitReach[key := m];
    }

    /** `walkL1`: the first mapped span that is severed, and every other signal on the path. */
    method WalkL1(path: seq<PathSpan>, emitters: seq<string>)
      returns (site: string, nodes: seq<string>, absent: string, precise: bool)
      requires Valid()
      modifies this`emitReach, this`asked
      ensures Valid() && asked == old(asked) + [emitters]
      ensures var anchors := AnchorsOf(nx, PathSpans(path));
              && site == FirstSevered(g, Served(old(asked), emitters), anchors) && nodes == MappedNodes(anchors)
              && absent == FirstAbsent(anchors) && (precise <==> AnySignal(anchors))
    {
      hide RootCone, Indexes, InCone, Callers, MapInternal, MemoKey, Served, Remembered;
      var spans := PathSpans(path);
      ghost var anchors, walked := AnchorsOf(nx, spans), Served(asked, emitters);
      var reaches := ReachesEmitterSet(emitters);
      ghost var now := asked;
      site, nodes, absent, precise := "", [], "", false;
      for i := 0 to |spans|
        invariant Valid() && asked == now
        invariant site == FirstSevered(g, walked, anchors[..i]) && nodes == MappedNodes(anchors[..i])
        invariant absent == FirstAbsent(anchors[..i])
        invariant precise <==> exists j :: 0 <= j < i && (anchors[j].Mapped? || anchors[j].Absent?)
      {
        assert anchors[..i + 1][..i] == anchors[..i];
        var a := MapInternal(nx, spans[i].tag);
        assert a == anchors[i];
        if a.Mapped? {
          precise := true;
          nodes := nodes + [a.node];
          if site == "" && a.node !in rootReach && a.node in reaches {
            site := a.node;
          }
        } else if a.Absent? {
          precise := true;
          if absent == "" {
            absent := a.tag;
          }
        }
      }
      assert anchors[..|spans|] == anchors;
    }

    /** `localize`. */
    method Localize(o: Observation, claim: Reachability) returns (sev: Severance, discovered: bool, ok: bool)
      requires Valid()
      modifies this`emitReach, this`asked
      ensures Valid() && asked == old(asked) + [Emitters(g, o.key)]
      ensures sev == LocalizedFrom(g, nx, o, claim, Served(old(asked), Emitters(g, o.key)))
      ensures discovered <==> MapEntry(g, o.entry) != ""
      ensures ok <==> sev.kind != NoSeverance
    {
      hide RootCone, Indexes, Callers, FirstSevered, MappedNodes, FirstAbsent, AnySignal, Emitters, MapEntry, AnchorsOf;
      hide MemoKey, Served, Remembered, Upstream;
      var emitters := StaticEmitters(g, o.key);
      var entryFn := MapEntryLoop(g, o.entry);
      discovered := entryFn != "";
      var severed, nodes, absent, precise := WalkL1(o.path, emitters);
      if discovered && |emitters| > 0 {
        var hit := EntryHits(g, entryFn, emitters);
        if hit {
          return Severance("", NoSeverance, false, [], precise, ""), discovered, false;
        }
      }
      var site := severed;
      if site == "" {
        site := if discovered then entryFn else o.entry;
      }
      sev := Severance(site, KindOf(discovered, claim), FrontierKnown(g, site),
                       (if discovered then [entryFn] else []) + nodes + emitters, precise, absent);
      ok := true;
    }
  }

  method RootReachOf(g: Graph) returns (roots: set<string>)
    ensures forall x :: x in roots <==> RootCone(g, x)
  {
    hide InCone;
    CalleesBounded(g.calls, g.nodes);
    roots := ConeOf(Callees(g.calls, g.nodes), Functions(g.calls), EntrySeeds(g));
  }

  /** The proof obligation's own search: does the entry reach an emitter? */
  method EntryHits(g: Graph, entry: string, emitters: seq<string>) returns (hit: bool)
    ensures hit <==> exists e :: e in emitters && Reaches(Callees(g.calls, g.nodes), entry, e)
  {
    hide Callees, Reaches;
    CalleesBounded(g.calls, g.nodes);
    var cone := ConeOf(Callees(g.calls, g.nodes), Functions(g.calls), [entry]);
    hit := false;
    for i := 0 to |emitters|
      invariant hit <==> exists j :: 0 <= j < i && Reaches(Callees(g.calls, g.nodes), entry, emitters[j])
    {
      OneSeed(Callees(g.calls, g.nodes), entry, emitters[i]);
      if emitters[i] in cone {
        hit := true;
      }
    }
    assert forall j :: 0 <= j < |emitters| ==> emitters[j] in emitters;
  }

  lemma OneSeed(next: Step, s: string, x: string)
    ensures InCone(next, [s], x) <==> Reaches(next, s, x)
  {
    hide Reaches;
    if Reaches(next, s, x) { assert s in [s]; }
  }
}
