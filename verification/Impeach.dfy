/**
 * The join of a static call graph with observed effects: which effects are live, which lie behind a
 * disclosed seam, and which contradict the graph.
 */
module Impeach {
  import opened Sorting
  import opened Reach
  import T = SqlTokens

  // ---- the graph ----

  datatype Entrypoint = Entrypoint(name: string, fn: string)

  /** A decoded boundary effect and the function that causes it. */
  datatype Effect = Bus(op: string, event: string, from: string) | Db(op: string, table: string, from: string)

  datatype Marker = Marker(site: string, owner: string)

  /** `busDynamic` and `dbUnreadable` count the effects the graph could not name. */
  datatype Graph = Graph(
    nodes: seq<string>,
    calls: set<(string, string)>,
    entrypoints: seq<Entrypoint>,
    effects: seq<Effect>,
    busDynamic: nat,
    dbUnreadable: nat,
    markers: seq<Marker>,
    blindSpots: seq<string>
  )

  /** Only calls into a known function are followed. */
  function Callees(calls: set<(string, string)>, nodes: seq<string>): Step {
    (x: string) => set c | c in calls && c.0 == x && c.1 in nodes :: c.1
  }

  function Callers(calls: set<(string, string)>, nodes: seq<string>): Step {
    (y: string) => set c | c in calls && c.1 == y && c.1 in nodes :: c.0
  }

  function Functions(calls: set<(string, string)>): set<string> {
    (set c | c in calls :: c.0) + (set c | c in calls :: c.1)
  }

  // ---- cones ----

  /** A seed, or reachable from one. */
  ghost predicate InCone(next: Step, seeds: seq<string>, x: string) {
    exists s :: s in seeds && Reaches(next, s, x)
  }

  lemma ConeMember(next: Step, seeds: seq<string>, s: string, x: string)
    requires s in seeds && Reaches(next, s, x)
    ensures InCone(next, seeds, x)
  {
  }

  lemma ConeSplits(next: Step, seeds: seq<string>, x: string)
    ensures InCone(next, seeds, x) <==> x in seeds || ReachedFrom(next, seeds, x)
  {
    if InCone(next, seeds, x) && x !in seeds {
      var s :| s in seeds && Reaches(next, s, x);
      var p :| WalkFromTo(next, p, s, x);
      assert |p| > 1 && p[1] in next(p[0]);
      assert WalkFromTo(next, p[1..], p[1], x);
      assert Reaches(next, p[1], x);
      assert ReachedFrom(next, seeds, x);
    }
    if ReachedFrom(next, seeds, x) {
      var s, t :| s in seeds && t in next(s) && Reaches(next, t, x);
      ReachesSelf(next, s);
      ReachesStep(next, s, s, t);
      ReachesTrans(next, s, t, x);
      ConeMember(next, seeds, s, x);
    }
    if x in seeds {
      ReachesSelf(next, x);
      ConeMember(next, seeds, x, x);
    }
  }

  /** `reachSetOf`, and its mirror over the callers. */
  method ConeOf(next: Step, universe: set<string>, seeds: seq<string>) returns (cone: set<string>)
    requires forall x :: next(x) <= universe
    ensures forall x :: x in cone <==> InCone(next, seeds, x)
  {
    hide InCone, ReachedFrom;
    cone := Walk(next, universe, seeds);
    forall x { ConeSplits(next, seeds, x); }
    cone := cone + ToSet(seeds);
  }

  function NamedFns(eps: seq<Entrypoint>): (r: seq<string>)
    ensures forall x :: x in r <==> x != "" && exists i :: 0 <= i < |eps| && eps[i].fn == x
  {
    if eps == [] then []
    else
      var n := |eps| - 1;
      NamedFns(eps[..n]) + if eps[n].fn != "" then [eps[n].fn] else []
  }

  /** Functions nobody calls. */
  function Sources(g: Graph, n: nat): (r: seq<string>)
    requires n <= |g.nodes|
    ensures forall x :: x in r ==> x in g.nodes
  {
    if n == 0 then []
    else Sources(g, n - 1) + if Callers(g.calls, g.nodes)(g.nodes[n - 1]) == {} then [g.nodes[n - 1]] else []
  }

  /** The discovered roots: named entry functions, or the caller-less ones when none is named. */
  function EntrySeeds(g: Graph): seq<string> {
    if NamedFns(g.entrypoints) == [] then Sources(g, |g.nodes|) else NamedFns(g.entrypoints)
  }

  function MarkerSeeds(g: Graph, n: nat): seq<string>
    requires n <= |g.markers|
  {
    if n == 0 then []
    else
      var m := g.markers[n - 1];
      MarkerSeeds(g, n - 1) + (if m.site in g.nodes then [m.site] else []) + (if m.owner in g.nodes then [m.owner] else [])
  }

  function Known(sites: seq<string>, nodes: seq<string>): (r: seq<string>)
    ensures forall x :: x in r <==> x in sites && x in nodes
  {
    if sites == [] then []
    else
      var n := |sites| - 1;
      assert sites == sites[..n] + [sites[n]];
      Known(sites[..n], nodes) + if sites[n] in nodes then [sites[n]] else []
  }

  /** Everything an effect may hang from without the graph having denied it. */
  function SeamSeeds(g: Graph): seq<string> {
    EntrySeeds(g) + MarkerSeeds(g, |g.markers|) + Known(g.blindSpots, g.nodes)
  }

  ghost predicate RootCone(g: Graph, x: string) {
    InCone(Callees(g.calls, g.nodes), EntrySeeds(g), x)
  }

  ghost predicate SeamCone(g: Graph, x: string) {
    InCone(Callees(g.calls, g.nodes), SeamSeeds(g), x)
  }

  // ---- effect keys ----

  const PUBLISH := "PUBLISH"

  /** Only what a flow causes is joined: publishes and database operations. */
  predicate Joined(e: Effect) {
    e.Db? || e.op == PUBLISH
  }

  function EffectKey(e: Effect): string {
    match e
    case Bus(_, event, _) => PUBLISH + " " + event
    case Db(op, table, _) => "db " + T.Upper(op) + " " + table
  }

  predicate IsBusKey(k: string) {
    "PUBLISH " <= k || "CONSUME " <= k
  }

  predicate IsDbKey(k: string) {
    "db " <= k
  }

  predicate Emits(g: Graph, k: string, from: string) {
    exists i :: 0 <= i < |g.effects| && Joined(g.effects[i]) && EffectKey(g.effects[i]) == k && g.effects[i].from == from
  }

  predicate Named(g: Graph, k: string) {
    exists i :: 0 <= i < |g.effects| && Joined(g.effects[i]) && EffectKey(g.effects[i]) == k
  }

  /** Some emitter is reachable from a root. */
  ghost predicate Live(g: Graph, k: string) {
    exists from :: Emits(g, k, from) && RootCone(g, from)
  }

  /** Some emitter, out of reach of the roots, is reachable across a disclosed seam. */
  ghost predicate Blind(g: Graph, k: string) {
    exists from :: Emits(g, k, from) && !RootCone(g, from) && SeamCone(g, from)
  }

  /** An effect without an emitter that an unnamed emitter of its family may cover. */
  predicate Covered(g: Graph, k: string) {
    (IsBusKey(k) && g.busDynamic > 0) || (IsDbKey(k) && g.dbUnreadable > 0)
  }

  /** An observed effect with this key contradicts the graph. */
  ghost predicate Candidate(g: Graph, k: string) {
    !Live(g, k) && !Blind(g, k) && (Named(g, k) || !Covered(g, k))
  }

  /** `staticEffectSets`: the three key sets of the join. */
  method StaticEffectSets(g: Graph) returns (named: set<string>, reachable: set<string>, blind: set<string>)
    ensures forall k :: k in named <==> Named(g, k)
    ensures forall k :: k in reachable <==> Live(g, k)
    ensures forall k :: k in blind <==> Blind(g, k)
  {
    hide RootCone, SeamCone;
    var reachSet, seamReach := Cones(g);
    named, reachable, blind := {}, {}, {};
    for i := 0 to |g.effects|
      invariant forall k :: k in named <==> NamedUpTo(g, i, k)
      invariant forall k :: k in reachable <==> LiveUpTo(g, i, k)
      invariant forall k :: k in blind <==> BlindUpTo(g, i, k)
    {
      var e := g.effects[i];
      EffectStep(g, i);
      if Joined(e) {
        var key := EffectKey(e);
        named := named + {key};
        if e.from in reachSet {
          reachable := reachable + {key};
        } else if e.from in seamReach {
          blind := blind + {key};
        }
      }
    }
    EffectsDone(g);
  }

  method Cones(g: Graph) returns (reachSet: set<string>, seamReach: set<string>)
    ensures forall x :: x in reachSet <==> RootCone(g, x)
    ensures forall x :: x in seamReach <==> SeamCone(g, x)
  {
    hide EntrySeeds, SeamSeeds;
    CalleesBounded(g.calls, g.nodes);
    reachSet := ConeOf(Callees(g.calls, g.nodes), Functions(g.calls), EntrySeeds(g));
    seamReach := ConeOf(Callees(g.calls, g.nodes), Functions(g.calls), SeamSeeds(g));
  }

  lemma CalleesBounded(calls: set<(string, string)>, nodes: seq<string>)
    ensures forall x :: Callees(calls, nodes)(x) <= Functions(calls)
    ensures forall x :: Callers(calls, nodes)(x) <= Functions(calls)
  {
  }

  predicate NamedUpTo(g: Graph, n: nat, k: string)
    requires n <= |g.effects|
  {
    exists i :: 0 <= i < n && Joined(g.effects[i]) && EffectKey(g.effects[i]) == k
  }

  ghost predicate LiveUpTo(g: Graph, n: nat, k: string)
    requires n <= |g.effects|
  {
    exists i :: 0 <= i < n && Joined(g.effects[i]) && EffectKey(g.effects[i]) == k && RootCone(g, g.effects[i].from)
  }

  ghost predicate BlindUpTo(g: Graph, n: nat, k: string)
    requires n <= |g.effects|
  {
    exists i :: 0 <= i < n && Joined(g.effects[i]) && EffectKey(g.effects[i]) == k
                && !RootCone(g, g.effects[i].from) && SeamCone(g, g.effects[i].from)
  }

  lemma EffectStep(g: Graph, n: nat)
    requires n < |g.effects|
    ensures forall k :: NamedUpTo(g, n + 1, k) <==> NamedUpTo(g, n, k) || (Joined(g.effects[n]) && EffectKey(g.effects[n]) == k)
    ensures forall k :: LiveUpTo(g, n + 1, k) <==>
              LiveUpTo(g, n, k) || (Joined(g.effects[n]) && EffectKey(g.effects[n]) == k && RootCone(g, g.effects[n].from))
    ensures forall k :: BlindUpTo(g, n + 1, k) <==>
              BlindUpTo(g, n, k) || (Joined(g.effects[n]) && EffectKey(g.effects[n]) == k
                                     && !RootCone(g, g.effects[n].from) && SeamCone(g, g.effects[n].from))
  {
    hide NamedUpTo, LiveUpTo, BlindUpTo, RootCone, SeamCone, EffectKey, Joined;
    forall k ensures NamedUpTo(g, n + 1, k) <==> NamedUpTo(g, n, k) || (Joined(g.effects[n]) && EffectKey(g.effects[n]) == k) {
      NamedStep(g, n, k);
    }
    forall k ensures LiveUpTo(g, n + 1, k) <==>
               LiveUpTo(g, n, k) || (Joined(g.effects[n]) && EffectKey(g.effects[n]) == k && RootCone(g, g.effects[n].from)) {
      LiveStep(g, n, k);
    }
    forall k ensures BlindUpTo(g, n + 1, k) <==>
               BlindUpTo(g, n, k) || (Joined(g.effects[n]) && EffectKey(g.effects[n]) == k
                                      && !RootCone(g, g.effects[n].from) && SeamCone(g, g.effects[n].from)) {
      BlindStep(g, n, k);
    }
  }

  lemma NamedStep(g: Graph, n: nat, k: string)
    requires n < |g.effects|
    ensures NamedUpTo(g, n + 1, k) <==> NamedUpTo(g, n, k) || (Joined(g.effects[n]) && EffectKey(g.effects[n]) == k)
  {
    hide EffectKey, Joined;
  }

  lemma LiveStep(g: Graph, n: nat, k: string)
    requires n < |g.effects|
    ensures LiveUpTo(g, n + 1, k) <==>
              LiveUpTo(g, n, k) || (Joined(g.effects[n]) && EffectKey(g.effects[n]) == k && RootCone(g, g.effects[n].from))
  {
    hide RootCone, EffectKey, Joined;
  }

  lemma BlindStep(g: Graph, n: nat, k: string)
    requires n < |g.effects|
    ensures BlindUpTo(g, n + 1, k) <==>
              BlindUpTo(g, n, k) || (Joined(g.effects[n]) && EffectKey(g.effects[n]) == k
                                     && !RootCone(g, g.effects[n].from) && SeamCone(g, g.effects[n].from))
  {
    hide RootCone, SeamCone, EffectKey, Joined;
  }

  lemma EffectsDone(g: Graph)
    ensures forall k :: NamedUpTo(g, |g.effects|, k) <==> Named(g, k)
    ensures forall k :: LiveUpTo(g, |g.effects|, k) <==> Live(g, k)
    ensures forall k :: BlindUpTo(g, |g.effects|, k) <==> Blind(g, k)
  {
    hide RootCone, SeamCone, EffectKey, Joined;
    forall k ensures LiveUpTo(g, |g.effects|, k) <==> Live(g, k) {
      if LiveUpTo(g, |g.effects|, k) {
        var i :| 0 <= i < |g.effects| && Joined(g.effects[i]) && EffectKey(g.effects[i]) == k && RootCone(g, g.effects[i].from);
        assert Emits(g, k, g.effects[i].from);
      }
    }
    forall k ensures BlindUpTo(g, |g.effects|, k) <==> Blind(g, k) {
      if BlindUpTo(g, |g.effects|, k) {
        var i :| 0 <= i < |g.effects| && Joined(g.effects[i]) && EffectKey(g.effects[i]) == k
                 && !RootCone(g, g.effects[i].from) && SeamCone(g, g.effects[i].from);
        assert Emits(g, k, g.effects[i].from);
      }
    }
  }

  // ---- what a blind spot changes ----

  function WithBlindSpot(g: Graph, site: string): Graph {
    g.(blindSpots := g.blindSpots + [site])
  }

  lemma SameRoots(g: Graph, site: string)
    ensures EntrySeeds(WithBlindSpot(g, site)) == EntrySeeds(g)
    ensures MarkerSeeds(WithBlindSpot(g, site), |g.markers|) == MarkerSeeds(g, |g.markers|)
  {
    SameSources(g, site, |g.nodes|);
    SameMarkers(g, site, |g.markers|);
  }

  lemma {:induction false} SameSources(g: Graph, site: string, n: nat)
    requires n <= |g.nodes|
    ensures Sources(WithBlindSpot(g, site), n) == Sources(g, n)
  {
    if n > 0 { SameSources(g, site, n - 1); }
  }

  lemma {:induction false} SameMarkers(g: Graph, site: string, n: nat)
    requires n <= |g.markers|
    ensures MarkerSeeds(WithBlindSpot(g, site), n) == MarkerSeeds(g, n)
  {
    if n > 0 { SameMarkers(g, site, n - 1); }
  }

  /** The seam cone grows by what the new site reaches, and by nothing else. */
  lemma SeamConeGrows(g: Graph, site: string, x: string)
    ensures RootCone(WithBlindSpot(g, site), x) <==> RootCone(g, x)
    ensures SeamCone(WithBlindSpot(g, site), x) <==>
            SeamCone(g, x) || (site in g.nodes && Reaches(Callees(g.calls, g.nodes), site, x))
  {
    hide EntrySeeds, MarkerSeeds, Reaches, Callees;
    var h, next := WithBlindSpot(g, site), Callees(g.calls, g.nodes);
    SameRoots(g, site);
    assert forall s :: s in SeamSeeds(h) <==> s in SeamSeeds(g) || (s == site && site in g.nodes);
    if SeamCone(g, x) {
      var s :| s in SeamSeeds(g) && Reaches(next, s, x);
      ConeMember(next, SeamSeeds(h), s, x);
    }
    if site in g.nodes && Reaches(next, site, x) {
      ConeMember(next, SeamSeeds(h), site, x);
    }
    if SeamCone(h, x) {
      var s :| s in SeamSeeds(h) && Reaches(next, s, x);
      if s in SeamSeeds(g) { ConeMember(next, SeamSeeds(g), s, x); }
    }
  }

  /** Some emitter of `k` can be reached from the site. */
  ghost predicate Leads(g: Graph, site: string, k: string) {
    exists from :: Emits(g, k, from) && Reaches(Callees(g.calls, g.nodes), site, from)
  }

  /**
   * A blind spot is monotone: live effects stay exactly the same, and candidates can only disappear.
   * A candidate disappears exactly when the site is a function that leads to one of its emitters.
   */
  lemma BlindSpotMonotone(g: Graph, site: string, k: string)
    ensures Live(WithBlindSpot(g, site), k) <==> Live(g, k)
    ensures Blind(g, k) ==> Blind(WithBlindSpot(g, site), k)
    ensures Candidate(WithBlindSpot(g, site), k) <==> Candidate(g, k) && !(site in g.nodes && Leads(g, site, k))
  {
    hide RootCone, SeamCone, Reaches, Callees, Covered;
    var h := WithBlindSpot(g, site);
    forall x ensures RootCone(h, x) <==> RootCone(g, x)
             ensures SeamCone(h, x) <==> SeamCone(g, x) || (site in g.nodes && Reaches(Callees(g.calls, g.nodes), site, x)) {
      SeamConeGrows(g, site, x);
    }
    forall from ensures Emits(h, k, from) <==> Emits(g, k, from) {
      SameEffects(g, site, k, from);
    }
    assert Named(h, k) <==> Named(g, k);
    assert Covered(h, k) <==> Covered(g, k) by { SameCover(g, site, k); }
    LiveAfter(g, h, k);
    BlindAfter(g, h, site, k);
  }

  lemma SameCover(g: Graph, site: string, k: string)
    ensures Covered(WithBlindSpot(g, site), k) <==> Covered(g, k)
  {
  }

  lemma SameEffects(g: Graph, site: string, k: string, from: string)
    ensures Emits(WithBlindSpot(g, site), k, from) <==> Emits(g, k, from)
  {
  }

  lemma LiveAfter(g: Graph, h: Graph, k: string)
    requires forall x :: RootCone(h, x) <==> RootCone(g, x)
    requires forall from :: Emits(h, k, from) <==> Emits(g, k, from)
    ensures Live(h, k) <==> Live(g, k)
  {
    hide RootCone, Emits;
    if Live(g, k) { var from :| Emits(g, k, from) && RootCone(g, from); assert Emits(h, k, from); }
    if Live(h, k) { var from :| Emits(h, k, from) && RootCone(h, from); assert Emits(g, k, from); }
  }

  lemma BlindAfter(g: Graph, h: Graph, site: string, k: string)
    requires h == WithBlindSpot(g, site)
    requires forall x :: RootCone(h, x) <==> RootCone(g, x)
    requires forall x :: SeamCone(h, x) <==> SeamCone(g, x) || (site in g.nodes && Reaches(Callees(g.calls, g.nodes), site, x))
    requires forall from :: Emits(h, k, from) <==> Emits(g, k, from)
    ensures Blind(g, k) ==> Blind(h, k)
    ensures !Live(g, k) ==> (Blind(h, k) <==> Blind(g, k) || (site in g.nodes && Leads(g, site, k)))
  {
    hide RootCone, SeamCone, Emits, Reaches, Callees;
    if Blind(g, k) {
      var from :| Emits(g, k, from) && !RootCone(g, from) && SeamCone(g, from);
      assert Emits(h, k, from);
    }
    if Blind(h, k) {
      var from :| Emits(h, k, from) && !RootCone(h, from) && SeamCone(h, from);
      assert Emits(g, k, from);
    }
    if !Live(g, k) && site in g.nodes && Leads(g, site, k) {
      var from :| Emits(g, k, from) && Reaches(Callees(g.calls, g.nodes), site, from);
      assert Emits(h, k, from) && !RootCone(g, from);
    }
  }

  /** A site that the roots already reach changes no candidate: disclosing it says nothing new. */
  lemma RootSiteIsInert(g: Graph, site: string, k: string)
    requires RootCone(g, site)
    ensures Candidate(WithBlindSpot(g, site), k) <==> Candidate(g, k)
  {
    hide Candidate, Emits, Reaches, Callees, EntrySeeds;
    BlindSpotMonotone(g, site, k);
    if Candidate(g, k) && Leads(g, site, k) {
      var next := Callees(g.calls, g.nodes);
      var from :| Emits(g, k, from) && Reaches(next, site, from);
      var s :| s in EntrySeeds(g) && Reaches(next, s, site);
      ReachesTrans(next, s, site, from);
      ConeMember(next, EntrySeeds(g), s, from);
      CandidateNotLive(g, k, from);
    }
  }

  lemma CandidateNotLive(g: Graph, k: string, from: string)
    requires Candidate(g, k) && Emits(g, k, from)
    ensures !RootCone(g, from)
  {
    hide RootCone, SeamCone, Emits;
  }
}
