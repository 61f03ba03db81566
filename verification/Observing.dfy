/**
 * Collecting the observed effects of a corpus: every effect span with the causal path it sits on, each
 * observation once, in an order that is its own.
 */
module Observing {
  import opened Ir
  import opened Sorting
  import opened Identities
  import I = Impeach
  import opened Text
  import S = Severing
  import T = SqlTokens

  datatype Root = NoRoot | Rooted(span: CanonicalSpan)

  datatype Trace = Trace(flow: string, service: string, root: Root)

  // ---- effect keys ----

  function FieldLen(s: string): (k: nat)
    ensures k <= |s|
  {
    if s == "" || IsWhite(s[0]) then 0 else 1 + FieldLen(s[1..])
  }

  /** `strings.Fields`. */
  function Fields(s: string): seq<string>
    decreases |s|
  {
    if s == "" then []
    else if IsWhite(s[0]) then Fields(s[1..])
    else [s[..FieldLen(s)]] + Fields(s[FieldLen(s)..])
  }

  datatype Key = NoEffect | Effect(key: string)

  /**
   * `observedKey`: a database operation by verb and table, whatever the system; a publish by its event. What a
   * flow consumes, serves or calls is not an effect it causes.
   */
  function EffectOf(h: Header): Key {
    var fields := if DB_PREFIX <= h.op then Fields(h.op[|DB_PREFIX|..]) else [];
    if |fields| >= 2 then Effect(I.EffectKey(I.Db(fields[1], T.Join(fields[2..]), "")))
    else if h.kind == Producer then Effect(h.op)
    else NoEffect
  }

  /** A publish keys like the graph's own label of the same event. */
  lemma PublishKey(h: Header, event: string, from: string)
    requires h.kind == Producer && h.op == I.PUBLISH + " " + event
    ensures EffectOf(h) == Effect(I.EffectKey(I.Bus(I.PUBLISH, event, from)))
  {
    assert h.op[0] == 'P';
  }

  function Step(h: Header): S.PathSpan {
    S.PathSpan(h.op, if FQN_TAG in h.attrs then h.attrs[FQN_TAG] else "")
  }

  /** What one span contributes, given the causal path that ends in it. */
  function Seen(t: Trace, entry: string, h: Header, path: seq<S.PathSpan>): seq<Observation> {
    match EffectOf(h)
    case NoEffect => []
    case Effect(key) => [S.Observation(key, h.op, t.flow, if h.service != "" then h.service else t.service, entry, path)]
  }

  /** All effects below a span, in tree order; `stack` is the path to its parent. */
  function Below(t: Trace, entry: string, s: CanonicalSpan, stack: seq<S.PathSpan>): seq<Observation>
    decreases s
  {
    Seen(t, entry, s.head, stack + [Step(s.head)]) + BelowGroups(t, entry, s.children, stack + [Step(s.head)])
  }

  function BelowGroups(t: Trace, entry: string, gs: seq<ChildGroup>, stack: seq<S.PathSpan>): seq<Observation>
    decreases gs
  {
    if gs == [] then []
    else BelowMembers(t, entry, gs[0].members, stack) + BelowGroups(t, entry, gs[1..], stack)
  }

  function BelowMembers(t: Trace, entry: string, ms: seq<CanonicalSpan>, stack: seq<S.PathSpan>): seq<Observation>
    decreases ms
  {
    if ms == [] then []
    else Below(t, entry, ms[0], stack) + BelowMembers(t, entry, ms[1..], stack)
  }

  function InTrace(t: Trace): seq<Observation> {
    if t.root.NoRoot? then [] else Below(t, t.root.span.head.op, t.root.span, [])
  }

  function InTraces(traces: seq<Trace>): seq<Observation> {
    if traces == [] then [] else InTrace(traces[0]) + InTraces(traces[1..])
  }

  lemma {:induction false} InTracesMembers(traces: seq<Trace>)
    ensures forall o :: o in InTraces(traces) <==> exists t :: t in traces && o in InTrace(t)
  {
    hide InTrace;
    if traces != [] {
      InTracesMembers(traces[1..]);
      assert traces == [traces[0]] + traces[1..];
    }
  }

  // ---- every observation carries the path to its own effect ----

  /** A chain of spans from `s` down to an effect span. */
  ghost predicate Chain(s: CanonicalSpan, path: seq<S.PathSpan>, h: Header)
    decreases s
  {
    && path != [] && path[0] == Step(s.head)
    && if |path| == 1 then s.head == h
       else exists g, m :: 0 <= g < |s.children| && 0 <= m < |s.children[g].members| && Chain(s.children[g].members[m], path[1..], h)
  }

  /** An observation whose path, behind the stack, runs from `s` to the effect it names. */
  ghost predicate Witnessed(s: CanonicalSpan, stack: seq<S.PathSpan>, o: Observation) {
    && |o.path| > |stack| && o.path[..|stack|] == stack
    && exists h :: Chain(s, o.path[|stack|..], h) && EffectOf(h) == Effect(o.key) && o.op == h.op
  }

  ghost predicate MemberWitness(ms: seq<CanonicalSpan>, stack: seq<S.PathSpan>, o: Observation) {
    exists m :: 0 <= m < |ms| && Witnessed(ms[m], stack, o)
  }

  ghost predicate GroupWitness(gs: seq<ChildGroup>, stack: seq<S.PathSpan>, o: Observation) {
    exists g :: 0 <= g < |gs| && MemberWitness(gs[g].members, stack, o)
  }

  /** The causal path of an observation starts at the root and ends in the effect span itself. */
  lemma {:induction false} PathsAreCausal(t: Trace, entry: string, s: CanonicalSpan, stack: seq<S.PathSpan>)
    ensures forall o :: o in Below(t, entry, s, stack) ==> Witnessed(s, stack, o)
    decreases s
  {
    hide Chain, BelowGroups;
    var here := stack + [Step(s.head)];
    GroupPaths(t, entry, s.children, here);
    forall o | o in Below(t, entry, s, stack) ensures Witnessed(s, stack, o) {
      if o in Seen(t, entry, s.head, here) {
        assert o.path[|stack|..] == [Step(s.head)];
        SelfChain(s);
      } else {
        assert GroupWitness(s.children, here, o);
        var g :| 0 <= g < |s.children| && MemberWitness(s.children[g].members, here, o);
        var m :| 0 <= m < |s.children[g].members| && Witnessed(s.children[g].members[m], here, o);
        LongerPath(s, stack, g, m, o);
      }
    }
  }

  lemma SelfChain(s: CanonicalSpan)
    ensures Chain(s, [Step(s.head)], s.head)
  {
  }

  lemma LongerPath(s: CanonicalSpan, stack: seq<S.PathSpan>, g: nat, m: nat, o: Observation)
    requires g < |s.children| && m < |s.children[g].members|
    requires Witnessed(s.children[g].members[m], stack + [Step(s.head)], o)
    ensures Witnessed(s, stack, o)
  {
    var here := stack + [Step(s.head)];
    var h :| Chain(s.children[g].members[m], o.path[|here|..], h) && EffectOf(h) == Effect(o.key) && o.op == h.op;
    var path := o.path[|stack|..];
    assert path[1..] == o.path[|here|..];
    assert o.path[|stack|] == here[|stack|] by { assert o.path[..|here|][|stack|] == here[|stack|]; }
    assert o.path[..|stack|] == here[..|stack|] == stack;
    assert Chain(s, path, h);
  }

  lemma {:induction false} GroupPaths(t: Trace, entry: string, gs: seq<ChildGroup>, stack: seq<S.PathSpan>)
    ensures forall o :: o in BelowGroups(t, entry, gs, stack) ==> GroupWitness(gs, stack, o)
    decreases gs
  {
    hide MemberWitness, BelowMembers;
    if gs != [] {
      MemberPaths(t, entry, gs[0].members, stack);
      GroupPaths(t, entry, gs[1..], stack);
      forall o | GroupWitness(gs[1..], stack, o) ensures GroupWitness(gs, stack, o) {
        var g :| 0 <= g < |gs[1..]| && MemberWitness(gs[1..][g].members, stack, o);
        assert gs[g + 1] == gs[1..][g];
      }
    }
  }

  lemma {:induction false} MemberPaths(t: Trace, entry: string, ms: seq<CanonicalSpan>, stack: seq<S.PathSpan>)
    ensures forall o :: o in BelowMembers(t, entry, ms, stack) ==> MemberWitness(ms, stack, o)
    decreases ms
  {
    hide Witnessed, Below;
    if ms != [] {
      PathsAreCausal(t, entry, ms[0], stack);
      MemberPaths(t, entry, ms[1..], stack);
      forall o | MemberWitness(ms[1..], stack, o) ensures MemberWitness(ms, stack, o) {
        var m :| 0 <= m < |ms[1..]| && Witnessed(ms[1..][m], stack, o);
        assert ms[m + 1] == ms[1..][m];
      }
    }
  }

  // ---- the walk ----

  /** An observation with the same text has been collected. */
  ghost predicate Met(out: seq<Observation>, o: Observation) {
    exists i :: 0 <= i < |out| && Identity(out[i]) == Identity(o)
  }

  /** Observations in order of arrival, each text once. */
  ghost function Collect(out: seq<Observation>, more: seq<Observation>): seq<Observation>
    decreases |more|
  {
    if more == [] then out
    else Collect(if Met(out, more[0]) then out else out + [more[0]], more[1..])
  }

  lemma {:induction false} CollectConcat(out: seq<Observation>, a: seq<Observation>, b: seq<Observation>)
    ensures Collect(out, a + b) == Collect(Collect(out, a), b)
    decreases |a|
  {
    hide Met;
    if a == [] {
      assert a + b == b;
    } else {
      assert (a + b)[1..] == a[1..] + b;
      CollectConcat(if Met(out, a[0]) then out else out + [a[0]], a[1..], b);
    }
  }

  lemma OnceMore(out: seq<Observation>, o: Observation)
    requires Once(out) && !Met(out, o)
    ensures Once(out + [o])
  {
    hide Identity;
  }

  lemma MetMore(out: seq<Observation>, o: Observation, p: Observation)
    ensures Met(out + [p], o) <==> Met(out, o) || Identity(p) == Identity(o)
  {
    hide Identity;
    var longer := out + [p];
    if Met(out, o) {
      var i :| 0 <= i < |out| && Identity(out[i]) == Identity(o);
      assert longer[i] == out[i];
    }
    assert longer[|out|] == p;
  }

  lemma {:induction false} CollectFacts(out: seq<Observation>, more: seq<Observation>)
    requires Once(out)
    ensures Once(Collect(out, more))
    ensures forall o :: o in Collect(out, more) ==> o in out || o in more
    ensures forall o :: Met(out, o) || o in more ==> Met(Collect(out, more), o)
    decreases |more|
  {
    hide Identity, Met, Once;
    if more != [] {
      var o := more[0];
      var next := if Met(out, o) then out else out + [o];
      if !Met(out, o) { OnceMore(out, o); }
      forall p ensures Met(out + [o], p) <==> Met(out, p) || Identity(o) == Identity(p) { MetMore(out, p, o); }
      CollectFacts(next, more[1..]);
      assert more == [o] + more[1..];
    }
  }

  /** The `seen` map holds the texts collected so far. */
  ghost predicate Tracks(seen: set<string>, out: seq<Observation>) {
    forall x :: x in seen <==> exists i :: 0 <= i < |out| && Identity(out[i]) == x
  }

  lemma TracksMore(seen: set<string>, out: seq<Observation>, o: Observation)
    requires Tracks(seen, out)
    ensures Identity(o) in seen <==> Met(out, o)
    ensures Tracks(seen + {Identity(o)}, out + [o])
  {
    hide Identity;
    var longer := out + [o];
    forall x ensures x in seen + {Identity(o)} <==> exists i :: 0 <= i < |longer| && Identity(longer[i]) == x {
      if x in seen {
        var i :| 0 <= i < |out| && Identity(out[i]) == x;
        assert longer[i] == out[i];
      }
      assert longer[|out|] == o;
    }
  }

  lemma CollectOne(out: seq<Observation>, o: Observation)
    ensures Collect(out, [o]) == if Met(out, o) then out else out + [o]
  {
    assert [o][1..] == [];
  }

  /** The recursive walk with its ancestor stack. */
  method WalkSpan(t: Trace, entry: string, s: CanonicalSpan, stack: seq<S.PathSpan>, seen: set<string>, out: seq<Observation>)
    returns (known: set<string>, extended: seq<Observation>)
    requires Tracks(seen, out)
    ensures extended == Collect(out, Below(t, entry, s, stack)) && Tracks(known, extended)
    decreases s, 1
  {
    hide Tracks, Identity, Met, EffectOf, Collect, BelowGroups;
    var here := stack + [Step(s.head)];
    known, extended := seen, out;
    CollectNone(out);
    match EffectOf(s.head) {
      case NoEffect =>
      case Effect(key) =>
        var o := S.Observation(key, s.head.op, t.flow, if s.head.service != "" then s.head.service else t.service, entry, here);
        TracksMore(seen, out, o);
        CollectOne(out, o);
        if Identity(o) !in seen {
          known := known + {Identity(o)};
          extended := extended + [o];
        }
    }
    assert extended == Collect(out, Seen(t, entry, s.head, here));
    CollectConcat(out, Seen(t, entry, s.head, here), BelowGroups(t, entry, s.children, here));
    known, extended := WalkGroups(t, entry, s, here, known, extended);
  }

  lemma CollectNone(out: seq<Observation>)
    ensures Collect(out, []) == out
  {
  }

  lemma GroupsFrom(t: Trace, entry: string, gs: seq<ChildGroup>, stack: seq<S.PathSpan>, i: nat)
    requires i < |gs|
    ensures BelowGroups(t, entry, gs[i..], stack)
         == BelowMembers(t, entry, gs[i].members, stack) + BelowGroups(t, entry, gs[i + 1..], stack)
  {
    hide BelowMembers;
    assert gs[i..][0] == gs[i] && gs[i..][1..] == gs[i + 1..];
  }

  lemma MembersFrom(t: Trace, entry: string, ms: seq<CanonicalSpan>, stack: seq<S.PathSpan>, i: nat)
    requires i < |ms|
    ensures BelowMembers(t, entry, ms[i..], stack)
         == Below(t, entry, ms[i], stack) + BelowMembers(t, entry, ms[i + 1..], stack)
  {
    hide Below;
    assert ms[i..][0] == ms[i] && ms[i..][1..] == ms[i + 1..];
  }

  lemma NothingBelow(t: Trace, entry: string, gs: seq<ChildGroup>, ms: seq<CanonicalSpan>, stack: seq<S.PathSpan>)
    ensures BelowGroups(t, entry, gs[|gs|..], stack) == [] && BelowMembers(t, entry, ms[|ms|..], stack) == []
  {
  }

  method WalkGroups(t: Trace, entry: string, s: CanonicalSpan, stack: seq<S.PathSpan>, seen: set<string>, out: seq<Observation>)
    returns (known: set<string>, extended: seq<Observation>)
    requires Tracks(seen, out)
    ensures extended == Collect(out, BelowGroups(t, entry, s.children, stack)) && Tracks(known, extended)
    decreases s, 0
  {
    hide Tracks, Collect, BelowGroups, BelowMembers;
    var gs := s.children;
    known, extended := seen, out;
    assert gs[0..] == gs;
    for i := 0 to |gs|
      invariant Tracks(known, extended)
      invariant Collect(extended, BelowGroups(t, entry, gs[i..], stack)) == Collect(out, BelowGroups(t, entry, gs, stack))
    {
      GroupsFrom(t, entry, gs, stack, i);
      CollectConcat(extended, BelowMembers(t, entry, gs[i].members, stack), BelowGroups(t, entry, gs[i + 1..], stack));
      assert gs[i] in gs;
      known, extended := WalkMembers(t, entry, gs[i].members, stack, known, extended);
    }
    NothingBelow(t, entry, gs, [], stack);
    CollectNone(extended);
  }

  method WalkMembers(t: Trace, entry: string, ms: seq<CanonicalSpan>, stack: seq<S.PathSpan>, seen: set<string>, out: seq<Observation>)
    returns (known: set<string>, extended: seq<Observation>)
    requires Tracks(seen, out)
    ensures extended == Collect(out, BelowMembers(t, entry, ms, stack)) && Tracks(known, extended)
    decreases ms
  {
    hide Tracks, Collect, BelowMembers, Below;
    known, extended := seen, out;
    assert ms[0..] == ms;
    for i := 0 to |ms|
      invariant Tracks(known, extended)
      invariant Collect(extended, BelowMembers(t, entry, ms[i..], stack)) == Collect(out, BelowMembers(t, entry, ms, stack))
    {
      MembersFrom(t, entry, ms, stack, i);
      CollectConcat(extended, Below(t, entry, ms[i], stack), BelowMembers(t, entry, ms[i + 1..], stack));
      assert ms[i] in ms;
      known, extended := WalkSpan(t, entry, ms[i], stack, known, extended);
    }
    NothingBelow(t, entry, [], ms, stack);
    CollectNone(extended);
  }

  method WalkTrace(t: Trace, seen: set<string>, out: seq<Observation>) returns (known: set<string>, extended: seq<Observation>)
    requires Tracks(seen, out)
    ensures extended == Collect(out, InTrace(t)) && Tracks(known, extended)
  {
    hide Tracks, Collect, Below;
    CollectNone(out);
    if t.root.NoRoot? {
      return seen, out;
    }
    known, extended := WalkSpan(t, t.root.span.head.op, t.root.span, [], seen, out);
  }

  /** What `observedEffects` returns: the collected observations, sorted. */
  ghost predicate Effects(traces: seq<Trace>, out: seq<Observation>) {
    multiset(out) == multiset(Collect([], InTraces(traces))) && Sorted(out, LessObserved)
  }

  /** `observedEffects`: one observation for every text that occurs, on any corpus. */
  method ObservedEffects(traces: seq<Trace>) returns (out: seq<Observation>)
    ensures Effects(traces, out)
    ensures Once(out)
    ensures forall o :: o in out ==> exists t :: t in traces && o in InTrace(t)
    ensures forall t, o :: t in traces && o in InTrace(t) ==> Met(out, o)
  {
    hide Tracks, Collect, Once, InTrace, InTraces, LessObserved, Identity, Met;
    var seen: set<string>, met: seq<Observation> := {}, [];
    NothingTracked();
    assert traces[0..] == traces;
    for i := 0 to |traces|
      invariant Tracks(seen, met)
      invariant Collect(met, InTraces(traces[i..])) == Collect([], InTraces(traces))
    {
      TracesFrom(traces, i);
      CollectConcat(met, InTrace(traces[i]), InTraces(traces[i + 1..]));
      seen, met := WalkTrace(traces[i], seen, met);
    }
    NoTraceLeft(traces);
    CollectNone(met);
    IdentityOrder();
    out := SortSlice(met, LessObserved);
    EffectsFacts(traces, out);
  }

  lemma NothingTracked()
    ensures Tracks({}, []) && Once([])
  {
  }

  lemma TracesFrom(traces: seq<Trace>, i: nat)
    requires i < |traces|
    ensures InTraces(traces[i..]) == InTrace(traces[i]) + InTraces(traces[i + 1..])
  {
    hide InTrace;
    assert traces[i..][0] == traces[i] && traces[i..][1..] == traces[i + 1..];
  }

  lemma NoTraceLeft(traces: seq<Trace>)
    ensures InTraces(traces[|traces|..]) == []
  {
  }

  lemma Reordered(a: seq<Observation>, b: seq<Observation>)
    requires multiset(a) == multiset(b) && Once(a)
    ensures Once(b) && forall o :: (o in b <==> o in a) && (Met(b, o) <==> Met(a, o))
  {
    hide Identity;
    var p := FindPermutation(b, a);
    assert forall i, j :: 0 <= i < j < |b| ==> p[i] < p[j] || p[j] < p[i];
    forall o ensures (o in b <==> o in a) && (Met(b, o) <==> Met(a, o)) {
      assert o in a <==> o in multiset(a);
      assert o in b <==> o in multiset(b);
      MetReordered(a, b, o);
      MetReordered(b, a, o);
    }
  }

  lemma MetReordered(a: seq<Observation>, b: seq<Observation>, o: Observation)
    requires multiset(a) == multiset(b)
    ensures Met(a, o) ==> Met(b, o)
  {
    hide Identity;
    if Met(a, o) {
      var i :| 0 <= i < |a| && Identity(a[i]) == Identity(o);
      assert a[i] in multiset(b);
      var j :| 0 <= j < |b| && b[j] == a[i];
    }
  }

  lemma EffectsFacts(traces: seq<Trace>, out: seq<Observation>)
    requires Effects(traces, out)
    ensures Once(out)
    ensures forall o :: o in out ==> exists t :: t in traces && o in InTrace(t)
    ensures forall t, o :: t in traces && o in InTrace(t) ==> Met(out, o)
  {
    hide Collect, Once, InTrace, InTraces, LessObserved, Identity, Met;
    NothingTracked();
    CollectFacts([], InTraces(traces));
    InTracesMembers(traces);
    Reordered(Collect([], InTraces(traces)), out);
  }

  // ---- whether arrival order matters ----

  /** `o` is in the list, and nothing before it has its text. */
  ghost predicate FirstIn(s: seq<Observation>, o: Observation) {
    exists i :: 0 <= i < |s| && s[i] == o && forall j :: 0 <= j < i ==> Identity(s[j]) != Identity(o)
  }

  /** The same, from the front. */
  lemma FirstInStep(o: Observation, p: Observation, rest: seq<Observation>)
    ensures FirstIn([p] + rest, o) <==> p == o || (Identity(p) != Identity(o) && FirstIn(rest, o))
  {
    hide Identity;
    var s := [p] + rest;
    if FirstIn(s, o) {
      var i :| 0 <= i < |s| && s[i] == o && forall j :: 0 <= j < i ==> Identity(s[j]) != Identity(o);
      if i > 0 {
        assert s[0] == p && rest[i - 1] == o;
        assert forall j :: 0 <= j < i - 1 ==> s[j + 1] == rest[j];
      }
    }
    if p == o { assert s[0] == o; }
    if Identity(p) != Identity(o) && FirstIn(rest, o) {
      var i :| 0 <= i < |rest| && rest[i] == o && forall j :: 0 <= j < i ==> Identity(rest[j]) != Identity(o);
      assert s[i + 1] == o;
      assert forall j :: 0 < j < i + 1 ==> s[j] == rest[j - 1];
    }
  }

  lemma MetStep(o: Observation, p: Observation, rest: seq<Observation>)
    ensures Met([p] + rest, o) <==> Identity(p) == Identity(o) || Met(rest, o)
  {
    hide Identity;
    var s := [p] + rest;
    assert s[0] == p;
    if Met(s, o) {
      var i :| 0 <= i < |s| && Identity(s[i]) == Identity(o);
      assert i > 0 ==> s[i] == rest[i - 1];
    }
    if Met(rest, o) {
      var i :| 0 <= i < |rest| && Identity(rest[i]) == Identity(o);
      assert s[i + 1] == rest[i];
    }
  }

  lemma {:induction false} FirstInConcat(a: seq<Observation>, b: seq<Observation>, o: Observation)
    ensures FirstIn(a + b, o) <==> FirstIn(a, o) || (!Met(a, o) && FirstIn(b, o))
    decreases |a|
  {
    hide Identity, FirstIn, Met;
    if a == [] {
      assert a + b == b;
      NothingFirst(o);
    } else {
      var p, rest := a[0], a[1..];
      FirstInConcat(rest, b, o);
      FirstInStep(o, p, rest);
      FirstInStep(o, p, rest + b);
      MetStep(o, p, rest);
      assert a == [p] + rest && a + b == [p] + (rest + b);
    }
  }

  lemma NothingFirst(o: Observation)
    ensures !FirstIn([], o) && !Met([], o)
  {
  }

  /** What meets a text first is in the list. */
  lemma {:induction false} MetFirst(s: seq<Observation>, o: Observation) returns (p: Observation)
    requires Met(s, o)
    ensures FirstIn(s, p) && Identity(p) == Identity(o)
    decreases |s|
  {
    hide Identity, FirstIn, Met;
    if s == [] {
      NothingFirst(o);
      p := o;
    } else {
      var q, rest := s[0], s[1..];
      assert s == [q] + rest;
      MetStep(o, q, rest);
      if Identity(q) == Identity(o) {
        p := q;
      } else {
        p := MetFirst(rest, o);
      }
      FirstInStep(p, q, rest);
    }
  }

  /** Exactly the first observation of each new text is collected. */
  lemma {:induction false} CollectMembers(out: seq<Observation>, more: seq<Observation>, o: Observation)
    ensures o in Collect(out, more) <==> o in out || (!Met(out, o) && FirstIn(more, o))
    decreases |more|
  {
    hide Identity, FirstIn, Met;
    if more == [] {
      NothingFirst(o);
    } else {
      var p, rest := more[0], more[1..];
      var next := if Met(out, p) then out else out + [p];
      CollectMembers(next, rest, o);
      FirstInStep(o, p, rest);
      MetMore(out, o, p);
      if Identity(o) == Identity(p) { MetAlike(out, o, p); }
      assert more == [p] + rest;
    }
  }

  lemma MetAlike(out: seq<Observation>, o: Observation, p: Observation)
    requires Identity(o) == Identity(p)
    ensures Met(out, o) <==> Met(out, p)
  {
    hide Identity;
  }

  ghost predicate SameTraces(a: seq<Trace>, b: seq<Trace>) {
    forall t :: t in a <==> t in b
  }

  /**
   * No two traces, and no trace with itself, hold different observations under one text, as far as each is the
   * first with its text in its own trace.
   */
  ghost predicate NoClash(a: seq<Trace>) {
    forall t, u, o, p ::
      t in a && u in a && FirstIn(InTrace(t), o) && FirstIn(InTrace(u), p) && Identity(o) == Identity(p) ==> o == p
  }

  /** What `observedEffects` returns does not depend on the order of the traces. */
  ghost predicate ArrivalFree(a: seq<Trace>) {
    forall b, c, x, y :: multiset(b) == multiset(a) == multiset(c) && Effects(b, x) && Effects(c, y) ==> x == y
  }

  /** Nor on how often each arrives. */
  ghost predicate OrderFree(a: seq<Trace>) {
    forall b, c, x, y :: SameTraces(a, b) && SameTraces(a, c) && Effects(b, x) && Effects(c, y) ==> x == y
  }

  /** A collected observation is the first with its text in the first trace that has the text. */
  lemma {:induction false} FirstOfCorpus(b: seq<Trace>, o: Observation)
    ensures FirstIn(InTraces(b), o) ==> exists t :: t in b && FirstIn(InTrace(t), o)
    decreases |b|
  {
    hide InTrace, FirstIn, Met;
    if b == [] {
      NothingFirst(o);
    } else {
      FirstInConcat(InTrace(b[0]), InTraces(b[1..]), o);
      FirstOfCorpus(b[1..], o);
      assert b == [b[0]] + b[1..];
    }
  }

  lemma EffectsMembers(b: seq<Trace>, x: seq<Observation>, o: Observation)
    requires Effects(b, x)
    ensures o in x <==> FirstIn(InTraces(b), o)
  {
    hide Collect, InTraces, FirstIn, LessObserved;
    CollectMembers([], InTraces(b), o);
    NothingFirst(o);
    assert o in x <==> o in multiset(x);
    assert o in Collect([], InTraces(b)) <==> o in multiset(Collect([], InTraces(b)));
  }

  lemma InCorpus(b: seq<Trace>, t: Trace, o: Observation)
    requires t in b && FirstIn(InTrace(t), o)
    ensures Met(InTraces(b), o)
  {
    hide InTrace, InTraces, Identity;
    InTracesMembers(b);
    assert o in InTrace(t);
    var s := InTraces(b);
    assert o in s;
    var i :| 0 <= i < |s| && s[i] == o;
  }

  /** Without a clash the collected observations are the first ones of every trace. */
  lemma CollectedAre(a: seq<Trace>, b: seq<Trace>, x: seq<Observation>, o: Observation)
    requires NoClash(a) && SameTraces(a, b) && Effects(b, x)
    ensures o in x <==> exists t :: t in a && FirstIn(InTrace(t), o)
  {
    hide InTrace, InTraces, FirstIn, Met, Effects, Identity;
    EffectsMembers(b, x, o);
    FirstOfCorpus(b, o);
    if exists t :: t in a && FirstIn(InTrace(t), o) {
      var t :| t in a && FirstIn(InTrace(t), o);
      assert t in b;
      InCorpus(b, t, o);
      var p := MetFirst(InTraces(b), o);
      FirstOfCorpus(b, p);
      var u :| u in b && FirstIn(InTrace(u), p);
      assert u in a;
    }
  }

  lemma NoClashIsFree(a: seq<Trace>, b: seq<Trace>, c: seq<Trace>, x: seq<Observation>, y: seq<Observation>)
    requires NoClash(a) && SameTraces(a, b) && SameTraces(a, c) && Effects(b, x) && Effects(c, y)
    ensures x == y
  {
    hide InTrace, InTraces, FirstIn, NoClash, SameTraces, LessObserved, Identity, Collect;
    EffectsFacts(b, x);
    EffectsFacts(c, y);
    forall o ensures o in x <==> o in y {
      CollectedAre(a, b, x, o);
      CollectedAre(a, c, y, o);
    }
    OnceDistinct(x);
    OnceDistinct(y);
    DistinctMultiset(x, y);
    OnceStrict(x);
    StrictUnique(x, y, LessObserved);
  }

  lemma OnceDistinct(x: seq<Observation>)
    requires Once(x)
    ensures forall i, j :: 0 <= i < j < |x| ==> x[i] != x[j]
  {
    hide Identity;
    forall i, j | 0 <= i < j < |x| ensures x[i] != x[j] { assert Identity(x[i]) != Identity(x[j]); }
  }

  /** One result a corpus can have. */
  lemma SomeEffects(b: seq<Trace>) returns (x: seq<Observation>)
    ensures Effects(b, x)
  {
    hide LessObserved, Collect, InTraces;
    IdentityOrder();
    x := StableSort(Collect([], InTraces(b)), LessObserved);
    StableSortSorted(Collect([], InTraces(b)), LessObserved);
  }

  /** The trace that comes first has its say. */
  lemma FirstTraceWins(t: Trace, a: seq<Trace>, x: seq<Observation>, o: Observation)
    requires Effects([t] + a, x) && FirstIn(InTrace(t), o)
    ensures o in x
  {
    hide InTrace, InTraces, FirstIn, Effects;
    EffectsMembers([t] + a, x, o);
    TracesFrom([t] + a, 0);
    assert ([t] + a)[0..] == [t] + a && ([t] + a)[1..] == a;
    FirstInConcat(InTrace(t), InTraces(a), o);
  }

  lemma ClashIsNotFree(a: seq<Trace>, t: Trace, u: Trace, o: Observation, p: Observation)
    requires t in a && u in a && FirstIn(InTrace(t), o) && FirstIn(InTrace(u), p)
    requires Identity(o) == Identity(p) && o != p
    ensures !ArrivalFree(a)
  {
    hide InTrace, FirstIn, Effects, Identity, Once;
    var b := ToFront(a, t);
    var c := ToFront(a, u);
    var x := SomeEffects([t] + b);
    var y := SomeEffects([u] + c);
    FirstTraceWins(t, b, x, o);
    FirstTraceWins(u, c, y, p);
    EffectsFacts([t] + b, x);
    if x == y { BothUnderOneText(x, o, p); }
  }

  lemma ToFront(a: seq<Trace>, t: Trace) returns (rest: seq<Trace>)
    requires t in a
    ensures multiset([t] + rest) == multiset(a)
  {
    var i :| 0 <= i < |a| && a[i] == t;
    rest := a[..i] + a[i + 1..];
    assert a == a[..i] + ([t] + a[i + 1..]);
  }

  lemma SameMembers(a: seq<Trace>, b: seq<Trace>)
    requires multiset(a) == multiset(b)
    ensures SameTraces(a, b)
  {
    assert forall t :: t in a <==> t in multiset(a);
    assert forall t :: t in b <==> t in multiset(b);
  }

  lemma BothUnderOneText(x: seq<Observation>, o: Observation, p: Observation)
    requires Once(x) && o in x && p in x && Identity(o) == Identity(p)
    ensures o == p
  {
    hide Identity;
    var i :| 0 <= i < |x| && x[i] == o;
    var j :| 0 <= j < |x| && x[j] == p;
    assert forall k, l :: 0 <= k < l < |x| ==> Identity(x[k]) != Identity(x[l]);
  }

  /**
   * The join input does not depend on the order in which the traces arrived exactly when no two of their
   * observations clash; and then it does not depend on how often each arrived either.
   */
  lemma OrderFreeIff(a: seq<Trace>)
    ensures ArrivalFree(a) <==> NoClash(a)
    ensures OrderFree(a) <==> NoClash(a)
  {
    hide InTrace, FirstIn, Effects, Identity, SameTraces;
    if OrderFree(a) {
      forall b, c, x, y | multiset(b) == multiset(a) == multiset(c) && Effects(b, x) && Effects(c, y) ensures x == y {
        SameMembers(a, b);
        SameMembers(a, c);
      }
    }
    if NoClash(a) {
      forall b, c, x, y | SameTraces(a, b) && SameTraces(a, c) && Effects(b, x) && Effects(c, y) ensures x == y {
        NoClashIsFree(a, b, c, x, y);
      }
    } else {
      var t, u, o, p :|
        t in a && u in a && FirstIn(InTrace(t), o) && FirstIn(InTrace(u), p) && Identity(o) == Identity(p) && o != p;
      ClashIsNotFree(a, t, u, o, p);
    }
  }

  // ---- corpora without separators ----

  predicate PlainHeader(h: Header) {
    Plain(h.op) && Plain(h.service) && Plain(Step(h).tag)
  }

  predicate PlainTree(s: CanonicalSpan)
    decreases s
  {
    PlainHeader(s.head) && PlainGroups(s.children)
  }

  predicate PlainGroups(gs: seq<ChildGroup>)
    decreases gs
  {
    gs != [] ==> PlainMembers(gs[0].members) && PlainGroups(gs[1..])
  }

  predicate PlainMembers(ms: seq<CanonicalSpan>)
    decreases ms
  {
    ms != [] ==> PlainTree(ms[0]) && PlainMembers(ms[1..])
  }

  /** No separator in any name the trace carries. */
  predicate PlainTrace(t: Trace) {
    Plain(t.flow) && Plain(t.service) && (t.root.Rooted? ==> PlainTree(t.root.span))
  }

  lemma {:induction false} FieldsPlain(s: string)
    requires Plain(s)
    ensures forall f :: f in Fields(s) ==> Plain(f)
    decreases |s|
  {
    if s != "" {
      if IsWhite(s[0]) { FieldsPlain(s[1..]); } else { FieldsPlain(s[FieldLen(s)..]); }
    }
  }

  lemma {:induction false} JoinPlain(ts: seq<string>)
    requires forall t :: t in ts ==> Plain(t)
    ensures Plain(T.Join(ts))
  {
    if ts != [] {
      assert Plain(ts[0]) && Plain(" ");
      JoinPlain(ts[1..]);
    }
  }

  lemma UpperPlain(s: string)
    requires Plain(s)
    ensures Plain(T.Upper(s))
  {
    forall c | c in T.Upper(s) ensures c != FIELD && c != TAGGED && c != STEP {
      var i :| 0 <= i < |s| && T.Upper(s)[i] == c;
      assert s[i] in s;
    }
  }

  lemma KeyPlain(h: Header)
    requires Plain(h.op)
    ensures EffectOf(h).Effect? ==> Plain(EffectOf(h).key)
  {
    hide Fields, T.Join, T.Upper;
    if DB_PREFIX <= h.op {
      var fields := Fields(h.op[|DB_PREFIX|..]);
      FieldsPlain(h.op[|DB_PREFIX|..]);
      if |fields| >= 2 {
        JoinPlain(fields[2..]);
        UpperPlain(fields[1]);
        assert Plain("db ") && Plain(" ");
      }
    }
  }

  lemma {:induction false} BelowPlain(t: Trace, entry: string, s: CanonicalSpan, stack: seq<S.PathSpan>)
    requires PlainTrace(t) && Plain(entry) && PlainTree(s) && PlainPath(stack)
    ensures forall o :: o in Below(t, entry, s, stack) ==> PlainObservation(o)
    decreases s
  {
    hide Plain, PlainTrace, EffectOf;
    var here := stack + [Step(s.head)];
    assert PlainHeader(s.head) && PlainPath(here);
    SeenPlain(t, entry, s.head, here);
    GroupsPlain(t, entry, s.children, here);
  }

  lemma SeenPlain(t: Trace, entry: string, h: Header, path: seq<S.PathSpan>)
    requires PlainTrace(t) && Plain(entry) && PlainHeader(h) && path != [] && PlainPath(path)
    ensures forall o :: o in Seen(t, entry, h, path) ==> PlainObservation(o)
  {
    hide Plain, EffectOf;
    KeyPlain(h);
  }

  lemma {:induction false} GroupsPlain(t: Trace, entry: string, gs: seq<ChildGroup>, stack: seq<S.PathSpan>)
    requires PlainTrace(t) && Plain(entry) && PlainGroups(gs) && PlainPath(stack)
    ensures forall o :: o in BelowGroups(t, entry, gs, stack) ==> PlainObservation(o)
    decreases gs
  {
    hide Plain, PlainTrace, PlainObservation, PlainPath;
    if gs != [] {
      MembersPlain(t, entry, gs[0].members, stack);
      GroupsPlain(t, entry, gs[1..], stack);
    }
  }

  lemma {:induction false} MembersPlain(t: Trace, entry: string, ms: seq<CanonicalSpan>, stack: seq<S.PathSpan>)
    requires PlainTrace(t) && Plain(entry) && PlainMembers(ms) && PlainPath(stack)
    ensures forall o :: o in BelowMembers(t, entry, ms, stack) ==> PlainObservation(o)
    decreases ms
  {
    hide Plain, PlainTrace, PlainObservation, PlainPath;
    if ms != [] {
      BelowPlain(t, entry, ms[0], stack);
      MembersPlain(t, entry, ms[1..], stack);
    }
  }

  lemma InTracePlain(t: Trace)
    requires PlainTrace(t)
    ensures forall o :: o in InTrace(t) ==> PlainObservation(o)
  {
    hide Plain, PlainObservation;
    if t.root.Rooted? {
      assert PlainHeader(t.root.span.head);
      BelowPlain(t, t.root.span.head.op, t.root.span, []);
    }
  }

  /** Then the result holds every observation itself, once. */
  lemma PlainEffects(traces: seq<Trace>, out: seq<Observation>)
    requires (forall t :: t in traces ==> PlainTrace(t)) && Effects(traces, out)
    ensures forall o :: o in out <==> exists t :: t in traces && o in InTrace(t)
    ensures forall o :: o in out ==> PlainObservation(o)
    ensures forall i, j :: 0 <= i < j < |out| ==> out[i] != out[j]
  {
    hide Collect, InTrace, InTraces, LessObserved, Identity, PlainTrace, PlainObservation;
    EffectsFacts(traces, out);
    forall t, o | t in traces && o in InTrace(t) ensures PlainObservation(o) { InTracePlain(t); }
    forall t, o | t in traces && o in InTrace(t) ensures o in out {
      assert Met(out, o);
      var i :| 0 <= i < |out| && Identity(out[i]) == Identity(o);
      assert out[i] in out;
      IdentityInjective(out[i], o);
    }
  }

  /** So a corpus without separators has no clash, and arrival order does not matter. */
  lemma PlainNoClash(a: seq<Trace>)
    requires forall t :: t in a ==> PlainTrace(t)
    ensures NoClash(a) && OrderFree(a)
  {
    hide InTrace, Identity, PlainTrace, PlainObservation, OrderFree, ArrivalFree;
    forall t, u, o, p |
      t in a && u in a && FirstIn(InTrace(t), o) && FirstIn(InTrace(u), p) && Identity(o) == Identity(p)
      ensures o == p
    {
      InTracePlain(t);
      InTracePlain(u);
      assert o in InTrace(t) && p in InTrace(u);
      IdentityInjective(o, p);
    }
    OrderFreeIff(a);
  }

  // ---- a corpus where it matters ----

  const EFFECT := "PUBLISH e"

  function SpanNamed(op: string): Header {
    Header(op, if op == EFFECT then Producer else Server, "", "", 1, "", "", false, map[])
  }

  /** Spans under one another. */
  function Nest(ops: seq<string>): CanonicalSpan
    requires ops != []
  {
    Tree(SpanNamed(ops[0]), if |ops| == 1 then [] else [Group(false, false, "", [Nest(ops[1..])])])
  }

  function NestedTrace(ops: seq<string>): Trace
    requires ops != []
  {
    Trace("flow", "svc", Rooted(Nest(ops)))
  }

  function PathOf(ops: seq<string>): seq<S.PathSpan> {
    seq(|ops|, i requires 0 <= i < |ops| => S.PathSpan(ops[i], ""))
  }

  lemma PlainNoEffect(op: string)
    requires |op| <= 4 && op != EFFECT
    ensures EffectOf(SpanNamed(op)) == NoEffect
  {
    hide T.Join, T.Upper;
    if DB_PREFIX <= op { ShortFields(op[|DB_PREFIX|..]); }
  }

  lemma ShortFields(s: string)
    requires |s| <= 1
    ensures |Fields(s)| <= 1
  {
    if s != "" {
      assert s[1..] == "" && (FieldLen(s) == 1 ==> s[FieldLen(s)..] == "");
    }
  }

  /** A nest of plain spans around one publish holds that one observation. */
  lemma {:induction false} NestHolds(t: Trace, entry: string, ops: seq<string>, stack: seq<S.PathSpan>)
    requires ops != [] && ops[|ops| - 1] == EFFECT && t.service == "svc"
    requires forall i :: 0 <= i < |ops| - 1 ==> |ops[i]| <= 4
    ensures Below(t, entry, Nest(ops), stack) == [S.Observation(EFFECT, EFFECT, t.flow, "svc", entry, stack + PathOf(ops))]
    decreases |ops|
  {
    hide EffectOf, Below, BelowGroups, Nest;
    var here := stack + [S.PathSpan(ops[0], "")];
    if |ops| == 1 {
      EffectAlone(t, entry, stack);
      assert ops == [EFFECT] && here == stack + PathOf(ops);
    } else {
      var rest := ops[1..];
      NestStep(t, entry, ops, stack);
      NestHolds(t, entry, rest, here);
      assert here + PathOf(rest) == stack + PathOf(ops);
    }
  }

  lemma EffectAlone(t: Trace, entry: string, stack: seq<S.PathSpan>)
    requires t.service == "svc"
    ensures Below(t, entry, Nest([EFFECT]), stack)
         == [S.Observation(EFFECT, EFFECT, t.flow, "svc", entry, stack + [S.PathSpan(EFFECT, "")])]
  {
    hide EffectOf;
    PublishKey(SpanNamed(EFFECT), "e", "");
  }

  /** A plain span around others contributes only its step. */
  lemma NestStep(t: Trace, entry: string, ops: seq<string>, stack: seq<S.PathSpan>)
    requires |ops| > 1 && |ops[0]| <= 4
    ensures Below(t, entry, Nest(ops), stack) == Below(t, entry, Nest(ops[1..]), stack + [S.PathSpan(ops[0], "")])
  {
    hide EffectOf, BelowGroups;
    var h, rest := SpanNamed(ops[0]), Nest(ops[1..]);
    assert Step(h) == S.PathSpan(ops[0], "");
    PlainNoEffect(ops[0]);
    OneChild(t, entry, rest, stack + [Step(h)]);
    assert Nest(ops) == Tree(h, [Group(false, false, "", [rest])]);
  }

  lemma OneChild(t: Trace, entry: string, s: CanonicalSpan, stack: seq<S.PathSpan>)
    ensures BelowGroups(t, entry, [Group(false, false, "", [s])], stack) == Below(t, entry, s, stack)
  {
    hide Below;
    assert [s][1..] == [];
    assert BelowMembers(t, entry, [s], stack) == Below(t, entry, s, stack) + [];
    assert [Group(false, false, "", [s])][1..] == [];
  }

  function Joined(): seq<string> { ["r", "a" + [STEP] + "b", EFFECT] }

  function Apart(): seq<string> { ["r", "a", "b", EFFECT] }

  /** Two traces whose one observation has the same text: the one that arrives first is all that is reported. */
  lemma ArrivalDecides()
    ensures var one, two := NestedTrace(Joined()), NestedTrace(Apart());
            && InTrace(one) != InTrace(two)
            && Effects([one, two], InTrace(one)) && Effects([two, one], InTrace(two))
            && !NoClash([one, two])
  {
    hide Identity, PathSig, Below, Nest;
    var one, two := NestedTrace(Joined()), NestedTrace(Apart());
    assert [] + PathOf(Joined()) == PathOf(Joined()) && [] + PathOf(Apart()) == PathOf(Apart());
    RootName(Joined());
    RootName(Apart());
    NestHolds(one, "r", Joined(), []);
    NestHolds(two, "r", Apart(), []);
    var o, p := InTrace(one)[0], InTrace(two)[0];
    TextsCollide(o, p);
    ArrivesFirst(one, two, o, p);
    ArrivesFirst(two, one, p, o);
    assert FirstIn([o], o) && FirstIn([p], p) by { OnlyOne(o); OnlyOne(p); }
  }

  lemma RootName(ops: seq<string>)
    requires ops != []
    ensures Nest(ops).head.op == ops[0]
  {
  }

  lemma OnlyOne(o: Observation)
    ensures FirstIn([o], o)
  {
    assert [o][0] == o;
  }

  lemma TextsCollide(o: Observation, p: Observation)
    requires o == S.Observation(EFFECT, EFFECT, "flow", "svc", "r", PathOf(Joined()))
    requires p == S.Observation(EFFECT, EFFECT, "flow", "svc", "r", PathOf(Apart()))
    ensures o != p && Identity(o) == Identity(p)
  {
    hide PathSig;
    SignaturesCollide(S.PathSpan("r", ""), S.PathSpan(EFFECT, ""));
    assert PathOf(Joined()) == [S.PathSpan("r", ""), S.PathSpan("a" + [STEP] + "b", ""), S.PathSpan(EFFECT, "")];
    assert PathOf(Apart()) == [S.PathSpan("r", ""), S.PathSpan("a", ""), S.PathSpan("b", ""), S.PathSpan(EFFECT, "")];
  }

  lemma ArrivesFirst(t: Trace, u: Trace, o: Observation, p: Observation)
    requires InTrace(t) == [o] && InTrace(u) == [p] && Identity(o) == Identity(p)
    ensures Effects([t, u], [o])
  {
    hide InTrace, Identity;
    assert [t, u][1..] == [u] && [u][1..] == [];
    assert InTraces([u]) == [p] + [] == [p];
    assert InTraces([t, u]) == [o] + [p] == [o, p];
    FirstStays(o, p);
  }

  lemma FirstStays(a: Observation, b: Observation)
    requires Identity(a) == Identity(b)
    ensures Collect([], [a, b]) == [a]
  {
    hide Identity;
    assert !Met([], a);
    assert [] + [a] == [a] && [a, b][1..] == [b] && [b][1..] == [];
    assert [a][0] == a;
    assert Met([a], b);
    CollectOne([a], b);
  }
}
