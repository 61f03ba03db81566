/**
 * The join key of an effect: how a database call or a publish of a trace is read, that it is the key the graph
 * has for the same effect, and so what an audit says about it.
 */
module EffectKeys {
  import opened Ir
  import opened Text
  import opened Sorting
  import opened Impeach
  import opened Severing
  import opened Auditing
  import L = SqlLexemes
  import Id = Identities
  import O = Observing
  import T = SqlTokens
  import An = Anchoring

  // ---- words ----

  /** A word: something, and no blank in it. */
  predicate Solid(w: string) {
    w != "" && forall i :: 0 <= i < |w| ==> !IsGap(w[i])
  }

  predicate SolidWords(ws: seq<string>) {
    forall i :: 0 <= i < |ws| ==> Solid(ws[i])
  }

  lemma {:induction false} FieldLenIs(w: string, rest: string)
    requires (forall i :: 0 <= i < |w| ==> !IsWhite(w[i])) && (rest == "" || IsWhite(rest[0]))
    ensures O.FieldLen(w + rest) == |w|
  {
    if w == "" {
      assert w + rest == rest;
    } else {
      assert (w + rest)[1..] == w[1..] + rest;
      FieldLenIs(w[1..], rest);
    }
  }

  lemma FieldsStep(w: string, rest: string)
    requires Solid(w) && (rest == "" || IsWhite(rest[0]))
    ensures O.Fields(w + rest) == [w] + O.Fields(rest)
  {
    forall i | 0 <= i < |w| ensures !IsWhite(w[i]) { WhiteIs(w[i]); }
    FieldLenIs(w, rest);
    var s := w + rest;
    assert s[0] == w[0] && s[..|w|] == w && s[|w|..] == rest;
  }

  /** Words written with spaces between them are split into the words. */
  lemma {:induction false} FieldsOfJoin(ws: seq<string>)
    requires SolidWords(ws)
    ensures O.Fields(T.Join(ws)) == ws
  {
    hide O.Fields, Solid;
    if ws == [] {
      NoFields();
    } else {
      var rest := ws[1..];
      assert SolidWords(rest) by { assert forall i :: 0 <= i < |rest| ==> rest[i] == ws[i + 1]; }
      FieldsOfJoin(rest);
      var after := if rest == [] then "" else " " + T.Join(rest);
      assert T.Join(ws) == ws[0] + after by {
        if rest != [] { assert ws[0] + " " + T.Join(rest) == ws[0] + (" " + T.Join(rest)); }
      }
      FieldsStep(ws[0], after);
      if rest == [] { NoFields(); } else { SpaceSkipped(T.Join(rest)); }
      assert ws == [ws[0]] + rest;
    }
  }

  lemma NoFields()
    ensures O.Fields("") == []
  {
  }

  lemma SpaceSkipped(s: string)
    ensures O.Fields(" " + s) == O.Fields(s)
  {
    assert (" " + s)[1..] == s;
  }

  // ---- the key of one span ----

  /**
   * A database call is keyed by verb and table and by nothing else: the system is dropped, and the key is the one
   * the graph has for the same effect, whoever emits it.
   */
  lemma DbKey(h: Header, system: string, op: string, table: seq<string>, from: string)
    requires Solid(system) && Solid(op) && SolidWords(table)
    requires h.op == "DB " + T.Join([system, op] + table)
    ensures O.EffectOf(h) == O.Effect(EffectKey(Db(op, T.Join(table), from)))
    ensures O.EffectOf(h) == O.Effect("db " + T.Upper(op) + " " + T.Join(table))
  {
    hide O.Fields, T.Join, Solid, T.Upper;
    var ws := [system, op] + table;
    assert SolidWords(ws);
    FieldsOfJoin(ws);
    assert "DB " <= h.op && h.op[3..] == T.Join(ws);
    assert ws[2..] == table;
  }

  /** A database call whose verb is not known is no effect, unless it is also a publish. */
  lemma OpaqueDbIsNone(h: Header, words: seq<string>)
    requires SolidWords(words) && |words| < 2 && h.op == "DB " + T.Join(words) && h.kind != Producer
    ensures O.EffectOf(h) == O.NoEffect
  {
    hide O.Fields, T.Join, Solid;
    FieldsOfJoin(words);
    assert h.op[3..] == T.Join(words);
  }

  /** Nothing else is an effect: no call, no inbound request, no inbound message. */
  lemma OtherIsNone(h: Header)
    requires h.kind != Producer && (|h.op| < 3 || h.op[..3] != "DB ")
    ensures O.EffectOf(h) == O.NoEffect
  {
    hide O.Fields;
    assert !("DB " <= h.op);
  }

  predicate NoSpace(s: string) {
    ' ' !in s
  }

  /** Two effects have one key exactly when they are the same database verb, but for case, on the same table, or the same event. */
  lemma KeysTellEffects(a: Effect, b: Effect)
    requires Joined(a) && Joined(b) && (a.Db? ==> NoSpace(a.op)) && (b.Db? ==> NoSpace(b.op))
    ensures EffectKey(a) == EffectKey(b) <==>
              || (a.Db? && b.Db? && L.SameButCase(a.op, b.op) && a.table == b.table)
              || (a.Bus? && b.Bus? && a.event == b.event)
  {
    hide T.Upper, L.SameButCase;
    if a.Db? && b.Db? {
      DbKeysTell(a.op, a.table, b.op, b.table);
    } else if a.Bus? && b.Bus? {
      BehindPrefix("PUBLISH ", a.event, b.event);
      assert PUBLISH + " " == "PUBLISH ";
    } else if a.Db? {
      Families(a, b);
    } else {
      Families(b, a);
    }
  }

  lemma BehindPrefix(p: string, x: string, y: string)
    ensures p + x == p + y <==> x == y
  {
    assert (p + x)[|p|..] == x && (p + y)[|p|..] == y;
  }

  lemma Families(a: Effect, b: Effect)
    requires a.Db? && b.Bus?
    ensures EffectKey(a) != EffectKey(b)
  {
    assert EffectKey(a)[0] == 'd' && EffectKey(b)[0] == 'P';
  }

  lemma DbKeysTell(op: string, table: string, op': string, table': string)
    requires NoSpace(op) && NoSpace(op')
    ensures "db " + T.Upper(op) + " " + table == "db " + T.Upper(op') + " " + table' <==> L.SameButCase(op, op') && table == table'
  {
    hide T.Upper, L.SameButCase;
    UpperNoSpace(op);
    UpperNoSpace(op');
    UpperAlike(op, op');
    var x, y := T.Upper(op) + ([' '] + table), T.Upper(op') + ([' '] + table');
    assert "db " + T.Upper(op) + " " + table == "db " + x && "db " + T.Upper(op') + " " + table' == "db " + y;
    BehindPrefix("db ", x, y);
    if x == y { CutOnce(T.Upper(op), table, T.Upper(op'), table', ' '); }
  }

  lemma UpperNoSpace(s: string)
    requires NoSpace(s)
    ensures ' ' !in T.Upper(s)
  {
    forall i | 0 <= i < |s| ensures T.Upper(s)[i] != ' ' { assert s[i] in s; }
  }

  lemma UpperAlike(s: string, t: string)
    ensures L.SameButCase(s, t) <==> T.Upper(s) == T.Upper(t)
  {
    if T.Upper(s) == T.Upper(t) {
      forall i | 0 <= i < |s| ensures L.CaseOf(s[i], t[i]) {
        assert T.Upper(s)[i] == T.UpperByte(s[i]) && T.Upper(t)[i] == T.UpperByte(t[i]);
      }
    }
    if L.SameButCase(s, t) {
      forall i | 0 <= i < |s| ensures T.Upper(s)[i] == T.Upper(t)[i] { assert L.CaseOf(s[i], t[i]); }
    }
  }

  // ---- everything a trace holds ----

  predicate StepOf(p: PathSpan, h: Header) {
    p.op == h.op && (if "flowmap.fqn" in h.attrs then p.tag == h.attrs["flowmap.fqn"] else p.tag == "")
  }

  /** From `s` down to a span with this content, operation and function tag of each span on the way. */
  ghost predicate LeadsDown(s: CanonicalSpan, path: seq<PathSpan>, h: Header)
    decreases s
  {
    && path != [] && StepOf(path[0], s.head)
    && if |path| == 1 then s.head == h
       else exists g, m :: 0 <= g < |s.children| && 0 <= m < |s.children[g].members| && LeadsDown(s.children[g].members[m], path[1..], h)
  }

  lemma {:induction false} ChainIsWay(s: CanonicalSpan, path: seq<PathSpan>, h: Header)
    ensures O.Chain(s, path, h) <==> LeadsDown(s, path, h)
    decreases s
  {
    if path != [] {
      StepIs(path[0], s.head);
      forall g, m | 0 <= g < |s.children| && 0 <= m < |s.children[g].members|
        ensures O.Chain(s.children[g].members[m], path[1..], h) <==> LeadsDown(s.children[g].members[m], path[1..], h)
      {
        ChainIsWay(s.children[g].members[m], path[1..], h);
      }
    }
  }

  lemma StepIs(p: PathSpan, h: Header)
    ensures p == O.Step(h) <==> StepOf(p, h)
  {
  }

  /** One effect span, seen from its trace. */
  ghost predicate Sighting(t: O.Trace, o: Observation, h: Header)
    requires t.root.Rooted?
  {
    && O.EffectOf(h) == O.Effect(o.key) && o.op == h.op && o.flow == t.flow && o.entry == t.root.span.head.op
    && o.service == (if h.service != "" then h.service else t.service)
    && LeadsDown(t.root.span, o.path, h)
  }

  /** What is observed in a trace is one sighting for every way down to an effect span, and nothing else. */
  lemma SightingsAre(t: O.Trace, o: Observation)
    requires t.root.Rooted?
    ensures o in O.InTrace(t) <==> exists h :: Sighting(t, o, h)
  {
    hide O.Below, O.Chain, LeadsDown, O.EffectOf;
    var s := t.root.span;
    if o in O.InTrace(t) {
      O.PathsAreCausal(t, s.head.op, s, []);
      assert O.Witnessed(s, [], o);
      assert o.path[0..] == o.path;
      var h :| O.Chain(s, o.path, h) && O.EffectOf(h) == O.Effect(o.key) && o.op == h.op;
      ChainIsWay(s, o.path, h);
      var g := SeenFields(t, s.head.op, s, [], o);
      ChainIsWay(s, o.path, g);
      assert Sighting(t, o, g);
    }
    if h :| Sighting(t, o, h) {
      ChainIsWay(s, o.path, h);
      WayIsSeen(t, s.head.op, s, [], o.path, h);
      assert [] + o.path == o.path;
    }
  }

  /** The span an observation was made at. */
  lemma {:induction false} SeenFields(t: O.Trace, entry: string, s: CanonicalSpan, stack: seq<PathSpan>, o: Observation) returns (h: Header)
    requires o in O.Below(t, entry, s, stack)
    ensures |o.path| > |stack| && o.path[..|stack|] == stack && O.Chain(s, o.path[|stack|..], h)
    ensures o in O.Seen(t, entry, h, o.path)
    decreases s
  {
    hide O.EffectOf, O.BelowGroups, O.Chain;
    var here := stack + [O.Step(s.head)];
    if o in O.Seen(t, entry, s.head, here) {
      h := s.head;
      assert o.path[|stack|..] == [O.Step(s.head)];
      O.SelfChain(s);
    } else {
      h := SeenInGroups(t, entry, s, s.children, here, o);
      var rest := o.path[|stack|..];
      assert o.path[..|here|][|stack|] == here[|stack|];
      assert rest[1..] == o.path[|here|..] && rest[0] == O.Step(s.head);
      assert o.path[..|stack|] == here[..|stack|];
      Deeper(s, rest, h);
    }
  }

  /** Some child of `s` leads on. */
  ghost predicate ChildChain(s: CanonicalSpan, path: seq<PathSpan>, h: Header) {
    exists g, m :: 0 <= g < |s.children| && 0 <= m < |s.children[g].members| && O.Chain(s.children[g].members[m], path, h)
  }

  lemma Deeper(s: CanonicalSpan, path: seq<PathSpan>, h: Header)
    requires |path| > 1 && path[0] == O.Step(s.head) && ChildChain(s, path[1..], h)
    ensures O.Chain(s, path, h)
  {
  }

  lemma {:induction false} SeenInGroups(t: O.Trace, entry: string, s: CanonicalSpan, gs: seq<ChildGroup>, stack: seq<PathSpan>, o: Observation)
    returns (h: Header)
    requires o in O.BelowGroups(t, entry, gs, stack) && (forall g :: 0 <= g < |gs| ==> gs[g] in s.children)
    ensures |o.path| > |stack| && o.path[..|stack|] == stack && ChildChain(s, o.path[|stack|..], h)
    ensures o in O.Seen(t, entry, h, o.path)
    decreases s, 1, |gs|
  {
    hide O.EffectOf, O.BelowMembers, O.Chain;
    assert gs[0] in s.children;
    if o in O.BelowMembers(t, entry, gs[0].members, stack) {
      h := SeenInMembers(t, entry, s, gs[0], gs[0].members, stack, o);
    } else {
      assert forall g :: 0 <= g < |gs[1..]| ==> gs[1..][g] == gs[g + 1];
      h := SeenInGroups(t, entry, s, gs[1..], stack, o);
    }
  }

  lemma {:induction false} SeenInMembers(t: O.Trace, entry: string, s: CanonicalSpan, group: ChildGroup, ms: seq<CanonicalSpan>, stack: seq<PathSpan>, o: Observation)
    returns (h: Header)
    requires o in O.BelowMembers(t, entry, ms, stack) && group in s.children && (forall m :: 0 <= m < |ms| ==> ms[m] in group.members)
    ensures |o.path| > |stack| && o.path[..|stack|] == stack && ChildChain(s, o.path[|stack|..], h)
    ensures o in O.Seen(t, entry, h, o.path)
    decreases s, 0, |ms|
  {
    hide O.EffectOf, O.Below, O.Chain, O.Seen;
    var g :| 0 <= g < |s.children| && s.children[g] == group;
    assert ms[0] in group.members;
    if o in O.Below(t, entry, ms[0], stack) {
      var m :| 0 <= m < |group.members| && group.members[m] == ms[0];
      h := SeenFields(t, entry, s.children[g].members[m], stack, o);
    } else {
      assert forall m :: 0 <= m < |ms[1..]| ==> ms[1..][m] == ms[m + 1];
      h := SeenInMembers(t, entry, s, group, ms[1..], stack, o);
    }
  }

  /** Every way down to an effect span is seen. */
  lemma {:induction false} WayIsSeen(t: O.Trace, entry: string, s: CanonicalSpan, stack: seq<PathSpan>, path: seq<PathSpan>, h: Header)
    requires O.Chain(s, path, h)
    ensures forall o :: o in O.Seen(t, entry, h, stack + path) ==> o in O.Below(t, entry, s, stack)
    decreases s
  {
    hide O.EffectOf, O.Seen, O.BelowGroups;
    var here := stack + [O.Step(s.head)];
    if |path| == 1 {
      assert stack + path == here;
    } else {
      var g, m :| 0 <= g < |s.children| && 0 <= m < |s.children[g].members| && O.Chain(s.children[g].members[m], path[1..], h);
      WayIsSeen(t, entry, s.children[g].members[m], here, path[1..], h);
      assert here + path[1..] == stack + path;
      InGroupsToo(t, entry, s.children, here, g, m);
    }
  }

  lemma {:induction false} InGroupsToo(t: O.Trace, entry: string, gs: seq<ChildGroup>, stack: seq<PathSpan>, g: nat, m: nat)
    requires g < |gs| && m < |gs[g].members|
    ensures forall o :: o in O.Below(t, entry, gs[g].members[m], stack) ==> o in O.BelowGroups(t, entry, gs, stack)
  {
    hide O.BelowMembers, O.Below;
    if g == 0 { InMembersToo(t, entry, gs[0].members, stack, m); } else { InGroupsToo(t, entry, gs[1..], stack, g - 1, m); }
  }

  lemma {:induction false} InMembersToo(t: O.Trace, entry: string, ms: seq<CanonicalSpan>, stack: seq<PathSpan>, m: nat)
    requires m < |ms|
    ensures forall o :: o in O.Below(t, entry, ms[m], stack) ==> o in O.BelowMembers(t, entry, ms, stack)
  {
    hide O.Below;
    if m > 0 { InMembersToo(t, entry, ms[1..], stack, m - 1); }
  }

  // ---- what the audit says ----

  /** The key of a database call, written out. */
  function DbText(op: string, table: seq<string>): string {
    "db " + T.Upper(op) + " " + T.Join(table)
  }

  ghost predicate CandidateFor(r: Report, k: string) {
    exists i :: 0 <= i < |r.candidates| && r.candidates[i].observed.key == k
  }

  /** An effect one of whose emitters a root reaches is no candidate, and no gap once it has been observed. */
  lemma LiveIsUnreported(g: Graph, nx: An.NodeIndex, observed: seq<Observation>, r: Report, e: Effect)
    requires Reports(g, nx, observed, r) && e in g.effects && Joined(e) && RootCone(g, e.from)
    ensures !CandidateFor(r, EffectKey(e))
    ensures (exists i :: 0 <= i < |observed| && observed[i].key == EffectKey(e)) ==> EffectKey(e) !in r.gaps
  {
    hide RootCone, EffectKey, Joined, LocalizedFrom, WalkedFor, MapEntry, ClaimOf, InOrder, CoveredCount, Contradictions;
    var i :| 0 <= i < |g.effects| && g.effects[i] == e;
    assert Emits(g, EffectKey(e), e.from);
    assert Live(g, EffectKey(e));
    CandidatesAre(g, nx, observed, r, EffectKey(e));
  }

  lemma CandidatesAre(g: Graph, nx: An.NodeIndex, observed: seq<Observation>, r: Report, k: string)
    requires Reports(g, nx, observed, r)
    ensures CandidateFor(r, k) <==> Candidate(g, k) && exists i :: 0 <= i < |observed| && observed[i].key == k
  {
    hide Candidate, Contradictions, CoveredCount, InOrder, Live, LocalizedFrom, WalkedFor, MapEntry, ClaimOf;
    var list := Contradictions(g, observed, |observed|);
    ContradictionsFacts(g, observed, |observed|);
    assert observed[..|observed|] == observed;
    assert forall i :: 0 <= i < |list| ==> r.candidates[i].observed == list[i] by {
      assert forall i :: 0 <= i < |list| ==> Explains(g, nx, list, i, r.candidates[i]);
    }
    if CandidateFor(r, k) {
      var i :| 0 <= i < |r.candidates| && r.candidates[i].observed.key == k;
      assert list[i] in list;
      var j :| 0 <= j < |observed| && observed[j] == list[i];
    }
    if j :| Candidate(g, k) && 0 <= j < |observed| && observed[j].key == k {
      assert observed[j] in list;
      var i :| 0 <= i < |list| && list[i] == observed[j];
    }
  }

  /** A span that is a database call of this kind, anywhere in a trace. */
  ghost predicate CallsDb(t: O.Trace, system: string, op: string, table: seq<string>) {
    t.root.Rooted? && exists path, h :: LeadsDown(t.root.span, path, h) && h.op == "DB " + T.Join([system, op] + table)
  }

  /** Then it is observed. */
  lemma CallIsObserved(traces: seq<O.Trace>, observed: seq<Observation>, t: O.Trace, system: string, op: string, table: seq<string>)
    requires O.Effects(traces, observed) && (forall u :: u in traces ==> O.PlainTrace(u))
    requires t in traces && CallsDb(t, system, op, table) && Solid(system) && Solid(op) && SolidWords(table)
    ensures exists i :: 0 <= i < |observed| && observed[i].key == DbText(op, table)
  {
    hide O.PlainTrace, O.Effects, O.EffectOf, O.InTrace, LeadsDown, Solid, T.Join, T.Upper;
    var path, h :| LeadsDown(t.root.span, path, h) && h.op == "DB " + T.Join([system, op] + table);
    DbKey(h, system, op, table, "");
    var service := if h.service != "" then h.service else t.service;
    var o := Observation(DbText(op, table), h.op, t.flow, service, t.root.span.head.op, path);
    assert Sighting(t, o, h);
    SightingsAre(t, o);
    O.PlainEffects(traces, observed);
    assert o in observed;
  }

  /**
   * A database call that was made, and that the graph sees a root reach, is neither a contradiction nor a gap,
   * whatever the database system was.
   */
  lemma LiveCallIsClean(g: Graph, traces: seq<O.Trace>, r: Report, t: O.Trace, system: string, op: string, table: seq<string>, from: string)
    requires AuditReturns(g, traces, r) && (forall u :: u in traces ==> O.PlainTrace(u))
    requires t in traces && CallsDb(t, system, op, table) && Solid(system) && Solid(op) && SolidWords(table)
    requires Db(op, T.Join(table), from) in g.effects && RootCone(g, from)
    ensures !CandidateFor(r, DbText(op, table)) && DbText(op, table) !in r.gaps
  {
    hide O.PlainTrace, O.Effects, RootCone, CallsDb, Solid, T.Join, T.Upper, Reports, An.Indexes;
    var nx, observed :| O.Effects(traces, observed) && An.Indexes(nx, g.nodes) && Reports(g, nx, observed, r);
    CallIsObserved(traces, observed, t, system, op, table);
    LiveIsUnreported(g, nx, observed, r, Db(op, T.Join(table), from));
  }

  /** What an effect nobody names may be covered by: an unnamed event, or an unreadable statement. */
  ghost predicate MayBeUnnamed(g: Graph, k: string) {
    || (g.busDynamic != 0 && exists x: string :: k == "PUBLISH " + x || k == "CONSUME " + x)
    || (g.dbUnreadable != 0 && exists x: string :: k == "db " + x)
  }

  /** An observed effect that the graph does not name is a contradiction exactly when nothing unnamed may cover it. */
  lemma UnnamedIsReported(g: Graph, nx: An.NodeIndex, observed: seq<Observation>, r: Report, k: string)
    requires Reports(g, nx, observed, r) && (exists i :: 0 <= i < |observed| && observed[i].key == k)
    requires forall from :: !Emits(g, k, from)
    ensures CandidateFor(r, k) <==> !MayBeUnnamed(g, k)
  {
    hide Reports, RootCone, SeamCone, Joined, EffectKey, Emits;
    CandidatesAre(g, nx, observed, r, k);
    assert !Named(g, k) by { if Named(g, k) { NamedEmits(g, k); } }
    CoveredIs(g, k);
  }

  lemma NamedEmits(g: Graph, k: string)
    requires Named(g, k)
    ensures exists from :: Emits(g, k, from)
  {
    hide Joined, EffectKey;
    var i :| 0 <= i < |g.effects| && Joined(g.effects[i]) && EffectKey(g.effects[i]) == k;
    assert Emits(g, k, g.effects[i].from);
  }

  lemma CoveredIs(g: Graph, k: string)
    ensures Covered(g, k) <==> MayBeUnnamed(g, k)
  {
    PrefixIs("PUBLISH ", k);
    PrefixIs("CONSUME ", k);
    PrefixIs("db ", k);
  }

  lemma PrefixIs(p: string, k: string)
    ensures p <= k <==> exists x: string :: k == p + x
  {
    if p <= k { assert k == p + k[|p|..]; }
  }

  /** The graph has no such call. */
  ghost predicate NoSuchCall(g: Graph, op: string, table: string) {
    forall from, verb :: L.SameButCase(verb, op) ==> Db(verb, table, from) !in g.effects
  }

  /**
   * A call the graph knows nothing of is a contradiction exactly when no statement of the graph was unreadable;
   * events the graph could not name have nothing to do with it.
   */
  lemma UnknownCallIsReported(g: Graph, traces: seq<O.Trace>, r: Report, t: O.Trace, system: string, op: string, table: seq<string>)
    requires AuditReturns(g, traces, r) && (forall u :: u in traces ==> O.PlainTrace(u))
    requires t in traces && CallsDb(t, system, op, table) && Solid(system) && Solid(op) && SolidWords(table)
    requires NoSuchCall(g, op, T.Join(table)) && (forall e :: e in g.effects && e.Db? ==> NoSpace(e.op))
    ensures CandidateFor(r, DbText(op, table)) <==> g.dbUnreadable == 0
  {
    hide O.PlainTrace, O.Effects, RootCone, SeamCone, CallsDb, Solid, T.Join, T.Upper, Reports, An.Indexes, L.SameButCase, EffectKey;
    var nx, observed :| O.Effects(traces, observed) && An.Indexes(nx, g.nodes) && Reports(g, nx, observed, r);
    CallIsObserved(traces, observed, t, system, op, table);
    CandidatesAre(g, nx, observed, r, DbText(op, table));
    NotNamed(g, op, table);
    DbTextFamily(op, table);
  }

  lemma DbTextFamily(op: string, table: seq<string>)
    ensures IsDbKey(DbText(op, table)) && !IsBusKey(DbText(op, table))
  {
    assert DbText(op, table)[0] == 'd';
  }

  lemma NotNamed(g: Graph, op: string, table: seq<string>)
    requires NoSuchCall(g, op, T.Join(table)) && Solid(op) && (forall e :: e in g.effects && e.Db? ==> NoSpace(e.op))
    ensures !Named(g, DbText(op, table)) && forall from :: !Emits(g, DbText(op, table), from)
  {
    hide T.Join, T.Upper, L.SameButCase, EffectKey;
    var d := Db(op, T.Join(table), "");
    assert EffectKey(d) == DbText(op, table) by { KeyOfDb(op, T.Join(table)); }
    SolidNoSpace(op);
    forall i | 0 <= i < |g.effects| && Joined(g.effects[i]) ensures EffectKey(g.effects[i]) != EffectKey(d) {
      var e := g.effects[i];
      assert e in g.effects;
      KeysTellEffects(e, d);
      if e.Db? { assert e == Db(e.op, e.table, e.from); }
    }
  }

  lemma SolidNoSpace(op: string)
    requires Solid(op)
    ensures NoSpace(op)
  {
  }

  lemma KeyOfDb(op: string, table: string)
    ensures EffectKey(Db(op, table, "")) == "db " + T.Upper(op) + " " + table
  {
  }
}
