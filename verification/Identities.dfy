/**
 * What makes an observed effect the same observation: its fields and the signature of its causal path,
 * written as one text with control characters in between.
 */
module Identities {
  import opened Text
  import opened Sorting
  import S = Severing

  type Observation = S.Observation

  const FIELD := '\U{0000}'
  const TAGGED := '\U{001E}'
  const STEP := '\U{001F}'

  function StepSig(p: S.PathSpan): string {
    if p.tag != "" then p.op + ([TAGGED] + p.tag) else p.op
  }

  function StepSigs(path: seq<S.PathSpan>): (r: seq<string>)
    ensures |r| == |path| && forall i :: 0 <= i < |path| ==> r[i] == StepSig(path[i])
  {
    seq(|path|, i requires 0 <= i < |path| => StepSig(path[i]))
  }

  /** `pathSig`: operation and tag of each span on the path. */
  function PathSig(path: seq<S.PathSpan>): string {
    JoinWith(StepSigs(path), STEP)
  }

  /** The text two observations are compared by. */
  function Identity(o: Observation): string {
    o.key + ([FIELD] + (o.flow + ([FIELD] + (o.service + ([FIELD] + (o.entry + ([FIELD] + (o.op + ([FIELD] + PathSig(o.path))))))))))
  }

  /** None of the three separators occurs. */
  predicate Plain(s: string) {
    FIELD !in s && TAGGED !in s && STEP !in s
  }

  predicate PlainPath(path: seq<S.PathSpan>) {
    forall i :: 0 <= i < |path| ==> Plain(path[i].op) && Plain(path[i].tag)
  }

  predicate PlainObservation(o: Observation) {
    && Plain(o.key) && Plain(o.flow) && Plain(o.service) && Plain(o.entry) && Plain(o.op)
    && o.path != [] && PlainPath(o.path)
  }

  // ---- plain observations are what their text says ----

  lemma StepSigPlain(p: S.PathSpan)
    requires Plain(p.op) && Plain(p.tag)
    ensures STEP !in StepSig(p)
  {
  }

  lemma StepSigInjective(p: S.PathSpan, q: S.PathSpan)
    requires Plain(p.op) && Plain(p.tag) && Plain(q.op) && Plain(q.tag) && StepSig(p) == StepSig(q)
    ensures p == q
  {
    hide StepSig;
    SigCases(p);
    SigCases(q);
    WithoutSeparator(q.op, p.op, p.tag, TAGGED);
    WithoutSeparator(p.op, q.op, q.tag, TAGGED);
    if p.tag != "" && q.tag != "" { CutOnce(p.op, p.tag, q.op, q.tag, TAGGED); }
  }

  lemma SigCases(p: S.PathSpan)
    ensures StepSig(p) == if p.tag != "" then p.op + ([TAGGED] + p.tag) else p.op
  {
  }

  /** A path without the separators in its names is told by its signature. */
  lemma PathSigInjective(a: seq<S.PathSpan>, b: seq<S.PathSpan>)
    requires a != [] && b != [] && PlainPath(a) && PlainPath(b) && PathSig(a) == PathSig(b)
    ensures a == b
  {
    hide StepSig, Plain;
    forall i | 0 <= i < |a| ensures STEP !in StepSigs(a)[i] { StepSigPlain(a[i]); }
    forall i | 0 <= i < |b| ensures STEP !in StepSigs(b)[i] { StepSigPlain(b[i]); }
    JoinInjective(StepSigs(a), StepSigs(b), STEP);
    forall i | 0 <= i < |a| ensures a[i] == b[i] {
      assert StepSigs(a)[i] == StepSigs(b)[i];
      StepSigInjective(a[i], b[i]);
    }
  }

  /** And so is an observation told by its text. */
  lemma IdentityInjective(a: Observation, b: Observation)
    requires PlainObservation(a) && PlainObservation(b) && Identity(a) == Identity(b)
    ensures a == b
  {
    hide PathSig;
    PeelKey(a, b);
    PathSigInjective(a.path, b.path);
  }

  lemma PeelKey(a: Observation, b: Observation)
    requires PlainObservation(a) && PlainObservation(b) && Identity(a) == Identity(b)
    ensures a.key == b.key && a.flow == b.flow && a.service == b.service && a.entry == b.entry && a.op == b.op
    ensures PathSig(a.path) == PathSig(b.path)
  {
    hide PathSig, PlainPath;
    var a4, b4 := a.op + ([FIELD] + PathSig(a.path)), b.op + ([FIELD] + PathSig(b.path));
    var a3, b3 := a.entry + ([FIELD] + a4), b.entry + ([FIELD] + b4);
    var a2, b2 := a.service + ([FIELD] + a3), b.service + ([FIELD] + b3);
    var a1, b1 := a.flow + ([FIELD] + a2), b.flow + ([FIELD] + b2);
    CutOnce(a.key, a1, b.key, b1, FIELD);
    CutOnce(a.flow, a2, b.flow, b2, FIELD);
    CutOnce(a.service, a3, b.service, b3, FIELD);
    CutOnce(a.entry, a4, b.entry, b4, FIELD);
    CutOnce(a.op, PathSig(a.path), b.op, PathSig(b.path), FIELD);
  }

  /** With a separator in an operation name two paths read the same: one span "a US b", or a span "a" over a span "b". */
  lemma SignaturesCollide(r: S.PathSpan, e: S.PathSpan)
    ensures var one := [r, S.PathSpan("a" + [STEP] + "b", ""), e];
            var two := [r, S.PathSpan("a", ""), S.PathSpan("b", ""), e];
            one != two && PathSig(one) == PathSig(two)
  {
    var joined := "a" + [STEP] + "b";
    var one := [r, S.PathSpan(joined, ""), e];
    var two := [r, S.PathSpan("a", ""), S.PathSpan("b", ""), e];
    var x, y := StepSig(r), StepSig(e);
    assert StepSigs(one) == [x, joined, y] && StepSigs(two) == [x, "a", "b", y];
    assert [x, joined, y][1..] == [joined, y] && [joined, y][1..] == [y];
    assert [x, "a", "b", y][1..] == ["a", "b", y] && ["a", "b", y][1..] == ["b", y] && ["b", y][1..] == [y];
    assert JoinWith([joined, y], STEP) == joined + ([STEP] + y);
    assert JoinWith(["a", "b", y], STEP) == "a" + ([STEP] + ("b" + ([STEP] + y)));
    assert joined + ([STEP] + y) == "a" + ([STEP] + ("b" + ([STEP] + y)));
  }

  // ---- the intrinsic order ----

  predicate LessObserved(a: Observation, b: Observation) {
    if a.key != b.key then StrLess(a.key, b.key)
    else if a.flow != b.flow then StrLess(a.flow, b.flow)
    else if a.service != b.service then StrLess(a.service, b.service)
    else if a.entry != b.entry then StrLess(a.entry, b.entry)
    else if a.op != b.op then StrLess(a.op, b.op)
    else StrLess(PathSig(a.path), PathSig(b.path))
  }

  /** One field of a lexicographic order. */
  lemma FieldOrder(a: string, b: string, c: string)
    ensures StrLess(a, c) ==> StrLess(a, b) || StrLess(b, c)
    ensures a != b ==> StrLess(a, b) || StrLess(b, a)
    ensures StrLess(a, b) ==> !StrLess(b, a)
  {
    if StrLess(a, c) { StrLessCotransitive(a, b, c); }
    if a != b { StrLessConnected(a, b); }
    if StrLess(a, b) { StrLessAsymmetric(a, b); }
  }

  /** The order of observations, and that only observations with the same text tie. */
  lemma IdentityOrder()
    ensures StrictWeak(LessObserved)
    ensures forall a, b :: !LessObserved(a, b) && !LessObserved(b, a) ==> Identity(a) == Identity(b)
  {
    hide LessObserved, Identity;
    forall a, b | LessObserved(a, b) ensures !LessObserved(b, a) { Asymmetric(a, b); }
    forall a, b, c | LessObserved(a, c) ensures LessObserved(a, b) || LessObserved(b, c) { Cotransitive(a, b, c); }
    forall a, b | !LessObserved(a, b) && !LessObserved(b, a) ensures Identity(a) == Identity(b) { Ties(a, b); }
  }

  lemma Asymmetric(a: Observation, b: Observation)
    requires LessObserved(a, b)
    ensures !LessObserved(b, a)
  {
    hide StrLess, PathSig;
    StrOrder();
  }

  lemma Cotransitive(a: Observation, b: Observation, c: Observation)
    requires LessObserved(a, c)
    ensures LessObserved(a, b) || LessObserved(b, c)
  {
    hide StrLess, PathSig;
    FieldOrder(a.key, b.key, c.key);
    FieldOrder(a.flow, b.flow, c.flow);
    FieldOrder(a.service, b.service, c.service);
    FieldOrder(a.entry, b.entry, c.entry);
    FieldOrder(a.op, b.op, c.op);
    FieldOrder(PathSig(a.path), PathSig(b.path), PathSig(c.path));
  }

  lemma Ties(a: Observation, b: Observation)
    requires !LessObserved(a, b) && !LessObserved(b, a)
    ensures Identity(a) == Identity(b)
  {
    hide StrLess, PathSig;
    FieldOrder(a.key, b.key, b.key);
    FieldOrder(a.flow, b.flow, b.flow);
    FieldOrder(a.service, b.service, b.service);
    FieldOrder(a.entry, b.entry, b.entry);
    FieldOrder(a.op, b.op, b.op);
    FieldOrder(PathSig(a.path), PathSig(b.path), PathSig(b.path));
  }

  /** Each text once. */
  ghost predicate Once(s: seq<Observation>) {
    forall i, j :: 0 <= i < j < |s| ==> Identity(s[i]) != Identity(s[j])
  }

  /** Sorted observations that hold each text once do not tie. */
  lemma OnceStrict(a: seq<Observation>)
    requires Once(a) && Sorted(a, LessObserved)
    ensures Strictly(a, LessObserved)
  {
    hide LessObserved, Identity;
    IdentityOrder();
  }
}
