/**
 * Async stitching: a new-root span that links to a known span is reparented onto it, unless that
 * would close a parent cycle. Parents are read the way the ancestor walk reads them: an empty
 * parent id, or one that no span carries, ends the chain.
 */
module Stitch {
  import opened Sorting
  import opened ParentForest
  import opened Assembly
  import C = Capture

  const FLOW_KEY := "flowmap.flow"

  // ---- global ids ----

  /** OTLP span ids are unique only within a trace. */
  function GlobalKey(traceId: string, spanId: string): string {
    if traceId == "" then spanId else traceId + "|" + spanId
  }

  function Rekey(s: C.Span): C.Span {
    s.(id := GlobalKey(s.traceId, s.id),
       parentId := if s.parentId == "" then "" else GlobalKey(s.traceId, s.parentId))
  }

  function Rekeyed(spans: Spans): Spans {
    Map(Rekey, spans)
  }

  /** Within one span set that carries trace ids, keying by trace keeps distinct spans distinct. */
  lemma GlobalKeyInjective(t: string, u: string, a: string, b: string)
    requires '|' !in t && '|' !in u && t != "" && u != ""
    requires GlobalKey(t, a) == GlobalKey(u, b)
    ensures t == u && a == b
  {
    var x, y := t + "|" + a, u + "|" + b;
    assert x[|t|] == '|' && y[|u|] == '|';
    assert forall k :: 0 <= k < |t| ==> x[k] == t[k] && t[k] in t;
    assert forall k :: 0 <= k < |u| ==> y[k] == u[k] && u[k] in u;
    assert x[..|t|] == t && y[..|u|] == u;
    assert x[|t| + 1..] == a && y[|u| + 1..] == b;
  }

  // ---- the ancestor walk ----

  /** The parent links an ancestor walk can follow: a later span replaces an earlier one of the same id. */
  function ParentsOf(spans: Spans): (up: Up)
    ensures "" !in up
    ensures |up| <= |spans|
  {
    if spans == [] then map[]
    else
      var n := |spans| - 1;
      var up := ParentsOf(spans[..n]);
      if spans[n].id == "" then up else up[spans[n].id := spans[n].parentId]
  }

  /** `target` is `start` or one of its ancestors. */
  ghost predicate Reaches(up: Up, start: string, target: string) {
    target != "" && Above(up, start, target)
  }

  /** `byID`, holding positions where the source holds pointers. */
  ghost predicate Indexed(spans: Spans, byId: map<string, nat>) {
    && (forall i :: 0 <= i < |spans| ==> spans[i].id in byId)
    && (forall a :: a in byId ==> byId[a] < |spans| && spans[byId[a]].id == a)
    && (forall a, j :: a in byId && byId[a] < j < |spans| ==> spans[j].id != a)
  }

  /** An index agrees with the parent links. */
  lemma {:induction false} IndexedParents(spans: Spans, byId: map<string, nat>)
    requires Indexed(spans, byId)
    ensures forall a :: a in ParentsOf(spans) <==> a in byId && a != ""
    ensures forall a :: a in ParentsOf(spans) ==> ParentsOf(spans)[a] == spans[byId[a]].parentId
  {
    forall a ensures a in ParentsOf(spans) <==> a in byId && a != ""
             ensures a in ParentsOf(spans) ==> ParentsOf(spans)[a] == spans[byId[a]].parentId {
      if a in byId {
        LastParent(spans, byId[a]);
      } else {
        NoParent(spans, a);
      }
    }
  }

  lemma {:induction false} NoParent(spans: Spans, a: string)
    requires forall i :: 0 <= i < |spans| ==> spans[i].id != a
    ensures a !in ParentsOf(spans)
  {
    if spans != [] {
      NoParent(spans[..|spans| - 1], a);
    }
  }

  lemma {:induction false} LastParent(spans: Spans, k: nat)
    requires k < |spans| && forall j :: k < j < |spans| ==> spans[j].id != spans[k].id
    ensures spans[k].id != "" ==> spans[k].id in ParentsOf(spans) && ParentsOf(spans)[spans[k].id] == spans[k].parentId
  {
    var n := |spans| - 1;
    if k < n {
      assert spans[n].id != spans[k].id;
      LastParent(spans[..n], k);
    }
  }

  /** An ancestor is never further away than there are links. */
  lemma {:induction false} ShortWay(up: Up, a: string, k: nat, b: string) returns (m: nat)
    requires NthUp(up, a, k, b)
    ensures m <= |up| && NthUp(up, a, m, b)
    decreases k
  {
    if k <= |up| {
      m := k;
    } else {
      var ids := Prefix(up, a, k, b);
      var i, j := PigeonHole(ids, up.Keys);
      NthUpRest(up, a, j, ids[j], k - j, b);
      NthUpTrans(up, a, i, ids[i], k - j, b);
      m := ShortWay(up, a, i + (k - j), b);
    }
  }

  lemma {:induction false} Prefix(up: Up, a: string, k: nat, b: string) returns (ids: seq<string>)
    requires NthUp(up, a, k, b)
    ensures |ids| == k
    ensures forall i :: 0 <= i < k ==> ids[i] in up && NthUp(up, a, i, ids[i])
    decreases k
  {
    if k == 0 {
      ids := [];
    } else {
      var rest := Prefix(up, up[a], k - 1, b);
      ids := [a] + rest;
      forall i | 0 <= i < k ensures ids[i] in up && NthUp(up, a, i, ids[i]) {
        if i > 0 { assert ids[i] == rest[i - 1]; }
      }
    }
  }

  /** What the bounded walk knows after `n` steps. */
  ghost predicate Walked(up: Up, start: string, target: string, n: nat, cur: string) {
    && NthUp(up, start, n, cur)
    && forall k: nat, b :: k < n && NthUp(up, start, k, b) ==> b != target
  }

  lemma WalkOn(up: Up, start: string, target: string, n: nat, cur: string)
    requires Walked(up, start, target, n, cur) && cur != target && cur in up
    ensures Walked(up, start, target, n + 1, up[cur])
  {
    assert NthUp(up, cur, 1, up[cur]) by {
      assert NthUp(up, up[cur], 0, up[cur]);
    }
    NthUpTrans(up, start, n, cur, 1, up[cur]);
    forall k: nat, b | k < n + 1 && NthUp(up, start, k, b) ensures b != target {
      if k == n { NthUpUnique(up, start, n, cur, b); }
    }
  }

  lemma WalkStops(up: Up, start: string, target: string, n: nat, cur: string)
    requires Walked(up, start, target, n, cur) && cur != target
    requires cur !in up || n > |up|
    ensures !Above(up, start, target)
  {
    if Above(up, start, target) {
      var k: nat :| NthUp(up, start, k, target);
      if n > |up| {
        var m := ShortWay(up, start, k, target);
      } else if k > n {
        NthUpRest(up, start, n, cur, k - n, target);
      } else if k == n {
        NthUpUnique(up, start, n, cur, target);
      }
    }
  }

  /** `reachesUp`: within its hop bound the walk is exact, cycles in the input included. */
  method ReachesUp(byId: map<string, nat>, out: array<C.Span>, start: string, target: string, maxHops: nat)
    returns (found: bool)
    requires Indexed(out[..], byId) && out.Length <= maxHops
    ensures found <==> Reaches(ParentsOf(out[..]), start, target)
  {
    hide ParentsOf, NthUp;
    ghost var up := ParentsOf(out[..]);
    IndexedParents(out[..], byId);
    var cur, n := start, 0;
    assert Walked(up, start, target, 0, start) by { StandStill(up, start); }
    while n <= maxHops && cur != ""
      invariant n <= maxHops + 1
      invariant Walked(up, start, target, n, cur)
      decreases maxHops + 1 - n
    {
      if cur == target {
        assert Above(up, start, target);
        return true;
      }
      if cur !in byId {
        WalkStops(up, start, target, n, cur);
        return false;
      }
      WalkOn(up, start, target, n, cur);
      cur, n := out[byId[cur]].parentId, n + 1;
    }
    if target != "" {
      if n > |up| { NeverLate(up, start, target, n); }
      WalkStops(up, start, target, n, cur);
    }
    return false;
  }

  lemma StandStill(up: Up, start: string)
    ensures NthUp(up, start, 0, start)
  {
  }

  lemma NeverLate(up: Up, start: string, target: string, n: nat)
    requires n > |up|
    ensures !Walked(up, start, target, n, target)
  {
    if NthUp(up, start, n, target) {
      var m := ShortWay(up, start, n, target);
    }
  }

  // ---- choosing a link ----

  function KeyOf(l: C.SpanLink): string {
    GlobalKey(l.traceId, l.spanId)
  }

  /** A link the reparent may follow: to a known span that is neither the span itself nor below it. */
  ghost predicate Valid(spans: Spans, self: string, l: C.SpanLink) {
    var key := KeyOf(l);
    key in IdsOf(spans) && !Reaches(ParentsOf(spans), key, self)
  }

  /** Some span under the link's target key carries the flow tag: the last one, as indexed. */
  ghost predicate Tagged(spans: Spans, l: C.SpanLink) {
    exists i :: 0 <= i < |spans| && spans[i].id == KeyOf(l) && C.Attr(spans[i], FLOW_KEY) != ""
                && forall j :: i < j < |spans| ==> spans[j].id != spans[i].id
  }

  /** Position of the first link that satisfies a property, or the number of links. */
  ghost function FirstWhere(links: seq<C.SpanLink>, p: C.SpanLink -> bool): (n: nat)
    ensures n <= |links|
    ensures n < |links| ==> p(links[n])
    ensures forall i :: 0 <= i < n ==> !p(links[i])
  {
    if links == [] || p(links[0]) then 0 else 1 + FirstWhere(links[1..], p)
  }

  /** The parent a new root gets: a valid link to a tagged span if there is one, else any valid link. */
  ghost function Choice(spans: Spans, s: C.Span): string {
    var best := FirstWhere(s.links, l => Valid(spans, s.id, l) && Tagged(spans, l));
    var any := FirstWhere(s.links, l => Valid(spans, s.id, l) && KeyOf(l) != "");
    if best < |s.links| then KeyOf(s.links[best])
    else if any < |s.links| then KeyOf(s.links[any])
    else ""
  }

  /** One link: may it be followed, and does its target carry the flow tag? */
  method CheckLink(byId: map<string, nat>, out: array<C.Span>, self: string, l: C.SpanLink) returns (valid: bool, tagged: bool)
    requires Indexed(out[..], byId)
    ensures valid <==> Valid(out[..], self, l)
    ensures valid ==> (tagged <==> Tagged(out[..], l))
  {
    hide ParentsOf, Reaches;
    var tk := KeyOf(l);
    tagged := false;
    if tk !in byId {
      return false, false;
    }
    assert out[byId[tk]] in out[..];
    var below := ReachesUp(byId, out, tk, self, out.Length);
    valid := !below;
    tagged := C.Attr(out[byId[tk]], FLOW_KEY) != "";
    if tagged {
      assert Tagged(out[..], l);
    }
  }

  /** The link loop for one span. */
  method ChooseLink(byId: map<string, nat>, out: array<C.Span>, s: C.Span) returns (fallback: string)
    requires Indexed(out[..], byId)
    ensures fallback == Choice(out[..], s)
  {
    hide Valid, Tagged, Indexed, KeyOf;
    ghost var spans := out[..];
    ghost var best := (l: C.SpanLink) => Valid(spans, s.id, l) && Tagged(spans, l);
    ghost var any := (l: C.SpanLink) => Valid(spans, s.id, l) && KeyOf(l) != "";
    fallback := "";
    for i := 0 to |s.links|
      invariant forall k :: 0 <= k < i ==> !best(s.links[k])
      invariant fallback == "" ==> forall k :: 0 <= k < i ==> !any(s.links[k])
      invariant fallback != "" ==> exists k :: 0 <= k < i && FirstAt(s.links, any, k) && fallback == KeyOf(s.links[k])
    {
      var l := s.links[i];
      var valid, tagged := CheckLink(byId, out, s.id, l);
      if !valid {
        continue;
      }
      if tagged {
        fallback := KeyOf(l);
        FirstIs(s.links, best, i);
        return;
      }
      if fallback == "" {
        fallback := KeyOf(l);
      }
    }
    ghost var n := FirstWhere(s.links, best);
    if fallback != "" {
      ghost var k :| 0 <= k < |s.links| && FirstAt(s.links, any, k) && fallback == KeyOf(s.links[k]);
      FirstIs(s.links, any, k);
    } else {
      ghost var m := FirstWhere(s.links, any);
    }
  }

  ghost predicate FirstAt(links: seq<C.SpanLink>, p: C.SpanLink -> bool, k: nat) {
    k < |links| && p(links[k]) && forall i :: 0 <= i < k ==> !p(links[i])
  }

  lemma {:induction false} FirstIs(links: seq<C.SpanLink>, p: C.SpanLink -> bool, k: nat)
    requires FirstAt(links, p, k)
    ensures FirstWhere(links, p) == k
  {
    var n := FirstWhere(links, p);
    assert p(links[k]);
  }

  // ---- grafting keeps the cycles ----

  /** Without the grafted link, a walk that ends inside the set is the same walk. */
  lemma {:induction false} WalkBefore(up: Up, id: string, p: string, a: string, k: nat, b: string)
    requires "" !in up && id in up && up[id] == ""
    requires NthUp(up, a, k, b) && b in up
    ensures NthUp(up[id := p], a, k, b)
    decreases k
  {
    if k > 0 {
      assert !NthUp(up, "", k - 1, b);
      WalkBefore(up, id, p, up[a], k - 1, b);
    }
  }

  /** With it, a walk to the grafted id passes through no other new link. */
  lemma {:induction false} WalkToGraft(up: Up, id: string, p: string, a: string, k: nat)
    requires id in up && NthUp(up[id := p], a, k, id)
    ensures Above(up, a, id)
    decreases k
  {
    if a == id {
      assert NthUp(up, a, 0, id);
    } else {
      WalkToGraft(up, id, p, up[a], k - 1);
      var m: nat :| NthUp(up, up[a], m, id);
      assert NthUp(up, a, m + 1, id);
    }
  }

  /** With it, a walk either goes through the grafted id or is an old walk. */
  lemma {:induction false} WalkAfter(up: Up, id: string, p: string, a: string, k: nat, b: string) returns (j: nat)
    requires id in up && NthUp(up[id := p], a, k, b)
    ensures NthUp(up, a, k, b) || (j < k && NthUp(up[id := p], a, j, id))
    decreases k
  {
    j := 0;
    if k > 0 && a != id {
      var l := WalkAfter(up, id, p, up[a], k - 1, b);
      j := l + 1;
    }
  }

  /** Giving a parentless id a parent that is not below it moves no id onto or off a cycle. */
  lemma GraftKeepsCycles(up: Up, id: string, p: string, a: string)
    requires "" !in up && id in up && up[id] == "" && !Above(up, p, id) && a in up
    ensures OnCycle(up[id := p], a) <==> OnCycle(up, a)
  {
    var grafted := up[id := p];
    if OnCycle(up, a) {
      var k: nat :| k > 0 && NthUp(up, a, k, a);
      WalkBefore(up, id, p, a, k, a);
    }
    if OnCycle(grafted, a) {
      var k: nat :| k > 0 && NthUp(grafted, a, k, a);
      var j := WalkAfter(up, id, p, a, k, a);
      if !NthUp(up, a, k, a) {
        NthUpRest(grafted, a, j, id, k - j, a);
        NthUpTrans(grafted, id, k - j, a, j, id);
        WalkToGraft(up, id, p, p, k - 1);
      }
    }
  }

  // ---- the reparenting pass ----

  /** Every span carries its own id last. */
  ghost predicate LastOfId(spans: Spans, i: nat) {
    i < |spans| && forall j :: i < j < |spans| ==> spans[j].id != spans[i].id
  }

  ghost function Adopt(s: C.Span, p: string): C.Span {
    if p == "" then s else s.(parentId := p, asyncLink := true)
  }

  lemma ParentsStep(spans: Spans, front: Spans, last: C.Span)
    requires spans == front + [last]
    ensures ParentsOf(spans) == if last.id == "" then ParentsOf(front) else ParentsOf(front)[last.id := last.parentId]
  {
    assert spans[..|spans| - 1] == front;
  }

  lemma {:induction false} ParentsAdopt(spans: Spans, i: nat, p: string)
    requires i < |spans| && p != ""
    ensures ParentsOf(spans[i := Adopt(spans[i], p)]) ==
            if spans[i].id != "" && LastOfId(spans, i) then ParentsOf(spans)[spans[i].id := p] else ParentsOf(spans)
  {
    hide ParentsOf;
    var n := |spans| - 1;
    var front, s, adopted := spans[..n], spans[i], Adopt(spans[i], p);
    ParentsStep(spans, front, spans[n]);
    if i == n {
      ParentsStep(spans[i := adopted], front, adopted);
    } else {
      ParentsStep(spans[i := adopted], front[i := adopted], spans[n]);
      ParentsAdopt(front, i, p);
      LastEarlier(spans, i);
    }
  }

  lemma LastEarlier(spans: Spans, i: nat)
    requires i + 1 < |spans|
    ensures LastOfId(spans, i) <==> LastOfId(spans[..|spans| - 1], i) && spans[|spans| - 1].id != spans[i].id
  {
  }

  /** The spans after the first `n` have had their turn: only original roots are ever reparented. */
  ghost function Linked(spans: Spans, n: nat): (r: Spans)
    requires n <= |spans|
    ensures |r| == |spans|
    ensures forall i :: n <= i < |spans| ==> r[i] == spans[i]
  {
    if n == 0 then spans
    else
      var before := Linked(spans, n - 1);
      var s := before[n - 1];
      if spans[n - 1].parentId == "" then before[n - 1 := Adopt(s, Choice(before, s))] else before
  }

  function Roots(spans: Spans): nat {
    if spans == [] then 0
    else
      var n := |spans| - 1;
      Roots(spans[..n]) + if spans[n].parentId == "" then 1 else 0
  }

  function AsyncMarks(spans: Spans): nat {
    if spans == [] then 0
    else
      var n := |spans| - 1;
      AsyncMarks(spans[..n]) + if spans[n].asyncLink then 1 else 0
  }

  /** What reparenting may do to one span. */
  ghost predicate Kept(before: C.Span, after: C.Span, ids: set<string>) {
    || after == before
    || (before.parentId == "" && after.parentId != "" && after == Adopt(before, after.parentId) && after.parentId in ids)
  }

  lemma ChoiceIsValid(spans: Spans, s: C.Span)
    ensures Choice(spans, s) != "" ==>
              Choice(spans, s) in IdsOf(spans) && !Reaches(ParentsOf(spans), Choice(spans, s), s.id)
  {
  }

  /** One turn moves no id onto or off a cycle. */
  lemma TurnKeepsCycles(spans: Spans, i: nat, a: string)
    requires i < |spans| && spans[i].parentId == ""
    ensures var after := spans[i := Adopt(spans[i], Choice(spans, spans[i]))];
            && (forall b :: b in ParentsOf(after) <==> b in ParentsOf(spans))
            && (a in ParentsOf(spans) ==> (OnCycle(ParentsOf(after), a) <==> OnCycle(ParentsOf(spans), a)))
  {
    hide Choice, OnCycle;
    var p := Choice(spans, spans[i]);
    if p == "" {
      assert spans[i := spans[i]] == spans;
    } else {
      ChoiceIsValid(spans, spans[i]);
      ParentsAdopt(spans, i, p);
      if spans[i].id != "" && LastOfId(spans, i) {
        LastParent(spans, i);
        if a in ParentsOf(spans) {
          GraftKeepsCycles(ParentsOf(spans), spans[i].id, p, a);
        }
      }
    }
  }

  /** Stitching creates no cycle and breaks none, whatever the links are. */
  lemma {:induction false} StitchKeepsCycles(spans: Spans, n: nat, a: string)
    requires n <= |spans|
    ensures a in ParentsOf(Linked(spans, n)) <==> a in ParentsOf(spans)
    ensures a in ParentsOf(spans) ==>
              (OnCycle(ParentsOf(Linked(spans, n)), a) <==> OnCycle(ParentsOf(spans), a))
  {
    hide ParentsOf, Choice, OnCycle;
    if n > 0 {
      StitchKeepsCycles(spans, n - 1, a);
      if spans[n - 1].parentId == "" {
        TurnKeepsCycles(Linked(spans, n - 1), n - 1, a);
      }
    }
  }

  /** Everything but the parent and the mark of a reparented root is untouched; its new parent is a known span. */
  lemma {:induction false} StitchKeepsSpans(spans: Spans, n: nat)
    requires n <= |spans|
    ensures forall i :: 0 <= i < |spans| ==> Kept(spans[i], Linked(spans, n)[i], IdsOf(spans))
    ensures IdsOf(Linked(spans, n)) == IdsOf(spans)
  {
    hide Choice;
    if n > 0 {
      StitchKeepsSpans(spans, n - 1);
      var before := Linked(spans, n - 1);
      ChoiceIsValid(before, before[n - 1]);
    }
    SameIds(spans, Linked(spans, n));
  }

  lemma SameIds(a: Spans, b: Spans)
    requires |a| == |b| && forall i :: 0 <= i < |a| ==> a[i].id == b[i].id
    ensures IdsOf(a) == IdsOf(b)
  {
    forall x ensures x in IdsOf(a) <==> x in IdsOf(b) {
      if x in IdsOf(a) { var i :| 0 <= i < |a| && a[i].id == x; assert b[i] in b; }
      if x in IdsOf(b) { var i :| 0 <= i < |b| && b[i].id == x; assert a[i] in a; }
    }
  }

  lemma {:induction false} CountsAgree(before: Spans, after: Spans, ids: set<string>)
    requires |before| == |after| && forall i :: 0 <= i < |before| ==> Kept(before[i], after[i], ids)
    requires forall i :: 0 <= i < |before| ==> !before[i].asyncLink
    ensures Roots(after) + AsyncMarks(after) == Roots(before)
  {
    if before != [] {
      var n := |before| - 1;
      CountsAgree(before[..n], after[..n], ids);
    }
  }

  /** Each mark stands for one root that became a continuation. */
  lemma StitchCountsRoots(spans: Spans)
    requires forall i :: 0 <= i < |spans| ==> !spans[i].asyncLink
    ensures Roots(Linked(spans, |spans|)) + AsyncMarks(Linked(spans, |spans|)) == Roots(spans)
  {
    StitchKeepsSpans(spans, |spans|);
    CountsAgree(spans, Linked(spans, |spans|), IdsOf(spans));
  }
}
