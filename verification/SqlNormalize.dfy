/**
 * The canonical statement: placeholder lists whose length may vary are collapsed, the tokens are
 * joined, and the operation and primary table are read off them. The two list patterns are stated on
 * tokens, which is where they can match.
 */
module SqlNormalize {
  import opened Text
  import opened SqlTokens
  import opened SqlBlanks

  // ---- placeholder lists ----

  /** Length of the longest leading run of ", ?". */
  function Marks(ts: seq<string>): (k: nat)
    ensures k <= |ts|
  {
    if |ts| >= 2 && ts[0] == "," && ts[1] == "?" then 2 + Marks(ts[2..]) else 0
  }

  /** Length of a leading "( ? , ? ... )", or 0. */
  function Row(ts: seq<string>): (k: nat)
    ensures k <= |ts|
    ensures k > 0 ==> k >= 3
  {
    if |ts| >= 3 && ts[0] == "(" && ts[1] == "?" && 2 + Marks(ts[2..]) < |ts| && ts[2 + Marks(ts[2..])] == ")"
    then 3 + Marks(ts[2..])
    else 0
  }

  /** Length of the longest leading run of complete further rows, each after a comma. */
  function MoreRows(ts: seq<string>): (k: nat)
    ensures k <= |ts|
  {
    if ts != [] && ts[0] == "," && Row(ts[1..]) > 0
    then 1 + Row(ts[1..]) + MoreRows(ts[1 + Row(ts[1..])..])
    else 0
  }

  /** What the list pattern of a keyword matches right behind it. */
  function ListLen(ts: seq<string>, many: bool): (k: nat)
    ensures k <= |ts|
    ensures k > 0 ==> k >= 3
  {
    var k := Row(ts);
    if k > 0 && many then k + MoreRows(ts[k..]) else k
  }

  /** Every list behind `kw` becomes the one-placeholder list; `many` lets it span rows. */
  function CollapseAfter(ts: seq<string>, kw: string, many: bool): seq<string> {
    if ts == [] then []
    else if ts[0] == kw && ListLen(ts[1..], many) > 0
    then [kw, "(", "?", ")"] + CollapseAfter(ts[1 + ListLen(ts[1..], many)..], kw, many)
    else [ts[0]] + CollapseAfter(ts[1..], kw, many)
  }

  function Collapse(ts: seq<string>): seq<string> {
    CollapseAfter(CollapseAfter(ts, "IN", false), "VALUES", true)
  }

  /** The tokens with single spaces, a collapsed list written tight behind its keyword. */
  function Render(ts: seq<string>): string {
    if ts == [] then ""
    else if TightList(ts) then
      ts[0] + " (?)" + if |ts| > 4 then " " + Render(ts[4..]) else ""
    else ts[0] + if |ts| > 1 then " " + Render(ts[1..]) else ""
  }

  predicate TightList(ts: seq<string>) {
    |ts| >= 4 && (ts[0] == "IN" || ts[0] == "VALUES") && ts[1] == "(" && ts[2] == "?" && ts[3] == ")"
  }

  // ---- operation and table ----

  datatype Option<T> = None | Some(value: T)

  function Undoubled(s: string): string {
    if s == "" then ""
    else if "\"\"" <= s then "\"" + Undoubled(s[2..])
    else [s[0]] + Undoubled(s[1..])
  }

  function UnquoteIdent(tok: string): string {
    if |tok| < 2 || tok[0] != '"' || tok[|tok| - 1] != '"' then tok
    else Undoubled(tok[1..|tok| - 1])
  }

  function TableIdent(tok: string): Option<string> {
    if tok == "" then None
    else if tok[0] == '"' then Some(UnquoteIdent(tok))
    else if IsIdent(tok[0]) && tok == Lower(tok) then Some(tok)
    else None
  }

  function IdentAfter(ts: seq<string>, after: set<string>): string {
    if |ts| < 2 then ""
    else if ts[0] in after && TableIdent(ts[1]).Some? then TableIdent(ts[1]).value
    else IdentAfter(ts[1..], after)
  }

  const QUALIFIERS: set<string> := {"only", "low_priority", "ignore"}

  /** The first table name behind any qualifier words. */
  function UpdateTable(ts: seq<string>): string {
    if ts == [] then ""
    else if ts[0] in QUALIFIERS then UpdateTable(ts[1..])
    else if TableIdent(ts[0]).Some? then TableIdent(ts[0]).value
    else ""
  }

  function Table(ts: seq<string>): string {
    if ts == [] then ""
    else if ts[0] in {"INSERT", "DELETE", "MERGE", "REPLACE", "UPSERT"} then IdentAfter(ts, {"INTO", "FROM"})
    else if ts[0] == "UPDATE" then UpdateTable(ts[1..])
    else if ts[0] == "SELECT" then IdentAfter(ts, {"FROM"})
    else ""
  }

  datatype Normalized = Normalized(statement: string, operation: string, table: string)

  /**
   * `assemble`: lists collapsed, runs of blanks squeezed and the ends trimmed. A form feed is a token, but the
   * list patterns and the squeeze read it as a gap, so it is gone before either.
   */
  function Assembled(ts: seq<string>): string {
    Trim(Squeeze(Render(Collapse(WithoutFormFeeds(ts)))))
  }

  function Operation(ts: seq<string>): string {
    if ts == [] then "" else ts[0]
  }

  /** The statement is assembled from the tokens; its operation and table are read off the tokens as they came. */
  function NormalForm(raw: string): Normalized {
    var ts := Tokenized(raw);
    Normalized(Assembled(ts), Operation(ts), Table(ts))
  }

  method IdentAfterLoop(ts: seq<string>, after: set<string>) returns (table: string)
    ensures table == IdentAfter(ts, after)
  {
    var i := 0;
    while i + 1 < |ts|
      invariant 0 <= i <= |ts|
      invariant IdentAfter(ts, after) == IdentAfter(ts[i..], after)
    {
      assert ts[i..][1..] == ts[i + 1..];
      if ts[i] in after {
        var found := TableIdent(ts[i + 1]);
        if found.Some? {
          return found.value;
        }
      }
      i := i + 1;
    }
    return "";
  }

  method UpdateTableLoop(ts: seq<string>) returns (table: string)
    requires ts != []
    ensures table == UpdateTable(ts[1..])
  {
    for i := 1 to |ts|
      invariant UpdateTable(ts[1..]) == UpdateTable(ts[i..])
    {
      assert ts[i..][1..] == ts[i + 1..];
      if ts[i] in QUALIFIERS {
        continue;
      }
      var found := TableIdent(ts[i]);
      if found.Some? {
        return found.value;
      }
      return "";
    }
    return "";
  }

  // ---- collapsing leaves lists recognizable ----

  /** The tokens list patterns are made of; no keyword is among them. */
  predicate ListToken(t: string) {
    t == "(" || t == "?" || t == "," || t == ")"
  }

  lemma CollapseHead(ts: seq<string>, kw: string, many: bool)
    requires ts != []
    ensures var c := CollapseAfter(ts, kw, many);
            c != [] && c[0] == ts[0] && (ts[0] != kw ==> c[1..] == CollapseAfter(ts[1..], kw, many))
  {
  }

  lemma CollapseTwo(ts: seq<string>, kw: string, many: bool)
    requires |ts| >= 2 && ts[0] != kw && ts[1] != kw
    ensures CollapseAfter(ts, kw, many) == [ts[0], ts[1]] + CollapseAfter(ts[2..], kw, many)
  {
    hide ListLen;
    assert ts[1..][0] == ts[1] && ts[1..][1..] == ts[2..];
    assert CollapseAfter(ts[1..], kw, many) == [ts[1]] + CollapseAfter(ts[2..], kw, many);
    assert [ts[0]] + ([ts[1]] + CollapseAfter(ts[2..], kw, many)) == [ts[0], ts[1]] + CollapseAfter(ts[2..], kw, many);
  }

  /** The first two tokens tell whether a list goes on. */
  predicate MarkAhead(ts: seq<string>) {
    |ts| >= 2 && ts[0] == "," && ts[1] == "?"
  }

  lemma MarksStep(ts: seq<string>)
    ensures MarkAhead(ts) ==> Marks(ts) == 2 + Marks(ts[2..])
    ensures !MarkAhead(ts) ==> Marks(ts) == 0
  {
  }

  lemma MarkKept(ts: seq<string>, kw: string, many: bool)
    requires !ListToken(kw)
    ensures MarkAhead(CollapseAfter(ts, kw, many)) <==> MarkAhead(ts)
  {
    hide CollapseAfter;
    var c := CollapseAfter(ts, kw, many);
    NothingToCollapse(kw, many);
    if ts != [] {
      CollapseHead(ts, kw, many);
      if |ts| > 1 { CollapseHead(ts[1..], kw, many); }
      assert |c| > 1 ==> c[1] == c[1..][0];
    }
  }

  lemma {:induction false} MarksKept(ts: seq<string>, kw: string, many: bool)
    requires !ListToken(kw)
    ensures Marks(CollapseAfter(ts, kw, many)) == Marks(ts)
    ensures CollapseAfter(ts, kw, many) == ts[..Marks(ts)] + CollapseAfter(ts[Marks(ts)..], kw, many)
  {
    hide CollapseAfter, Marks;
    var c := CollapseAfter(ts, kw, many);
    MarkKept(ts, kw, many);
    MarksStep(ts);
    MarksStep(c);
    if MarkAhead(ts) {
      var rest, k := ts[2..], Marks(ts[2..]);
      MarksKept(rest, kw, many);
      CollapseTwo(ts, kw, many);
      assert c[2..] == CollapseAfter(rest, kw, many);
      TwoMore(ts, k, CollapseAfter(rest[k..], kw, many));
    } else {
      assert ts[..0] == [] && ts[0..] == ts;
    }
  }

  lemma TwoMore(ts: seq<string>, k: nat, more: seq<string>)
    requires |ts| >= 2 + k
    ensures [ts[0], ts[1]] + (ts[2..][..k] + more) == ts[..2 + k] + more
    ensures ts[2..][k..] == ts[2 + k..]
  {
  }

  lemma NothingToCollapse(kw: string, many: bool)
    ensures CollapseAfter([], kw, many) == []
  {
  }

  lemma RowKept(ts: seq<string>, kw: string, many: bool)
    requires !ListToken(kw)
    ensures Row(CollapseAfter(ts, kw, many)) == Row(ts)
    ensures CollapseAfter(ts, kw, many) == ts[..Row(ts)] + CollapseAfter(ts[Row(ts)..], kw, many)
  {
    hide CollapseAfter, Marks;
    var c := CollapseAfter(ts, kw, many);
    NothingToCollapse(kw, many);
    if ts != [] {
      CollapseHead(ts, kw, many);
      if |ts| > 1 { CollapseHead(ts[1..], kw, many); }
      if |ts| >= 2 && ts[0] == "(" && ts[1] == "?" {
        var k := Marks(ts[2..]);
        assert c[1..][1..] == c[2..] && ts[1..][1..] == ts[2..];
        MarksKept(ts[2..], kw, many);
        assert c == ["(", "?"] + (ts[2..][..k] + CollapseAfter(ts[2..][k..], kw, many));
        if 2 + k < |ts| {
          assert ts[2..][k..] == ts[2 + k..];
          CollapseHead(ts[2 + k..], kw, many);
          assert ts[2 + k..][1..] == ts[3 + k..];
          assert ts[..3 + k] == ["(", "?"] + ts[2..][..k] + [ts[2 + k]];
        }
      } else {
        assert |c| >= 2 ==> c[1] == c[1..][0];
      }
    }
  }

  lemma {:induction false} MoreRowsKept(ts: seq<string>, kw: string, many: bool)
    requires !ListToken(kw)
    ensures MoreRows(CollapseAfter(ts, kw, many)) == MoreRows(ts)
  {
    hide CollapseAfter, Row;
    var c := CollapseAfter(ts, kw, many);
    NothingToCollapse(kw, many);
    if ts != [] {
      CollapseHead(ts, kw, many);
      if ts[0] == "," {
        var k := Row(ts[1..]);
        RowKept(ts[1..], kw, many);
        if k > 0 {
          MoreRowsKept(ts[1 + k..], kw, many);
          assert ts[1..][k..] == ts[1 + k..];
          assert c[1 + k..] == c[1..][k..] == CollapseAfter(ts[1 + k..], kw, many);
        }
      }
    }
  }

  lemma ListKept(ts: seq<string>, kw: string, many: bool, rows: bool)
    requires !ListToken(kw)
    ensures ListLen(CollapseAfter(ts, kw, many), rows) == ListLen(ts, rows)
  {
    hide CollapseAfter, Row, MoreRows;
    var k := Row(ts);
    RowKept(ts, kw, many);
    if k > 0 {
      MoreRowsKept(ts[k..], kw, many);
      assert CollapseAfter(ts, kw, many)[k..] == CollapseAfter(ts[k..], kw, many);
    }
  }

  lemma {:induction false} RowsEnd(ts: seq<string>)
    ensures MoreRows(ts[MoreRows(ts)..]) == 0
  {
    hide Row;
    var k := MoreRows(ts);
    if k > 0 {
      var rest := ts[1 + Row(ts[1..])..];
      RowsEnd(rest);
      assert ts[k..] == rest[MoreRows(rest)..];
    }
  }

  /** No list behind `kw` is longer than one placeholder. */
  ghost predicate Tight(ts: seq<string>, kw: string, many: bool) {
    forall i :: 0 <= i < |ts| && ts[i] == kw ==> ListLen(ts[i + 1..], many) <= 3
  }

  lemma TightTail(ts: seq<string>, n: nat, kw: string, many: bool)
    requires Tight(ts, kw, many) && n <= |ts|
    ensures Tight(ts[n..], kw, many)
  {
    forall i | 0 <= i < |ts[n..]| && ts[n..][i] == kw ensures ListLen(ts[n..][i + 1..], many) <= 3 {
      assert ts[n..][i + 1..] == ts[n + i + 1..];
    }
  }

  lemma TightFront(front: seq<string>, ts: seq<string>, kw: string, many: bool)
    requires Tight(ts, kw, many)
    requires forall i :: 0 <= i < |front| && front[i] == kw ==> ListLen(front[i + 1..] + ts, many) <= 3
    ensures Tight(front + ts, kw, many)
  {
    forall i | 0 <= i < |front + ts| && (front + ts)[i] == kw ensures ListLen((front + ts)[i + 1..], many) <= 3 {
      if i < |front| {
        assert (front + ts)[i + 1..] == front[i + 1..] + ts;
      } else {
        assert (front + ts)[i + 1..] == ts[i - |front| + 1..];
      }
    }
  }

  lemma TightOne(t: string, ts: seq<string>, kw: string, many: bool)
    requires Tight(ts, kw, many) && (t == kw ==> ListLen(ts, many) <= 3)
    ensures Tight([t] + ts, kw, many)
  {
    assert [t][1..] + ts == ts;
    TightFront([t], ts, kw, many);
  }

  lemma TightAfterList(t: string, ts: seq<string>, kw: string, many: bool)
    requires Tight(ts, kw, many) && !ListToken(kw)
    requires t == kw ==> ListLen(["(", "?", ")"] + ts, many) <= 3
    ensures Tight([t, "(", "?", ")"] + ts, kw, many)
  {
    assert [t, "(", "?", ")"][1..] == ["(", "?", ")"];
    TightFront([t, "(", "?", ")"], ts, kw, many);
  }

  lemma ShortList(ts: seq<string>, many: bool)
    requires 0 < ListLen(ts, many) <= 3
    ensures ListLen(ts, many) == 3 && ts[..3] == ["(", "?", ")"]
  {
  }

  lemma {:induction false} TightIsFixed(ts: seq<string>, kw: string, many: bool)
    requires Tight(ts, kw, many)
    ensures CollapseAfter(ts, kw, many) == ts
  {
    hide ListLen;
    if ts != [] {
      assert ts[0] == kw ==> ListLen(ts[1..], many) <= 3;
      if ts[0] == kw && ListLen(ts[1..], many) > 0 {
        ShortList(ts[1..], many);
        TightTail(ts, 4, kw, many);
        TightIsFixed(ts[4..], kw, many);
        assert ts == [ts[0]] + ts[1..][..3] + ts[4..];
      } else {
        TightTail(ts, 1, kw, many);
        TightIsFixed(ts[1..], kw, many);
      }
    }
  }

  lemma CollapsedList(rest: seq<string>, many: bool)
    requires many ==> MoreRows(rest) == 0
    ensures ListLen(["(", "?", ")"] + rest, many) == 3
  {
    var ts := ["(", "?", ")"] + rest;
    assert ts[2] == ")" && ts[2..][0] == ")" && ts[3..] == rest;
    assert Row(ts) == 3;
  }

  lemma {:induction false} CollapseTightens(ts: seq<string>, kw: string, many: bool)
    requires !ListToken(kw)
    ensures Tight(CollapseAfter(ts, kw, many), kw, many)
  {
    hide ListLen, Tight;
    if ts == [] {
      NothingTight(kw, many);
    } else {
      var k := ListLen(ts[1..], many);
      if ts[0] == kw && k > 0 {
        var rest := ts[1 + k..];
        CollapseTightens(rest, kw, many);
        if many { ListStops(ts[1..]); MoreRowsKept(rest, kw, many); assert ts[1..][k..] == rest; }
        CollapsedList(CollapseAfter(rest, kw, many), many);
        TightAfterList(kw, CollapseAfter(rest, kw, many), kw, many);
      } else {
        CollapseTightens(ts[1..], kw, many);
        ListKept(ts[1..], kw, many, many);
        TightOne(ts[0], CollapseAfter(ts[1..], kw, many), kw, many);
      }
    }
  }

  lemma NothingTight(kw: string, many: bool)
    ensures Tight([], kw, many)
  {
  }

  lemma TightHead(ts: seq<string>, kw: string, many: bool)
    requires Tight(ts, kw, many) && ts != [] && ts[0] == kw
    ensures ListLen(ts[1..], many) <= 3
  {
  }

  lemma ListStops(ts: seq<string>)
    requires ListLen(ts, true) > 0
    ensures MoreRows(ts[ListLen(ts, true)..]) == 0
  {
    hide MoreRows, Row;
    var k := Row(ts);
    RowsEnd(ts[k..]);
    assert ts[k..][MoreRows(ts[k..])..] == ts[ListLen(ts, true)..];
  }

  lemma {:induction false} CollapseKeepsTight(ts: seq<string>, kw: string, many: bool, other: string, rows: bool)
    requires !ListToken(kw) && !ListToken(other) && kw != other && Tight(ts, other, rows)
    ensures Tight(CollapseAfter(ts, kw, many), other, rows)
  {
    hide ListLen, Tight;
    if ts == [] {
      NothingTight(other, rows);
    } else {
      var k := ListLen(ts[1..], many);
      if ts[0] == kw && k > 0 {
        TightTail(ts, 1 + k, other, rows);
        CollapseKeepsTight(ts[1 + k..], kw, many, other, rows);
        TightAfterList(kw, CollapseAfter(ts[1 + k..], kw, many), other, rows);
      } else {
        TightTail(ts, 1, other, rows);
        CollapseKeepsTight(ts[1..], kw, many, other, rows);
        ListKept(ts[1..], kw, many, rows);
        if ts[0] == other { TightHead(ts, other, rows); }
        TightOne(ts[0], CollapseAfter(ts[1..], kw, many), other, rows);
      }
    }
  }

  /** What collapsing leaves has no list to collapse. */
  lemma CollapseLeavesTight(ts: seq<string>)
    ensures Tight(Collapse(ts), "IN", false) && Tight(Collapse(ts), "VALUES", true)
  {
    hide Tight, CollapseAfter;
    var once := CollapseAfter(ts, "IN", false);
    CollapseTightens(ts, "IN", false);
    CollapseKeepsTight(once, "VALUES", true, "IN", false);
    CollapseTightens(once, "VALUES", true);
  }

  lemma TightIsCollapsed(ts: seq<string>)
    requires Tight(ts, "IN", false) && Tight(ts, "VALUES", true)
    ensures Collapse(ts) == ts
  {
    TightIsFixed(ts, "IN", false);
    TightIsFixed(ts, "VALUES", true);
  }

  /** Collapsing twice is collapsing once. */
  lemma CollapseIdempotent(ts: seq<string>)
    ensures Collapse(Collapse(ts)) == Collapse(ts)
  {
    hide Tight, Collapse;
    CollapseLeavesTight(ts);
    TightIsCollapsed(Collapse(ts));
  }

  // ---- the operation and the table are stable ----

  lemma {:induction false} SkipOthers(front: seq<string>, ts: seq<string>, after: set<string>)
    requires forall t :: t in front ==> t !in after
    ensures IdentAfter(front + ts, after) == IdentAfter(ts, after)
  {
    if front == [] {
      assert front + ts == ts;
    } else {
      assert (front + ts)[1..] == front[1..] + ts;
      SkipOthers(front[1..], ts, after);
    }
  }

  lemma {:induction false} MarksTokens(ts: seq<string>)
    ensures forall i :: 0 <= i < Marks(ts) ==> ListToken(ts[i])
  {
    if Marks(ts) > 0 {
      MarksTokens(ts[2..]);
      forall i | 0 <= i < Marks(ts) ensures ListToken(ts[i]) {
        if i >= 2 { assert ts[i] == ts[2..][i - 2]; }
      }
    }
  }

  lemma RowTokens(ts: seq<string>)
    ensures forall i :: 0 <= i < Row(ts) ==> ListToken(ts[i])
  {
    if Row(ts) > 0 {
      MarksTokens(ts[2..]);
      forall i | 0 <= i < Row(ts) ensures ListToken(ts[i]) {
        if 2 <= i < Row(ts) - 1 { assert ts[i] == ts[2..][i - 2]; }
      }
    }
  }

  lemma {:induction false} MoreRowsTokens(ts: seq<string>)
    ensures forall i :: 0 <= i < MoreRows(ts) ==> ListToken(ts[i])
  {
    hide Row;
    if MoreRows(ts) > 0 {
      var k := Row(ts[1..]);
      RowTokens(ts[1..]);
      MoreRowsTokens(ts[1 + k..]);
      forall i | 0 <= i < MoreRows(ts) ensures ListToken(ts[i]) {
        if 0 < i <= k { assert ts[i] == ts[1..][i - 1]; }
        if k < i { assert ts[i] == ts[1 + k..][i - 1 - k]; }
      }
    }
  }

  /** A list holds nothing but list tokens. */
  lemma ListTokens(ts: seq<string>, many: bool)
    ensures forall i :: 0 <= i < ListLen(ts, many) ==> ListToken(ts[i])
  {
    hide Row, MoreRows;
    var k := Row(ts);
    RowTokens(ts);
    MoreRowsTokens(ts[k..]);
    forall i | 0 <= i < ListLen(ts, many) ensures ListToken(ts[i]) {
      if k <= i { assert ts[i] == ts[k..][i - k]; }
    }
  }

  lemma {:induction false} CollapseKeepsTable(ts: seq<string>, kw: string, many: bool, after: set<string>)
    requires kw !in after && forall t :: t in after ==> !ListToken(t)
    ensures IdentAfter(CollapseAfter(ts, kw, many), after) == IdentAfter(ts, after)
  {
    hide ListLen, TableIdent;
    if ts != [] {
      var k := ListLen(ts[1..], many);
      if ts[0] == kw && k > 0 {
        var list, rest := ts[1..][..k], ts[1 + k..];
        ListTokens(ts[1..], many);
        CollapseKeepsTable(rest, kw, many, after);
        SkipOthers([kw, "(", "?", ")"], CollapseAfter(rest, kw, many), after);
        SkipOthers([kw] + list, rest, after);
        assert ts == ([kw] + list) + rest;
      } else {
        CollapseKeepsTable(ts[1..], kw, many, after);
        CollapseHead(ts, kw, many);
        if |ts| > 1 { CollapseHead(ts[1..], kw, many); }
      }
    }
  }

  lemma {:induction false} CollapseKeepsTarget(ts: seq<string>, kw: string, many: bool)
    requires kw !in QUALIFIERS
    ensures UpdateTable(CollapseAfter(ts, kw, many)) == UpdateTable(ts)
  {
    hide CollapseAfter, TableIdent;
    NothingToCollapse(kw, many);
    if ts != [] {
      CollapseHead(ts, kw, many);
      CollapseKeepsTarget(ts[1..], kw, many);
    }
  }

  lemma CollapseKeepsOp(ts: seq<string>, kw: string, many: bool)
    requires kw == "IN" || kw == "VALUES"
    ensures Table(CollapseAfter(ts, kw, many)) == Table(ts)
  {
    hide CollapseAfter, IdentAfter, UpdateTable;
    NothingToCollapse(kw, many);
    if ts != [] {
      CollapseHead(ts, kw, many);
      CollapseKeepsTable(ts, kw, many, {"INTO", "FROM"});
      CollapseKeepsTable(ts, kw, many, {"FROM"});
      CollapseKeepsTarget(ts[1..], kw, many);
    }
  }

  /** Collapsing moves neither the verb nor the table. */
  lemma CollapseKeepsLabels(ts: seq<string>)
    ensures Table(Collapse(ts)) == Table(ts)
    ensures (ts == [] <==> Collapse(ts) == []) && (ts != [] ==> Collapse(ts)[0] == ts[0])
  {
    hide CollapseAfter, Table;
    var once := CollapseAfter(ts, "IN", false);
    CollapseKeepsOp(ts, "IN", false);
    CollapseKeepsOp(once, "VALUES", true);
    NothingToCollapse("IN", false);
    NothingToCollapse("VALUES", true);
    if ts != [] {
      CollapseHead(ts, "IN", false);
      CollapseHead(once, "VALUES", true);
    }
  }

  // ---- the statement reads back ----

  lemma {:induction false} CollapseKeepsTokens(ts: seq<string>, kw: string, many: bool)
    requires forall t :: t in ts ==> IsToken(t)
    ensures forall t :: t in CollapseAfter(ts, kw, many) ==> IsToken(t)
  {
    hide IsToken, ListLen;
    if ts != [] {
      var k := ListLen(ts[1..], many);
      if ts[0] == kw && k > 0 {
        CollapseKeepsTokens(ts[1 + k..], kw, many);
        ListIsTokens();
      } else {
        CollapseKeepsTokens(ts[1..], kw, many);
      }
    }
  }

  lemma ListIsTokens()
    ensures IsToken("(") && IsToken("?") && IsToken(")")
  {
    assert IsOtherByte("("[0]) && IsOtherByte(")"[0]);
  }

  /** The tight list is three tokens. */
  lemma ReadList(prev: char, rest: string)
    requires Bounded(rest)
    ensures Tokens(prev, "(?)" + rest) == ["(", "?", ")"] + Tokens(' ', rest)
  {
    hide Tokens, IsToken;
    ListIsTokens();
    ReadOne('?', ")", rest);
    ReadMark('(', ")" + rest);
    ReadParen(prev, "?" + (")" + rest));
    assert "(?)" + rest == "(" + ("?" + (")" + rest));
    assert ["("] + (["?"] + ([")"] + Tokens(' ', rest))) == ["(", "?", ")"] + Tokens(' ', rest);
  }

  lemma ReadMark(prev: char, rest: string)
    ensures Tokens(prev, "?" + rest) == ["?"] + Tokens('?', rest)
  {
    var s := "?" + rest;
    ReadPlaceholder(prev, rest);
    assert s[0] == '?' && s[1..] == rest;
  }

  lemma ReadParen(prev: char, rest: string)
    ensures Tokens(prev, "(" + rest) == ["("] + Tokens('(', rest)
  {
    var s := "(" + rest;
    assert s[0] == '(' && s[1..] == rest;
    assert !("--" <= s) && !("/*" <= s);
    assert Next(prev, s) == (["("], 1);
  }

  /** The text after a rendered head: the rendered rest behind a space, if there is any. */
  function Then(ts: seq<string>, rest: string): string {
    if ts == [] then rest else " " + (Render(ts) + rest)
  }

  lemma TightText(head: string, tail: string, rest: string)
    ensures (head + " (?)" + tail) + rest == head + (" " + ("(?)" + (tail + rest)))
  {
    assert " (?)" == " " + "(?)";
  }

  lemma RenderTight(ts: seq<string>, rest: string)
    requires TightList(ts)
    ensures Render(ts) + rest == ts[0] + (" " + ("(?)" + Then(ts[4..], rest)))
  {
    var tail := if |ts| > 4 then " " + Render(ts[4..]) else "";
    TightText(ts[0], tail, rest);
    assert tail + rest == Then(ts[4..], rest) by {
      if |ts| > 4 { assert (" " + Render(ts[4..])) + rest == " " + (Render(ts[4..]) + rest); }
    }
  }

  lemma ReadTight(prev: char, ts: seq<string>, rest: string)
    requires TightList(ts) && IsToken(ts[0]) && Bounded(rest)
    requires Tokens(' ', Then(ts[4..], rest)) == ts[4..] + Tokens(' ', rest)
    ensures Tokens(prev, Render(ts) + rest) == ts + Tokens(' ', rest)
  {
    hide IsToken, Tokens, Render, Then;
    var after := Then(ts[4..], rest);
    RenderTight(ts, rest);
    assert Bounded(after) by { BoundedThen(ts[4..], rest); }
    ReadOne(prev, ts[0], " " + ("(?)" + after));
    ReadSpace(' ', "(?)" + after);
    ReadList(' ', after);
    assert ts == [ts[0]] + (["(", "?", ")"] + ts[4..]);
    var list, more := ["(", "?", ")"], Tokens(' ', rest);
    assert [ts[0]] + (list + (ts[4..] + more)) == ([ts[0]] + (list + ts[4..])) + more;
  }

  lemma BoundedThen(ts: seq<string>, rest: string)
    requires Bounded(rest)
    ensures Bounded(Then(ts, rest))
  {
  }

  lemma ReadPlain(prev: char, ts: seq<string>, rest: string)
    requires ts != [] && !TightList(ts) && IsToken(ts[0]) && Bounded(rest)
    requires Tokens(' ', Then(ts[1..], rest)) == ts[1..] + Tokens(' ', rest)
    ensures Tokens(prev, Render(ts) + rest) == ts + Tokens(' ', rest)
  {
    hide IsToken, Tokens, TightList;
    var after := Then(ts[1..], rest);
    assert Render(ts) + rest == ts[0] + after by {
      if |ts| == 1 {
        assert Render(ts) == ts[0] + "" == ts[0];
      } else {
        assert Render(ts) == ts[0] + (" " + Render(ts[1..]));
      }
    }
    ReadOne(prev, ts[0], after);
    assert [ts[0]] + (ts[1..] + Tokens(' ', rest)) == ts + Tokens(' ', rest);
  }

  lemma {:induction false} RenderReadsBack(prev: char, ts: seq<string>, rest: string)
    requires forall t :: t in ts ==> IsToken(t)
    requires Bounded(rest)
    ensures Tokens(prev, Render(ts) + rest) == ts + Tokens(' ', rest)
    decreases ts, 0
  {
    hide IsToken, Tokens, Then;
    if ts == [] {
      assert Render(ts) + rest == rest;
      SameAfterBound(prev, ' ', rest);
      assert ts + Tokens(' ', rest) == Tokens(' ', rest);
    } else if TightList(ts) {
      ReadRest(ts[4..], rest);
      ReadTight(prev, ts, rest);
    } else {
      ReadRest(ts[1..], rest);
      ReadPlain(prev, ts, rest);
    }
  }

  lemma {:induction false} ReadRest(ts: seq<string>, rest: string)
    requires forall t :: t in ts ==> IsToken(t)
    requires Bounded(rest)
    ensures Tokens(' ', Then(ts, rest)) == ts + Tokens(' ', rest)
    decreases ts, 1
  {
    hide IsToken, Tokens, Render;
    if |ts| > 0 {
      ReadSpace(' ', Render(ts) + rest);
      RenderReadsBack(' ', ts, rest);
    } else {
      assert ts + Tokens(' ', rest) == Tokens(' ', rest);
    }
  }

  lemma CollapseKeepsAllTokens(ts: seq<string>)
    requires forall t :: t in ts ==> IsToken(t)
    ensures forall t :: t in Collapse(ts) ==> IsToken(t)
  {
    hide IsToken;
    CollapseKeepsTokens(ts, "IN", false);
    CollapseKeepsTokens(CollapseAfter(ts, "IN", false), "VALUES", true);
  }

  // ---- how many placeholders a list has does not matter ----

  function MarkList(n: nat): (r: seq<string>)
    ensures |r| == 2 * n
  {
    if n == 0 then [] else [",", "?"] + MarkList(n - 1)
  }

  /** "( ? , ? ... )" with `n + 1` placeholders. */
  function PlaceholderRow(n: nat): seq<string> {
    ["(", "?"] + MarkList(n) + [")"]
  }

  /** One or more rows of the given sizes. */
  function PlaceholderRows(sizes: seq<nat>): seq<string> {
    if sizes == [] then [] else [","] + PlaceholderRow(sizes[0]) + PlaceholderRows(sizes[1..])
  }

  lemma {:induction false} MarksExact(n: nat, rest: seq<string>)
    requires rest != [] && rest[0] != ","
    ensures Marks(MarkList(n) + rest) == 2 * n
  {
    var ts := MarkList(n) + rest;
    if n == 0 {
      assert ts == rest;
    } else {
      assert ts == [",", "?"] + (MarkList(n - 1) + rest);
      assert ts[2..] == MarkList(n - 1) + rest;
      MarksExact(n - 1, rest);
    }
  }

  lemma RowExact(n: nat, rest: seq<string>)
    ensures Row(PlaceholderRow(n) + rest) == |PlaceholderRow(n)|
  {
    var ts := PlaceholderRow(n) + rest;
    MarksExact(n, [")"] + rest);
    assert ts[2..] == MarkList(n) + ([")"] + rest);
    assert ts[2 + 2 * n] == ")";
  }

  lemma MoreRowsStep(row: seq<string>, more: seq<string>)
    requires Row(row + more) == |row| > 0
    ensures MoreRows([","] + (row + more)) == 1 + |row| + MoreRows(more)
  {
    hide Row;
    var both := row + more;
    var ts := [","] + both;
    assert ts[1..] == both;
    assert ts[1 + |row|..] == both[|row|..] == more;
    assert MoreRows(ts) == 1 + |row| + MoreRows(ts[1 + |row|..]);
  }

  lemma {:induction false} RowsExact(sizes: seq<nat>, rest: seq<string>)
    requires MoreRows(rest) == 0
    ensures MoreRows(PlaceholderRows(sizes) + rest) == |PlaceholderRows(sizes)|
  {
    hide Row, PlaceholderRow, MoreRows;
    if sizes == [] {
      assert PlaceholderRows(sizes) + rest == rest;
    } else {
      var row, rows := PlaceholderRow(sizes[0]), PlaceholderRows(sizes[1..]);
      RowExact(sizes[0], rows + rest);
      RowSize(sizes[0]);
      MoreRowsStep(row, rows + rest);
      RowsExact(sizes[1..], rest);
      assert PlaceholderRows(sizes) + rest == [","] + (row + (rows + rest));
    }
  }

  lemma RowSize(n: nat)
    ensures |PlaceholderRow(n)| == 3 + 2 * n
  {
  }

  /** Lists are found the same way in front of a token that belongs to none. */
  lemma {:induction false} MarksCut(a: seq<string>, b: seq<string>)
    requires b != [] && !ListToken(b[0])
    ensures Marks(a + b) == Marks(a)
  {
    if |a| >= 2 {
      assert (a + b)[2..] == a[2..] + b;
      MarksCut(a[2..], b);
    }
  }

  lemma RowCut(a: seq<string>, b: seq<string>)
    requires b != [] && !ListToken(b[0])
    ensures Row(a + b) == Row(a)
  {
    if |a| >= 2 {
      assert (a + b)[2..] == a[2..] + b;
      MarksCut(a[2..], b);
    }
  }

  lemma {:induction false} MoreRowsCut(a: seq<string>, b: seq<string>)
    requires b != [] && !ListToken(b[0])
    ensures MoreRows(a + b) == MoreRows(a)
  {
    hide Row;
    if a != [] {
      assert (a + b)[1..] == a[1..] + b;
      RowCut(a[1..], b);
      var k := Row(a[1..]);
      assert (a + b)[1 + k..] == a[1 + k..] + b;
      MoreRowsCut(a[1 + k..], b);
    } else {
      assert a + b == b;
    }
  }

  lemma ListCut(a: seq<string>, b: seq<string>, many: bool)
    requires b != [] && !ListToken(b[0])
    ensures ListLen(a + b, many) == ListLen(a, many)
  {
    hide Row, MoreRows;
    RowCut(a, b);
    var k := Row(a);
    assert (a + b)[k..] == a[k..] + b;
    MoreRowsCut(a[k..], b);
  }

  lemma CollapseMatch(ts: seq<string>, rest: seq<string>, kw: string, many: bool)
    requires ts != [] && ts[0] == kw && ListLen(ts[1..], many) > 0 && rest == ts[1 + ListLen(ts[1..], many)..]
    ensures CollapseAfter(ts, kw, many) == [kw, "(", "?", ")"] + CollapseAfter(rest, kw, many)
  {
  }

  lemma CollapseSkip(ts: seq<string>, kw: string, many: bool)
    requires ts != [] && (ts[0] != kw || ListLen(ts[1..], many) == 0)
    ensures CollapseAfter(ts, kw, many) == [ts[0]] + CollapseAfter(ts[1..], kw, many)
  {
  }

  lemma {:induction false} CollapseCut(a: seq<string>, b: seq<string>, kw: string, many: bool)
    requires b != [] && !ListToken(b[0])
    ensures CollapseAfter(a + b, kw, many) == CollapseAfter(a, kw, many) + CollapseAfter(b, kw, many)
  {
    hide ListLen, CollapseAfter, ListToken;
    NothingToCollapse(kw, many);
    if a == [] {
      assert a + b == b;
    } else {
      assert (a + b)[1..] == a[1..] + b;
      ListCut(a[1..], b, many);
      var k := ListLen(a[1..], many);
      if a[0] == kw && k > 0 {
        var rest := a[1 + k..];
        assert (a + b)[1 + k..] == rest + b;
        CollapseMatch(a, rest, kw, many);
        CollapseMatch(a + b, rest + b, kw, many);
        CollapseCut(rest, b, kw, many);
        Associative([kw, "(", "?", ")"], CollapseAfter(rest, kw, many), CollapseAfter(b, kw, many));
      } else {
        CollapseSkip(a, kw, many);
        CollapseSkip(a + b, kw, many);
        CollapseCut(a[1..], b, kw, many);
        Associative([a[0]], CollapseAfter(a[1..], kw, many), CollapseAfter(b, kw, many));
      }
    }
  }

  lemma CollapseList(kw: string, list: seq<string>, post: seq<string>, many: bool)
    requires ListLen(list + post, many) == |list| > 0
    ensures CollapseAfter([kw] + (list + post), kw, many) == [kw, "(", "?", ")"] + CollapseAfter(post, kw, many)
  {
    hide ListLen, CollapseAfter;
    var ts := [kw] + (list + post);
    assert ts[1..] == list + post && ts[1 + |list|..] == post;
    CollapseMatch(ts, post, kw, many);
  }

  /** An IN-list normalizes the same whatever its length. */
  lemma InListCountBlind(pre: seq<string>, n: nat, m: nat, post: seq<string>)
    ensures Collapse(pre + (["IN"] + (PlaceholderRow(n) + post))) == Collapse(pre + (["IN"] + (PlaceholderRow(m) + post)))
  {
    InListCollapsed(pre, n, post);
    InListCollapsed(pre, m, post);
  }

  lemma InListCollapsed(pre: seq<string>, n: nat, post: seq<string>)
    ensures CollapseAfter(pre + (["IN"] + (PlaceholderRow(n) + post)), "IN", false)
         == CollapseAfter(pre, "IN", false) + (["IN", "(", "?", ")"] + CollapseAfter(post, "IN", false))
  {
    hide CollapseAfter, Row;
    RowExact(n, post);
    CollapseList("IN", PlaceholderRow(n), post, false);
    CollapseCut(pre, ["IN"] + (PlaceholderRow(n) + post), "IN", false);
  }

  /** A VALUES clause normalizes the same whatever its rows and their sizes, unless the text goes on with a further row. */
  lemma ValuesCountBlind(pre: seq<string>, n: nat, ns: seq<nat>, m: nat, ms: seq<nat>, post: seq<string>)
    requires MoreRows(post) == 0
    ensures Collapse(pre + (["VALUES"] + (PlaceholderRow(n) + PlaceholderRows(ns) + post)))
         == Collapse(pre + (["VALUES"] + (PlaceholderRow(m) + PlaceholderRows(ms) + post)))
  {
    ValuesCollapsed(pre, n, ns, post);
    ValuesCollapsed(pre, m, ms, post);
  }

  lemma ValuesCollapsed(pre: seq<string>, n: nat, ns: seq<nat>, post: seq<string>)
    requires MoreRows(post) == 0
    ensures Collapse(pre + (["VALUES"] + (PlaceholderRow(n) + PlaceholderRows(ns) + post)))
         == CollapseAfter(CollapseAfter(pre, "IN", false), "VALUES", true)
            + (["VALUES", "(", "?", ")"] + CollapseAfter(CollapseAfter(post, "IN", false), "VALUES", true))
  {
    hide CollapseAfter, PlaceholderRow, PlaceholderRows, MoreRows, ListLen;
    var list := PlaceholderRow(n) + PlaceholderRows(ns);
    var pre', post' := CollapseAfter(pre, "IN", false), CollapseAfter(post, "IN", false);
    CollapseCut(pre, ["VALUES"] + (list + post), "IN", false);
    CollapseHead(["VALUES"] + (list + post), "IN", false);
    assert (["VALUES"] + (list + post))[1..] == list + post;
    RowsUntouched(n, ns, post);
    var c := CollapseAfter(["VALUES"] + (list + post), "IN", false);
    assert c == ["VALUES"] + (list + post');
    MoreRowsKept(post, "IN", false);
    RowsListLen(n, ns, post');
    CollapseList("VALUES", list, post', true);
    CollapseCut(pre', c, "VALUES", true);
  }

  lemma RowsListLen(n: nat, ns: seq<nat>, post: seq<string>)
    requires MoreRows(post) == 0
    ensures ListLen(PlaceholderRow(n) + PlaceholderRows(ns) + post, true) == |PlaceholderRow(n) + PlaceholderRows(ns)| > 0
  {
    hide Row, MoreRows, PlaceholderRow, PlaceholderRows;
    var row, rows := PlaceholderRow(n), PlaceholderRows(ns);
    RowExact(n, rows + post);
    RowSize(n);
    RowsExact(ns, post);
    assert row + rows + post == row + (rows + post);
    assert (row + (rows + post))[|row|..] == rows + post;
  }

  lemma {:induction false} ListUntouched(list: seq<string>, post: seq<string>, kw: string, many: bool)
    requires kw !in list
    ensures CollapseAfter(list + post, kw, many) == list + CollapseAfter(post, kw, many)
  {
    hide ListLen;
    if list == [] {
      assert list + post == post;
    } else {
      assert (list + post)[1..] == list[1..] + post;
      ListUntouched(list[1..], post, kw, many);
    }
  }

  lemma {:induction false} MarkListPlain(n: nat)
    ensures forall t :: t in MarkList(n) ==> ListToken(t)
  {
    if n > 0 { MarkListPlain(n - 1); }
  }

  lemma {:induction false} RowsPlain(sizes: seq<nat>)
    ensures forall t :: t in PlaceholderRows(sizes) ==> ListToken(t)
  {
    if sizes != [] {
      MarkListPlain(sizes[0]);
      RowsPlain(sizes[1..]);
    }
  }

  lemma RowsUntouched(n: nat, ns: seq<nat>, post: seq<string>)
    ensures CollapseAfter(PlaceholderRow(n) + PlaceholderRows(ns) + post, "IN", false)
         == PlaceholderRow(n) + PlaceholderRows(ns) + CollapseAfter(post, "IN", false)
  {
    MarkListPlain(n);
    RowsPlain(ns);
    ListUntouched(PlaceholderRow(n) + PlaceholderRows(ns), post, "IN", false);
  }

  /** A statement without the two keywords keeps every argument list: only their lists may vary. */
  lemma ArityKept(ts: seq<string>)
    requires "IN" !in ts && "VALUES" !in ts
    ensures Collapse(ts) == ts
  {
    ListUntouched(ts, [], "IN", false);
    ListUntouched(ts, [], "VALUES", true);
    assert ts + [] == ts;
  }

  // ---- a quoted table keys like the bare one ----

  lemma {:induction false} UndoubleDoubled(s: string)
    ensures Undoubled(Doubled(s)) == s
  {
    if s != "" {
      UndoubleDoubled(s[1..]);
      var d := Doubled(s);
      if s[0] == '"' {
        assert d == "\"\"" + Doubled(s[1..]);
        assert "\"\"" <= d && d[2..] == Doubled(s[1..]);
      } else {
        assert d == [s[0]] + Doubled(s[1..]);
        assert d[0] == s[0] && d[1..] == Doubled(s[1..]);
      }
      assert s == [s[0]] + s[1..];
    }
  }

  /** However a name was quoted in the statement, the table position yields its lower-cased bytes. */
  lemma QuotedTableKeysAsBare(raw: string)
    ensures TableIdent(EmitIdent(raw)) == Some(Lower(raw))
  {
    var low := Lower(raw);
    LowerIdempotent(raw);
    if !IsBareIdent(low) {
      var q := Quote(low);
      UndoubleDoubled(low);
      assert q[1..|q| - 1] == Doubled(low);
    }
  }
}
