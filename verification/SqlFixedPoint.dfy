/**
 * The canonical statement is a fixed point of normalization, whatever the input. The operation and the
 * table, read off the tokens before blanks are squeezed, survive a second pass under an exact condition.
 */
module SqlFixedPoint {
  import opened Text
  import opened SqlTokens
  import opened SqlBlanks
  import opened SqlNormalize

  /** The tokens the canonical statement consists of. */
  function FinalTokens(ts: seq<string>): seq<string> {
    Strip(SqueezeEach(Collapse(WithoutFormFeeds(ts))))
  }

  // ---- squeezing the text squeezes its tokens ----

  /** The first and the last byte. */
  function Ends(s: string): (char, char)
    requires s != ""
  {
    (s[0], s[|s| - 1])
  }

  lemma JoinedEnds(a: string, b: string)
    requires a != "" && b != ""
    ensures Ends(a + b) == (Ends(a).0, Ends(b).1)
  {
  }

  /** The text behind a head is the rendered rest. */
  lemma RenderParts(ts: seq<string>) returns (n: nat, head: string)
    requires ts != []
    ensures 0 < n <= |ts| && (TightList(ts) <==> n == 4) && (n == 1 || n == 4)
    ensures head == if TightList(ts) then ts[0] + " (?)" else ts[0]
    ensures Render(ts) == if |ts| > n then head + (" " + Render(ts[n..])) else head
    ensures TightList(ts) ==> ts[3] == ")"
  {
    n := if TightList(ts) then 4 else 1;
    head := if TightList(ts) then ts[0] + " (?)" else ts[0];
    if |ts| > n {
      assert Render(ts) == head + (" " + Render(ts[n..]));
    } else {
      assert Render(ts) == head + "" == head;
    }
  }

  lemma EdgedEnds(s: string, t: string)
    requires Edged(s) && t != "" && Ends(t).0 == Ends(s).0 && !IsBlank(Ends(t).1)
    ensures Edged(t)
  {
  }

  lemma {:induction false} RenderEdged(ts: seq<string>)
    requires ts != [] && SolidTokens(ts)
    ensures Edged(Render(ts)) && ts[0] != "" && ts[|ts| - 1] != ""
    ensures Ends(Render(ts)) == (Ends(ts[0]).0, Ends(ts[|ts| - 1]).1)
  {
    hide IsToken, TightList, Render, Squeeze, IsQuotedToken, IsBlank, Ends;
    SqueezeToken(ts[0]);
    SqueezeToken(ts[|ts| - 1]);
    var n, head := RenderParts(ts);
    if n == 4 { JoinedEnds(ts[0], " (?)"); }
    assert head != "" && Ends(head).0 == Ends(ts[0]).0;
    if |ts| > n {
      RenderEdged(ts[n..]);
      JoinedEnds(" ", Render(ts[n..]));
      JoinedEnds(head, " " + Render(ts[n..]));
      assert ts[n..][|ts| - n - 1] == ts[|ts| - 1];
    } else {
      LastOfList(ts, n, head);
    }
    LastNotBlank(ts[|ts| - 1]);
    EdgedEnds(ts[0], Render(ts));
  }

  lemma LastNotBlank(t: string)
    requires Edged(t)
    ensures !IsBlank(Ends(t).1)
  {
  }

  lemma LastOfList(ts: seq<string>, n: nat, head: string)
    requires |ts| == n > 0 && ts[0] != "" && ((n == 1 && head == ts[0]) || (n == 4 && head == ts[0] + " (?)" && ts[3] == ")"))
    ensures Ends(head).1 == Ends(ts[|ts| - 1]).1
  {
  }

  /** A quoted name shows its quote first. */
  lemma QuotedHead(t: string)
    requires IsQuotedToken(t)
    ensures t != "" && t[0] == '"'
  {
  }

  predicate NoWord(t: string) {
    t != "" && t[0] == '"'
  }

  lemma TightSqueezed(ts: seq<string>)
    requires SolidTokens(ts)
    ensures TightList(SqueezeEach(ts)) <==> TightList(ts)
    ensures TightList(ts) ==> Squeeze(ts[0]) == ts[0]
  {
    hide Squeeze, IsToken, IsQuotedToken;
    if |ts| >= 4 {
      forall i | 0 <= i < 4 ensures Squeeze(ts[i]) == ts[i] || (NoWord(ts[i]) && NoWord(Squeeze(ts[i]))) {
        SqueezeToken(ts[i]);
        if Squeeze(ts[i]) != ts[i] {
          QuotedHead(ts[i]);
          QuotedHead(Squeeze(ts[i]));
        }
      }
    }
  }

  lemma SqueezeList(head: string)
    requires Edged(head)
    ensures Edged(head + " (?)") && Squeeze(head + " (?)") == Squeeze(head) + " (?)"
  {
    hide Squeeze;
    assert " (?)" == " " + "(?)";
    SqueezeOneRow();
    SqueezeGap(head, "(?)");
    JoinedEnds(head, " (?)");
  }

  lemma SqueezeOneRow()
    ensures Edged("(?)") && Squeeze("(?)") == "(?)" && Ends(" (?)").1 == ')'
  {
    hide Squeeze;
    SqueezeChars("(?)");
  }

  lemma {:induction false} SqueezeRender(ts: seq<string>)
    requires SolidTokens(ts)
    ensures Squeeze(Render(ts)) == Render(SqueezeEach(ts))
  {
    hide IsToken, Squeeze, TightList, Render;
    if ts == [] {
      NothingToRender();
    } else {
      var us := SqueezeEach(ts);
      TightSqueezed(ts);
      SqueezeToken(ts[0]);
      var n, head := RenderParts(ts);
      var m, squeezed := RenderParts(us);
      if n == 4 { SqueezeList(ts[0]); }
      assert us[n..] == SqueezeEach(ts[n..]);
      if |ts| > n {
        SqueezeRender(ts[n..]);
        RenderEdged(ts[n..]);
        SqueezeGap(head, Render(ts[n..]));
      }
    }
  }

  lemma NothingToRender()
    ensures Squeeze("") == "" && Render([]) == ""
  {
  }

  // ---- trimming the text strips its tokens ----

  /** Only a vertical tab can be trimmed off a solid token. */
  lemma TrimmedToken(t: string)
    requires IsToken(t) && !IsFormFeed(t)
    ensures Edged(t)
    ensures IsVerticalTab(t) || (!IsWhite(t[0]) && !IsWhite(t[|t| - 1]))
  {
    hide IsToken, Squeeze, IsQuotedToken, IsWord;
    SqueezeToken(t);
    TokenEnds(t);
  }

  lemma TokenEnds(t: string)
    requires IsToken(t) && t != ""
    ensures |t| == 1 || (t[0] != VERTICAL_TAB && t[|t| - 1] != VERTICAL_TAB)
  {
    if IsQuotedToken(t) {
      var low :| Lower(low) == low && !IsBareIdent(low) && t == Quote(low);
    } else if IsWord(t) {
      assert IsWordByte(t[0]) && IsWordByte(t[|t| - 1]);
    }
  }

  lemma TrimLeftStep(s: string, rest: string)
    requires s == [VERTICAL_TAB] + (" " + rest) || (s == [VERTICAL_TAB] && rest == "")
    ensures TrimLeft(s) == TrimLeft(rest)
  {
    if s != [VERTICAL_TAB] {
      assert s[1..] == " " + rest && (" " + rest)[1..] == rest;
    }
  }

  lemma TrimLeftStops(s: string)
    requires s != "" && !IsWhite(s[0])
    ensures TrimLeft(s) == s
  {
  }

  lemma {:induction false} TrimLeftRender(ts: seq<string>)
    requires SolidTokens(ts)
    ensures TrimLeft(Render(ts)) == Render(StripLeft(ts))
  {
    hide IsToken, TrimLeft, TightList, Render;
    NothingToRender();
    if ts == [] {
      NothingTrimmed();
    } else {
      TrimmedToken(ts[0]);
      RenderEdged(ts);
      if IsVerticalTab(ts[0]) {
        var n, head := RenderParts(ts);
        NotTight(ts);
        TrimLeftStep(Render(ts), Render(ts[1..]));
        TrimLeftRender(ts[1..]);
      } else {
        TrimLeftStops(Render(ts));
      }
    }
  }

  lemma NothingTrimmed()
    ensures TrimLeft("") == ""
  {
  }

  lemma NotTight(ts: seq<string>)
    requires ts != [] && IsVerticalTab(ts[0])
    ensures !TightList(ts)
  {
  }

  lemma {:induction false} RenderAppend(ts: seq<string>, t: string)
    requires t != ")" && ts != []
    ensures Render(ts + [t]) == Render(ts) + (" " + t)
  {
    hide Render;
    var us := ts + [t];
    assert TightList(us) <==> TightList(ts);
    var n, head := RenderParts(ts);
    var m, head' := RenderParts(us);
    assert us[n..] == ts[n..] + [t];
    if |ts| > n {
      RenderAppend(ts[n..], t);
      assert head + (" " + (Render(ts[n..]) + (" " + t))) == (head + (" " + Render(ts[n..]))) + (" " + t);
    } else {
      RenderOne(t);
    }
  }

  lemma RenderOne(t: string)
    ensures Render([t]) == t
  {
    assert t + "" == t;
  }

  lemma TrimTail(s: string)
    ensures TrimRight(s + (" " + [VERTICAL_TAB])) == TrimRight(s)
  {
    var r := s + (" " + [VERTICAL_TAB]);
    assert r[..|r| - 1] == s + " " && (s + " ")[..|s|] == s;
  }

  lemma {:induction false} TrimRightRender(ts: seq<string>)
    requires SolidTokens(ts)
    ensures TrimRight(Render(ts)) == Render(StripRight(ts))
  {
    hide IsToken, TightList;
    if ts != [] {
      var n := |ts| - 1;
      TrimmedToken(ts[n]);
      RenderEdged(ts);
      if IsVerticalTab(ts[n]) {
        assert ts == ts[..n] + [ts[n]];
        TrimRightRender(ts[..n]);
        if n > 0 {
          RenderAppend(ts[..n], ts[n]);
          TrimTail(Render(ts[..n]));
        } else {
          TrimTail("");
          assert Render(ts) == ts[0] + "" == ts[0];
          assert ts[0][..0] == "";
        }
      }
    }
  }

  lemma TrimRender(ts: seq<string>)
    requires SolidTokens(ts)
    ensures Trim(Render(ts)) == Render(Strip(ts))
  {
    hide IsToken, Render;
    TrimLeftRender(ts);
    StripLeftFacts(ts);
    TrimRightRender(StripLeft(ts));
  }

  // ---- a form feed is a gap ----

  /** The tokens with a space on either side of each. */
  function Padded(ts: seq<string>): string {
    if ts == [] then " " else " " + (ts[0] + Padded(ts[1..]))
  }

  lemma {:induction false} PaddedJoin(ts: seq<string>)
    requires ts != []
    ensures Padded(ts) == " " + (Join(ts) + " ")
  {
    if |ts| == 1 {
      assert Padded(ts[1..]) == " ";
    } else {
      PaddedJoin(ts[1..]);
      assert ts[0] + (" " + (Join(ts[1..]) + " ")) == (ts[0] + " " + Join(ts[1..])) + " ";
    }
  }

  lemma GapBefore(rest: string)
    requires rest != "" && rest[0] == ' '
    ensures Squeeze(" " + ([FORM_FEED] + rest)) == Squeeze(rest)
  {
    SqueezeStep(FORM_FEED, rest);
    SqueezeStep(' ', [FORM_FEED] + rest);
  }

  lemma TokenBefore(t: string, rest: string)
    requires Edged(t)
    ensures Squeeze(" " + (t + rest)) == " " + (Squeeze(t) + Squeeze(rest))
  {
    hide Squeeze;
    SqueezeSplit(t, rest);
    SqueezeStep(' ', t + rest);
    assert (t + rest)[0] == t[0];
  }

  lemma {:induction false} PaddedSqueeze(ts: seq<string>)
    requires AllTokens(ts)
    ensures Squeeze(Padded(ts)) == Squeeze(Padded(WithoutFormFeeds(ts)))
  {
    hide IsToken, Squeeze;
    if ts != [] {
      var rest := ts[1..];
      PaddedSqueeze(rest);
      assert Padded(rest)[0] == ' ';
      if IsFormFeed(ts[0]) {
        GapBefore(Padded(rest));
        assert WithoutFormFeeds(ts) == WithoutFormFeeds(rest);
      } else {
        SqueezeToken(ts[0]);
        TokenBefore(ts[0], Padded(rest));
        TokenBefore(ts[0], Padded(WithoutFormFeeds(rest)));
        assert WithoutFormFeeds(ts)[1..] == WithoutFormFeeds(rest);
      }
    }
  }

  lemma {:induction false} SqueezeTail(x: string)
    ensures Squeeze(x + " ") == Squeeze(x) + (if x != "" && IsBlank(x[|x| - 1]) then "" else " ")
  {
    hide Squeeze, IsBlank;
    NothingSqueezed();
    SqueezeStep(' ', "");
    if x == "" {
      assert x + " " == [' '] + "";
      assert IsBlank(' ') by { SpaceIsBlank(); }
    } else {
      var c, rest := x[0], x[1..];
      SqueezeTail(rest);
      assert x == [c] + rest && x + " " == [c] + (rest + " ");
      SqueezeStep(c, rest);
      SqueezeStep(c, rest + " ");
      SpaceIsBlank();
      assert rest != "" ==> (rest + " ")[0] == rest[0] && rest[|rest| - 1] == x[|x| - 1];
    }
  }

  lemma SpaceIsBlank()
    ensures IsBlank(' ')
  {
  }

  lemma {:induction false} TrimLeftTail(y: string)
    ensures TrimLeft(y + " ") == if TrimLeft(y) == "" then "" else TrimLeft(y) + " "
  {
    if y == "" {
      assert "" + " " == " ";
    } else {
      assert (y + " ")[1..] == y[1..] + " ";
      TrimLeftTail(y[1..]);
    }
  }

  lemma TrimBoth(y: string)
    ensures Trim(" " + y) == Trim(y) && Trim(y + " ") == Trim(y)
  {
    assert (" " + y)[1..] == y;
    TrimLeftTail(y);
    assert (TrimLeft(y) + " ")[..|TrimLeft(y)|] == TrimLeft(y);
  }

  lemma TrimPadding(x: string)
    ensures Trim(Squeeze(" " + (x + " "))) == Trim(Squeeze(x))
  {
    hide Squeeze, Trim;
    SqueezeStep(' ', x + " ");
    SqueezeTail(x);
    TrimBoth(Squeeze(x));
    TrimBoth(Squeeze(x + " "));
    assert "" + Squeeze(x + " ") == Squeeze(x + " ") && Squeeze(x) + "" == Squeeze(x);
  }

  /** Squeezing and trimming the joined text swallows the form feeds: taking them out first is the same. */
  lemma FormFeedIsAGap(ts: seq<string>)
    requires AllTokens(ts)
    ensures Trim(Squeeze(Join(ts))) == Trim(Squeeze(Join(WithoutFormFeeds(ts))))
  {
    hide IsToken, Squeeze, Trim, WithoutFormFeeds;
    PaddedSqueeze(ts);
    PaddedTrim(ts);
    PaddedTrim(WithoutFormFeeds(ts));
  }

  lemma PaddedTrim(ts: seq<string>)
    ensures Trim(Squeeze(Padded(ts))) == Trim(Squeeze(Join(ts)))
  {
    if ts == [] {
      assert Squeeze(" ") == " " && TrimLeft(" ") == "";
    } else {
      PaddedJoin(ts);
      TrimPadding(Join(ts));
    }
  }

  /** The canonical statement is its final tokens with single spaces. */
  lemma AssembledIs(ts: seq<string>)
    requires AllTokens(ts)
    ensures Assembled(ts) == Render(FinalTokens(ts)) && SolidTokens(FinalTokens(ts))
  {
    hide IsToken, Render, Collapse, WithoutFormFeeds, SqueezeEach, Strip, Trim, Squeeze;
    var c := Collapse(WithoutFormFeeds(ts));
    CollapsedSolid(ts);
    SqueezeRender(c);
    SqueezeEachTokens(c);
    TrimRender(SqueezeEach(c));
    StripFacts(SqueezeEach(c));
  }

  lemma CollapsedSolid(ts: seq<string>)
    requires AllTokens(ts)
    ensures SolidTokens(Collapse(WithoutFormFeeds(ts)))
  {
    hide IsToken, CollapseAfter;
    var w := WithoutFormFeeds(ts);
    FormFeedsGone(ts);
    CollapseKeepsAllTokens(w);
    var once := CollapseAfter(w, "IN", false);
    NoNewFormFeed(w, "IN", false);
    NoNewFormFeed(once, "VALUES", true);
  }

  lemma {:induction false} NoNewFormFeed(ts: seq<string>, kw: string, many: bool)
    requires |kw| > 1 && forall t :: t in ts ==> !IsFormFeed(t)
    ensures forall t :: t in CollapseAfter(ts, kw, many) ==> !IsFormFeed(t)
  {
    hide ListLen;
    if ts != [] {
      var k := ListLen(ts[1..], many);
      if ts[0] == kw && k > 0 {
        NoNewFormFeed(ts[1 + k..], kw, many);
      } else {
        NoNewFormFeed(ts[1..], kw, many);
      }
    }
  }

  /** Tokenizing the canonical statement gives exactly its final tokens. */
  lemma StatementReadsBack(raw: string)
    ensures Tokenized(NormalForm(raw).statement) == FinalTokens(Tokenized(raw))
  {
    hide IsToken, Tokens, FinalTokens, Render, Assembled;
    var ts := Tokenized(raw);
    TokensAreTokens(' ', raw);
    AssembledIs(ts);
    RenderReadsBack(' ', FinalTokens(ts), "");
    EndOfText(' ');
    assert Render(FinalTokens(ts)) + "" == Render(FinalTokens(ts));
  }

  // ---- lists stay tight ----

  /** Two token sequences that agree wherever a list pattern looks. */
  ghost predicate Alike(a: seq<string>, b: seq<string>) {
    |a| == |b| && forall i :: 0 <= i < |a| ==> a[i] == b[i] || (!ListToken(a[i]) && !ListToken(b[i]))
  }

  lemma AlikeTail(a: seq<string>, b: seq<string>, n: nat)
    requires Alike(a, b) && n <= |a|
    ensures Alike(a[n..], b[n..])
  {
  }

  lemma {:induction false} MarksAlike(a: seq<string>, b: seq<string>)
    requires Alike(a, b)
    ensures Marks(a) == Marks(b)
  {
    if |a| >= 2 { MarksAlike(a[2..], b[2..]); }
  }

  lemma RowAlike(a: seq<string>, b: seq<string>)
    requires Alike(a, b)
    ensures Row(a) == Row(b)
  {
    if |a| >= 2 { MarksAlike(a[2..], b[2..]); }
  }

  lemma {:induction false} MoreRowsAlike(a: seq<string>, b: seq<string>)
    requires Alike(a, b)
    ensures MoreRows(a) == MoreRows(b)
  {
    hide Row;
    if a != [] {
      AlikeTail(a, b, 1);
      RowAlike(a[1..], b[1..]);
      AlikeTail(a, b, 1 + Row(a[1..]));
      MoreRowsAlike(a[1 + Row(a[1..])..], b[1 + Row(a[1..])..]);
    }
  }

  lemma ListAlike(a: seq<string>, b: seq<string>, many: bool)
    requires Alike(a, b)
    ensures ListLen(a, many) == ListLen(b, many)
  {
    hide Row, MoreRows;
    RowAlike(a, b);
    AlikeTail(a, b, Row(a));
    MoreRowsAlike(a[Row(a)..], b[Row(a)..]);
  }

  lemma NotQuoted(t: string)
    requires IsQuotedToken(t)
    ensures !ListToken(t) && t != "IN" && t != "VALUES"
  {
    hide IsQuotedToken;
    QuotedHead(t);
  }

  lemma SqueezeAlike(ts: seq<string>)
    requires SolidTokens(ts)
    ensures Alike(SqueezeEach(ts), ts)
    ensures forall i :: 0 <= i < |ts| ==> (SqueezeEach(ts)[i] == "IN" <==> ts[i] == "IN")
    ensures forall i :: 0 <= i < |ts| ==> (SqueezeEach(ts)[i] == "VALUES" <==> ts[i] == "VALUES")
  {
    hide IsToken, Squeeze, IsQuotedToken;
    forall i | 0 <= i < |ts|
      ensures Squeeze(ts[i]) == ts[i] || (IsQuotedToken(ts[i]) && IsQuotedToken(Squeeze(ts[i])))
    {
      SqueezeToken(ts[i]);
    }
    forall t | IsQuotedToken(t) ensures !ListToken(t) && t != "IN" && t != "VALUES" { NotQuoted(t); }
  }

  lemma TightAlike(a: seq<string>, b: seq<string>, kw: string, many: bool)
    requires Alike(a, b) && Tight(b, kw, many)
    requires forall i :: 0 <= i < |a| ==> (a[i] == kw <==> b[i] == kw)
    ensures Tight(a, kw, many)
  {
    hide ListLen;
    forall i | 0 <= i < |a| && a[i] == kw ensures ListLen(a[i + 1..], many) <= 3 {
      AlikeTail(a, b, i + 1);
      ListAlike(a[i + 1..], b[i + 1..], many);
    }
  }

  lemma TightFrontOf(a: seq<string>, b: seq<string>, kw: string, many: bool)
    requires Tight(a + b, kw, many) && b != [] && !ListToken(b[0])
    ensures Tight(a, kw, many)
  {
    hide ListLen;
    forall i | 0 <= i < |a| && a[i] == kw ensures ListLen(a[i + 1..], many) <= 3 {
      assert (a + b)[i] == kw;
      assert (a + b)[i + 1..] == a[i + 1..] + b;
      ListCut(a[i + 1..], b, many);
    }
  }

  lemma TightStrip(ts: seq<string>, kw: string, many: bool)
    requires Tight(ts, kw, many)
    ensures Tight(Strip(ts), kw, many)
  {
    hide Tight;
    StripLeftFacts(ts);
    var l := StripLeft(ts);
    TightTail(ts, |ts| - |l|, kw, many);
    StripRightFacts(l);
    var r := StripRight(l);
    if |r| < |l| {
      assert l == r + l[|r|..];
      TightFrontOf(r, l[|r|..], kw, many);
    } else {
      assert l == r;
    }
  }

  lemma FinalFixed(ts: seq<string>)
    requires AllTokens(ts)
    ensures FinalTokens(FinalTokens(ts)) == FinalTokens(ts)
  {
    hide IsToken, Collapse, WithoutFormFeeds, SqueezeEach, Strip, Tight;
    var c := Collapse(WithoutFormFeeds(ts));
    var s := SqueezeEach(c);
    var u := Strip(s);
    CollapsedSolid(ts);
    SqueezeEachTokens(c);
    StripFacts(s);
    FormFeedsGone(u);
    CollapseLeavesTight(WithoutFormFeeds(ts));
    SqueezeAlike(c);
    TightAlike(s, c, "IN", false);
    TightAlike(s, c, "VALUES", true);
    TightStrip(s, "IN", false);
    TightStrip(s, "VALUES", true);
    TightIsCollapsed(u);
    StripSqueezed(s, u);
  }

  lemma StripSqueezed(s: seq<string>, u: seq<string>)
    requires SqueezeEach(s) == s && forall t :: t in u ==> t in s
    ensures SqueezeEach(u) == u
  {
    hide Squeeze;
    forall i | 0 <= i < |u| ensures Squeeze(u[i]) == u[i] {
      assert u[i] in s;
      var k :| 0 <= k < |s| && s[k] == u[i];
      assert SqueezeEach(s)[k] == Squeeze(s[k]);
    }
  }

  // ---- operation and table ----

  lemma UnquoteQuote(low: string)
    ensures UnquoteIdent(Quote(low)) == low
  {
    UndoubleDoubled(low);
    assert Quote(low)[1..|Quote(low)| - 1] == Doubled(low);
  }

  /** The name a token carries is squeezed along with it. */
  lemma SqueezeName(t: string)
    requires IsToken(t) && !IsFormFeed(t)
    ensures TableIdent(Squeeze(t)).Some? <==> TableIdent(t).Some?
    ensures TableIdent(t).Some? ==> TableIdent(Squeeze(t)).value == Squeeze(TableIdent(t).value)
  {
    if IsQuotedToken(t) {
      var low :| Lower(low) == low && !IsBareIdent(low) && t == Quote(low);
      SqueezeQuote(low);
      UnquoteQuote(low);
      UnquoteQuote(Squeeze(low));
      assert Quote(low)[0] == '"' && Quote(Squeeze(low))[0] == '"';
    } else {
      PlainNoBlank(t);
    }
  }

  /** None of the words the table lookup asks for is a quoted name. */
  predicate LookupWord(t: string) {
    t in {"INTO", "FROM", "INSERT", "DELETE", "MERGE", "REPLACE", "UPSERT", "UPDATE", "SELECT"} || t in QUALIFIERS
  }

  lemma SqueezeWord(t: string)
    requires IsToken(t) && !IsFormFeed(t)
    ensures Squeeze(t) == t || (!LookupWord(t) && !LookupWord(Squeeze(t)))
  {
    hide IsToken, IsQuotedToken, Squeeze;
    SqueezeToken(t);
    if Squeeze(t) != t {
      QuotedHead(t);
      QuotedHead(Squeeze(t));
    }
  }

  lemma {:induction false} SqueezeIdentAfter(ts: seq<string>, after: set<string>)
    requires SolidTokens(ts) && forall t :: t in after ==> LookupWord(t)
    ensures IdentAfter(SqueezeEach(ts), after) == Squeeze(IdentAfter(ts, after))
  {
    hide IsToken, Squeeze, TableIdent, LookupWord;
    if |ts| < 2 {
      NothingSqueezed();
    } else {
      SqueezeWord(ts[0]);
      SqueezeName(ts[1]);
      SqueezeIdentAfter(ts[1..], after);
      assert SqueezeEach(ts)[1..] == SqueezeEach(ts[1..]);
    }
  }

  lemma {:induction false} SqueezeTarget(ts: seq<string>)
    requires SolidTokens(ts)
    ensures UpdateTable(SqueezeEach(ts)) == Squeeze(UpdateTable(ts))
  {
    hide IsToken, Squeeze, TableIdent;
    if ts == [] {
      NothingSqueezed();
    } else {
      SqueezeWord(ts[0]);
      SqueezeName(ts[0]);
      SqueezeTarget(ts[1..]);
      assert SqueezeEach(ts)[1..] == SqueezeEach(ts[1..]);
      NothingSqueezed();
    }
  }

  lemma SqueezeTable(ts: seq<string>)
    requires SolidTokens(ts)
    ensures Table(SqueezeEach(ts)) == Squeeze(Table(ts))
  {
    hide IsToken, Squeeze, IdentAfter, UpdateTable;
    NothingSqueezed();
    if ts != [] {
      SqueezeWord(ts[0]);
      SqueezeIdentAfter(ts, {"INTO", "FROM"});
      SqueezeIdentAfter(ts, {"FROM"});
      SqueezeTarget(ts[1..]);
      assert SqueezeEach(ts)[1..] == SqueezeEach(ts[1..]);
    }
  }

  lemma {:induction false} TabBehindIdent(ts: seq<string>, t: string, after: set<string>)
    requires IsVerticalTab(t) && forall x :: x in after ==> |x| > 1
    ensures IdentAfter(ts + [t], after) == IdentAfter(ts, after)
  {
    if |ts| >= 1 {
      assert (ts + [t])[1..] == ts[1..] + [t];
      TabBehindIdent(ts[1..], t, after);
      assert |ts| > 1 ==> (ts + [t])[1] == ts[1];
    }
  }

  lemma {:induction false} TabBehindTarget(ts: seq<string>, t: string)
    requires IsVerticalTab(t)
    ensures UpdateTable(ts + [t]) == UpdateTable(ts)
  {
    if ts == [] {
      assert [] + [t] == [t];
    } else {
      assert (ts + [t])[1..] == ts[1..] + [t];
      TabBehindTarget(ts[1..], t);
    }
  }

  lemma {:induction false} StripKeepsTable(ts: seq<string>)
    requires ts != [] && !IsVerticalTab(ts[0])
    ensures StripRight(ts) != [] && Table(StripRight(ts)) == Table(ts)
  {
    hide IdentAfter, UpdateTable;
    var n := |ts| - 1;
    if IsVerticalTab(ts[n]) {
      StripKeepsTable(ts[..n]);
      assert ts == ts[..n] + [ts[n]];
      TabBehindIdent(ts[..n], ts[n], {"INTO", "FROM"});
      TabBehindIdent(ts[..n], ts[n], {"FROM"});
      TabBehindTarget(ts[..n][1..], ts[n]);
      assert ts[1..] == ts[..n][1..] + [ts[n]];
    }
  }

  /**
   * Reading operation and table off the canonical statement gives what they were read as, when the first token
   * is neither a form feed nor a vertical tab nor a name with a blank run, and the table found past form
   * feeds, its own blank runs squeezed, is the one that was found.
   */
  predicate LabelsSurvive(ts: seq<string>) {
    ts == [] || (
      && !IsFormFeed(ts[0]) && !IsVerticalTab(ts[0]) && Squeeze(ts[0]) == ts[0]
      && Squeeze(Table(WithoutFormFeeds(ts))) == Table(ts)
    )
  }

  /** What a second pass reads off a statement whose first token is not blank. */
  lemma SecondLabels(ts: seq<string>)
    requires AllTokens(ts) && ts != [] && !IsFormFeed(ts[0]) && !IsVerticalTab(ts[0])
    ensures Operation(FinalTokens(ts)) == Squeeze(ts[0])
    ensures Table(FinalTokens(ts)) == Squeeze(Table(WithoutFormFeeds(ts)))
  {
    hide IsToken, Squeeze, Collapse, Table;
    var w := WithoutFormFeeds(ts);
    assert w[0] == ts[0];
    CollapsedSolid(ts);
    CollapseKeepsLabels(w);
    var c := Collapse(w);
    SqueezeTable(c);
    SqueezedHead(ts[0]);
    StripFacts(SqueezeEach(c));
    StripKeepsTable(SqueezeEach(c));
  }

  lemma SqueezedHead(t: string)
    requires IsToken(t) && !IsFormFeed(t) && !IsVerticalTab(t)
    ensures !IsVerticalTab(Squeeze(t))
  {
    SqueezeToken(t);
  }

  /** A blank first token is not the first token of the statement. */
  lemma BlankHeadLost(ts: seq<string>)
    requires AllTokens(ts) && ts != [] && (IsFormFeed(ts[0]) || IsVerticalTab(ts[0]))
    ensures Operation(FinalTokens(ts)) != Operation(ts)
  {
    hide IsToken, Squeeze, Collapse, WithoutFormFeeds;
    var c := Collapse(WithoutFormFeeds(ts));
    CollapsedSolid(ts);
    SqueezeEachTokens(c);
    StripFacts(SqueezeEach(c));
  }

  /**
   * The statement is a fixed point, for any input. Operation and table survive the second pass exactly
   * when they do not depend on the blanks the assembly takes out.
   */
  lemma NormalizeIdempotentIff(raw: string)
    ensures NormalForm(NormalForm(raw).statement).statement == NormalForm(raw).statement
    ensures NormalForm(NormalForm(raw).statement) == NormalForm(raw) <==> LabelsSurvive(Tokenized(raw))
  {
    hide FinalTokens, Render, Table, Tokenized, Assembled, IsToken;
    var ts := Tokenized(raw);
    AllTokenized(raw);
    StatementReadsBack(raw);
    AssembledIs(ts);
    AssembledIs(FinalTokens(ts));
    FinalFixed(ts);
    if ts == [] {
      NothingFinal();
    } else if IsFormFeed(ts[0]) || IsVerticalTab(ts[0]) {
      BlankHeadLost(ts);
    } else {
      SecondLabels(ts);
    }
  }

  lemma AllTokenized(raw: string)
    ensures AllTokens(Tokenized(raw))
  {
    hide IsToken;
    TokensAreTokens(' ', raw);
  }

  lemma NothingFinal()
    ensures FinalTokens([]) == []
  {
  }

  /** A name with two blanks: the second pass calls the table by another name. */
  lemma SecondPassRenames()
    ensures var n := NormalForm("SELECT * FROM \"a  b\"");
            n.table == "a  b" && NormalForm(n.statement).table == "a b"
  {
    hide Tokenized, Assembled, FinalTokens, WithoutFormFeeds, Squeeze, Table;
    var raw, ts := "SELECT * FROM \"a  b\"", ["SELECT", "*", "FROM", "\"a  b\""];
    RenamedTokens(ts);
    assert Tokenized(raw) == ts by { RawTokens(raw, ts); }
    RenamedTable(ts);
    StatementReadsBack(raw);
    assert Table(FinalTokens(ts)) == Squeeze("a  b") by {
      FormFeedsGone(ts);
      SecondLabels(ts);
    }
    assert Squeeze("a  b") == "a b" by { TwoBlanks(); }
  }

  lemma TwoBlanks()
    ensures Squeeze("a  b") == "a b"
  {
    assert "a  b"[1..] == "  b" && "  b"[1..] == " b" && " b"[1..] == "b";
  }

  lemma RenamedTokens(ts: seq<string>)
    requires ts == ["SELECT", "*", "FROM", "\"a  b\""]
    ensures AllTokens(ts) && Join(ts) == "SELECT * FROM \"a  b\""
    ensures forall t :: t in ts ==> !IsFormFeed(t) && !IsVerticalTab(t)
  {
    hide IsToken, Join;
    SelectFrom();
    TwoBlankName();
    StarToken();
    JoinFour(ts[0], ts[1], ts[2], ts[3]);
    assert "SELECT" + " " + "*" + " " + "FROM" + " " + "\"a  b\"" == "SELECT * FROM \"a  b\"";
  }

  lemma JoinFour(a: string, b: string, c: string, d: string)
    ensures Join([a, b, c, d]) == a + " " + b + " " + c + " " + d
  {
    assert [a, b, c, d][1..] == [b, c, d] && [b, c, d][1..] == [c, d] && [c, d][1..] == [d];
    assert Join([c, d]) == c + " " + d && Join([b, c, d]) == b + " " + (c + " " + d);
    assert a + " " + (b + " " + (c + " " + d)) == a + " " + b + " " + c + " " + d;
  }

  lemma StarToken()
    ensures IsToken("*")
  {
    assert IsOtherByte("*"[0]);
  }

  lemma SelectFrom()
    ensures IsToken("SELECT") && IsToken("FROM")
  {
    assert Lower("SELECT") == "select" && Upper("SELECT") == "SELECT";
    assert Lower("FROM") == "from" && Upper("FROM") == "FROM";
    KeywordToken("SELECT");
    KeywordToken("FROM");
  }

  lemma TwoBlankQuote()
    ensures Quote("a  b") == "\"a  b\""
  {
    assert "a  b"[1..] == "  b" && "  b"[1..] == " b" && " b"[1..] == "b" && "b"[1..] == "";
    assert Doubled("b") == "b" && Doubled(" b") == " b" && Doubled("  b") == "  b" && Doubled("a  b") == "a  b";
  }

  lemma TwoBlankName()
    ensures IsToken("\"a  b\"")
  {
    hide IsToken, Quote;
    TwoBlankQuote();
    assert !IsWordByte("a  b"[1]) && Lower("a  b") == "a  b";
    NameToken("a  b");
  }

  lemma RenamedTable(ts: seq<string>)
    requires ts == ["SELECT", "*", "FROM", "\"a  b\""]
    ensures Table(ts) == "a  b"
  {
    hide TableIdent, IdentAfter;
    TwoBlankTable(ts[3]);
    LookBehind(ts[0], ts[1..], {"FROM"});
    LookBehind(ts[1], ts[2..], {"FROM"});
    assert ts == [ts[0]] + ts[1..] && ts[1..] == [ts[1]] + ts[2..];
    assert ts[2..] == ["FROM", ts[3]];
    LookHere("FROM", ts[3], {"FROM"});
  }

  lemma TwoBlankTable(t: string)
    requires t == "\"a  b\""
    ensures TableIdent(t) == Some("a  b")
  {
    hide UnquoteIdent, Quote;
    TwoBlankQuote();
    UnquoteQuote("a  b");
  }

  lemma LookHere(kw: string, t: string, after: set<string>)
    requires kw in after && TableIdent(t).Some?
    ensures IdentAfter([kw, t], after) == TableIdent(t).value
  {
  }

  lemma LookBehind(t: string, ts: seq<string>, after: set<string>)
    requires t !in after
    ensures IdentAfter([t] + ts, after) == IdentAfter(ts, after)
  {
  }

  /** A leading form feed: the first pass takes it for the operation, the second never sees it. */
  lemma FormFeedIsNoVerb(raw: string)
    requires raw != "" && raw[0] == FORM_FEED
    ensures NormalForm(raw).operation == [FORM_FEED]
    ensures NormalForm(NormalForm(raw).statement).operation != [FORM_FEED]
  {
    hide FinalTokens, Assembled, IsToken;
    assert Next(' ', raw) == ([[FORM_FEED]], 1);
    var ts := Tokenized(raw);
    assert ts[0] == [FORM_FEED];
    AllTokenized(raw);
    BlankHeadLost(ts);
    StatementReadsBack(raw);
  }

  lemma KeywordToken(t: string)
    requires IsWord(t) && Lower(t) in KEYWORDS && Upper(t) == t
    ensures IsToken(t)
  {
  }

  lemma NameToken(low: string)
    requires Lower(low) == low && !IsBareIdent(low)
    ensures IsToken(Quote(low))
  {
    assert IsQuotedToken(Quote(low));
  }

  lemma RawTokens(raw: string, ts: seq<string>)
    requires raw == Join(ts) && AllTokens(ts)
    ensures Tokenized(raw) == ts
  {
    hide IsToken, Tokens;
    JoinReadsBack(' ', ts, "");
    EndOfText(' ');
    assert Join(ts) + "" == Join(ts) && ts + [] == ts;
  }

  /** `Normalize`: tokenize, assemble, and name the operation and its table. */
  method Normalize(raw: string) returns (n: Normalized)
    ensures n == NormalForm(raw)
    ensures NormalForm(n.statement).statement == n.statement
    ensures NormalForm(n.statement) == n <==> LabelsSurvive(Tokenized(raw))
  {
    hide Assembled, Tokenized, IdentAfter, UpdateTable, LabelsSurvive;
    NormalizeIdempotentIff(raw);
    var toks := Tokenize(raw);
    var op, table := "", "";
    if |toks| > 0 {
      op := toks[0];
      if op in {"INSERT", "DELETE", "MERGE", "REPLACE", "UPSERT"} {
        table := IdentAfterLoop(toks, {"INTO", "FROM"});
      } else if op == "UPDATE" {
        table := UpdateTableLoop(toks);
      } else if op == "SELECT" {
        table := IdentAfterLoop(toks, {"FROM"});
      }
    }
    n := Normalized(Assembled(toks), op, table);
  }
}
