/**
 * What the normal form of a statement says: nothing of comments and values, the verb, and the table behind the
 * keyword that introduces it.
 */
module SqlStatements {
  import opened Text
  import opened SqlTokens
  import opened SqlBlanks
  import opened SqlNormalize
  import opened SqlLexemes

  // ---- comments and values ----

  /** A line comment in front of a statement, or between two of its tokens, is not seen in the normal form. */
  lemma LineCommentsUnseen(ts: seq<string>, body: string, rest: string)
    requires (forall t :: t in ts ==> IsToken(t)) && '\n' !in body
    ensures NormalForm("--" + body + ("\n" + rest)) == NormalForm(rest)
    ensures NormalForm(Join(ts) + (" --" + body + ("\n" + rest))) == NormalForm(Join(ts) + (" " + rest))
  {
    hide Tokens, IsToken, Assembled, Table, Operation;
    LineCommentNeverLeaks(' ', body, rest);
    BeforeMatters('\n', ' ', rest);
    CommentIsABlank(ts, body, rest);
  }

  /** Nor is a block comment. */
  lemma BlockCommentsUnseen(ts: seq<string>, ps: seq<Piece>, rest: string)
    requires (forall t :: t in ts ==> IsToken(t)) && Fine(ps, "*/" + rest)
    ensures NormalForm("/*" + Written(ps) + "*/" + rest) == NormalForm(rest)
    ensures NormalForm(Join(ts) + (" /*" + Written(ps) + "*/" + rest)) == NormalForm(Join(ts) + (" " + rest))
  {
    hide Tokens, IsToken, Assembled, Table, Operation, Fine;
    BlockCommentNeverLeaks(' ', ps, rest);
    BeforeMatters('/', ' ', rest);
    BlockCommentIsABlank(ts, ps, rest);
  }

  /** Whatever a literal holds, the normal form is the same. */
  lemma LiteralsUnseen(ts: seq<string>, x: string, y: string, rest: string)
    requires (forall t :: t in ts ==> IsToken(t)) && InsideLiteral(x) && InsideLiteral(y) && (rest != "" ==> rest[0] != '\'')
    ensures NormalForm(Join(ts) + (" '" + x + "'" + rest)) == NormalForm(Join(ts) + (" '" + y + "'" + rest))
  {
    hide Tokens, IsToken, Assembled, Table, Operation, InsideLiteral;
    LiteralRead(ts, x, rest);
    LiteralRead(ts, y, rest);
  }

  lemma LiteralRead(ts: seq<string>, x: string, rest: string)
    requires (forall t :: t in ts ==> IsToken(t)) && InsideLiteral(x) && (rest != "" ==> rest[0] != '\'')
    ensures Tokenized(Join(ts) + (" '" + x + "'" + rest)) == ts + (["?"] + Tokens('\'', rest))
  {
    hide Tokens, IsToken, InsideLiteral;
    var literal := "'" + (x + ("'" + rest));
    assert " '" + x + "'" + rest == " " + literal;
    JoinReadsBack(' ', ts, " " + literal);
    ReadSpace(' ', literal);
    LiteralNeverLeaks(' ', x, rest);
  }

  /** Whatever a number is, too. */
  lemma NumbersUnseen(ts: seq<string>, x: string, y: string, rest: string)
    requires (forall t :: t in ts ==> IsToken(t)) && NumberText(x) && NumberText(y)
    requires rest != "" ==> rest[0] != '.' && !('0' <= rest[0] <= '9')
    requires rest != "" ==> rest[0] != '$'
    ensures NormalForm(Join(ts) + (" " + x + rest)) == NormalForm(Join(ts) + (" " + y + rest))
  {
    hide Tokens, IsToken, Assembled, Table, Operation, NumberText;
    NumberRead(ts, x, rest);
    NumberRead(ts, y, rest);
  }

  lemma NumberRead(ts: seq<string>, x: string, rest: string)
    requires (forall t :: t in ts ==> IsToken(t)) && NumberText(x)
    requires rest != "" ==> rest[0] != '.' && !('0' <= rest[0] <= '9')
    requires rest != "" ==> rest[0] != '$'
    ensures Tokenized(Join(ts) + (" " + x + rest)) == ts + (["?"] + Tokens(' ', rest))
  {
    hide Tokens, IsToken, NumberText;
    assert " " + x + rest == " " + (x + rest);
    JoinReadsBack(' ', ts, " " + (x + rest));
    ReadSpace(' ', x + rest);
    assert x != "" by { NumberHolds(x); }
    NumberNeverLeaks(' ', x, rest);
    NoDollarNext(x[|x| - 1], ' ', rest);
  }

  lemma NumberHolds(x: string)
    requires NumberText(x)
    ensures x != ""
  {
  }

  /** The byte before matters only to a dollar sign. */
  lemma NoDollarNext(p: char, q: char, rest: string)
    requires rest != "" ==> rest[0] != '$'
    ensures Tokens(p, rest) == Tokens(q, rest)
  {
    hide Tokens, Next;
    if rest == "" {
      EndOfText(p);
      EndOfText(q);
    } else {
      TokensStep(p, rest);
      TokensStep(q, rest);
      SameButDollar(p, q, rest);
    }
  }

  lemma SameButDollar(p: char, q: char, s: string)
    requires s != "" && s[0] != '$'
    ensures Next(p, s) == Next(q, s)
  {
    hide LineLen, BlockLen, LiteralLen, QuotedIdent, WordLen, NumberLen, EmitIdent, EmitWord, DollarLen;
  }

  // ---- the verb ----

  /** The operation is the first token; a statement that starts with a reserved word has it for its verb, in capitals. */
  lemma OperationIsVerb(w: string, rest: string)
    requires w != "" && WordBytes(w) && !('0' <= w[0] <= '9') && WordStops(rest)
    ensures SameButCase(w, NormalForm(w + rest).operation)
    ensures if Reserved(w) then NoLower(NormalForm(w + rest).operation) else NoUpper(NormalForm(w + rest).operation)
  {
    hide Tokens, Assembled, Table, Reserved, WordBytes;
    var t := WordFolds(' ', w, rest);
    assert Tokenized(w + rest)[0] == t;
  }

  /** The words the labels and the lists depend on. */
  predicate LabelWord(w: string) {
    w in ["SELECT", "INSERT", "UPDATE", "DELETE", "MERGE", "REPLACE", "UPSERT", "INTO", "FROM", "IN", "VALUES"]
  }

  predicate Capitals(w: string) {
    w != "" && forall i :: 0 <= i < |w| ==> 'A' <= w[i] <= 'Z'
  }

  /** They are reserved, so each is a token of its own in any case, and none is ever taken for a table. */
  lemma LabelWordsAreReserved(w: string)
    requires LabelWord(w)
    ensures Reserved(w) && IsToken(w) && TableIdent(w) == None
  {
    hide Lower, Upper, IsToken, Reserved, KEYWORDS, IsKeywordToken;
    assert Capitals(w) by { AllCapitals(w); }
    assert Lower(w) in KEYWORDS by { LabelsLower(w); }
    ReservedIff(w);
    CapitalToken(w);
    KeywordIsCapital(w);
  }

  lemma AllCapitals(w: string)
    requires LabelWord(w)
    ensures Capitals(w)
  {
  }

  lemma LowerOf(w: string, low: string)
    requires |w| == |low| && forall i :: 0 <= i < |w| ==> LowerByte(w[i]) == low[i]
    ensures Lower(w) == low
  {
  }

  lemma LabelsLower(w: string)
    requires LabelWord(w)
    ensures Lower(w) in KEYWORDS
  {
    hide Lower;
    LowerOf("SELECT", "select");
    LowerOf("INSERT", "insert");
    LowerOf("UPDATE", "update");
    LowerOf("DELETE", "delete");
    LowerOf("MERGE", "merge");
    LowerOf("REPLACE", "replace");
    LowerOf("UPSERT", "upsert");
    LowerOf("INTO", "into");
    LowerOf("FROM", "from");
    LowerOf("IN", "in");
    LowerOf("VALUES", "values");
  }

  lemma CapitalToken(w: string)
    requires Capitals(w) && Lower(w) in KEYWORDS
    ensures IsKeywordToken(w) && IsToken(w)
  {
    hide KEYWORDS;
    assert Upper(w) == w;
  }

  // ---- the table ----

  /** The name a token gives in the position of a table. */
  ghost predicate NamesTable(t: string, name: string) {
    || (t == name && Bare(name) && NoUpper(name))
    || (t == "\"" + Escaped(name, '"') + "\"" && NoUpper(name) && !Bare(name))
  }

  lemma TableNameIs(t: string, name: string)
    requires NamesTable(t, name)
    ensures TableIdent(t) == Some(name)
  {
    hide Lower, Reserved, SameButCase, KEYWORDS;
    SelfCase(name);
    LowerUnique(name, name);
    if t == name && Bare(name) {
      BareIs(name);
    } else {
      DoubledIs(name);
      UndoubleDoubled(name);
      assert t[1..|t| - 1] == Doubled(name);
    }
  }

  /** Reserved words, placeholders and punctuation name none. */
  lemma NoTableName(t: string)
    requires IsToken(t) && (forall name :: !NamesTable(t, name))
    ensures TableIdent(t) == None
  {
    hide Lower, Reserved, SameButCase, KEYWORDS, NamesTable, IsQuotedToken, IsBareToken, IsKeywordToken;
    QuotedNames(t);
    BareNames(t);
    if IsKeywordToken(t) {
      KeywordIsCapital(t);
    } else {
      OtherIsNone(t);
    }
  }

  lemma QuotedNames(t: string)
    ensures IsQuotedToken(t) ==> exists name :: NamesTable(t, name)
  {
    hide Lower, Reserved, SameButCase, KEYWORDS;
    if low :| Lower(low) == low && !IsBareIdent(low) && t == Quote(low) {
      LowerIs(low);
      BareIs(low);
      DoubledIs(low);
      assert NamesTable(t, low);
    }
  }

  lemma BareNames(t: string)
    ensures IsBareToken(t) ==> exists name :: NamesTable(t, name)
  {
    hide Lower, Reserved, SameButCase, KEYWORDS;
    if IsBareToken(t) {
      LowerIs(t);
      BareIs(t);
      assert NamesTable(t, t);
    }
  }

  lemma OtherIsNone(t: string)
    requires t == "?" || (|t| == 1 && IsOtherByte(t[0]))
    ensures TableIdent(t) == None
  {
  }

  lemma KeywordIsCapital(t: string)
    requires IsKeywordToken(t)
    ensures t != "" && t[0] != '"' && t != Lower(t)
  {
    var low := Lower(t);
    assert forall i :: 0 <= i < |t| ==> low[i] == LowerByte(t[i]) && Upper(t)[i] == UpperByte(t[i]);
    assert IsIdent(t[0]);
    if t == low {
      OnlyUnderscores(t);
      KeywordHasLetter(t);
    }
  }

  lemma OnlyUnderscores(t: string)
    requires IsWord(t) && Upper(t) == t && Lower(t) == t
    ensures forall i :: 0 <= i < |t| ==> !('a' <= t[i] <= 'z')
  {
    forall i | 0 <= i < |t| ensures !('a' <= t[i] <= 'z') { assert Upper(t)[i] == UpperByte(t[i]); }
  }

  lemma KeywordHasLetter(t: string)
    requires t in KEYWORDS
    ensures t != "" && 'a' <= t[0] <= 'z'
  {
  }

  /** The first name right behind one of the keywords, or none. */
  ghost predicate FirstBehind(ts: seq<string>, after: set<string>, name: string) {
    || (exists i :: TableAt(ts, after, i) && TableIdent(ts[i + 1]) == Some(name) && forall j :: 0 <= j < i ==> !TableAt(ts, after, j))
    || (name == "" && forall j :: !TableAt(ts, after, j))
  }

  predicate TableAt(ts: seq<string>, after: set<string>, i: int) {
    0 <= i && i + 1 < |ts| && ts[i] in after && TableIdent(ts[i + 1]).Some?
  }

  lemma {:induction false} IdentAfterIs(ts: seq<string>, after: set<string>)
    ensures FirstBehind(ts, after, IdentAfter(ts, after))
    decreases |ts|
  {
    hide TableIdent;
    if |ts| >= 2 && !TableAt(ts, after, 0) {
      var rest := ts[1..];
      IdentAfterIs(rest, after);
      forall j ensures TableAt(ts, after, j) <==> TableAt(rest, after, j - 1) {
        if j > 0 && j + 1 < |ts| { assert ts[j] == rest[j - 1] && ts[j + 1] == rest[j]; }
      }
      if i :| TableAt(rest, after, i) && TableIdent(rest[i + 1]) == Some(IdentAfter(rest, after)) && forall j :: 0 <= j < i ==> !TableAt(rest, after, j) {
        assert TableAt(ts, after, i + 1) && ts[i + 2] == rest[i + 1];
        assert forall j :: 0 <= j < i + 1 ==> !TableAt(ts, after, j);
      }
    } else if |ts| >= 2 {
      assert TableAt(ts, after, 0);
    }
  }

  /** An UPDATE names its table behind any of the three qualifiers. */
  lemma {:induction false} UpdateTableIs(quals: seq<string>, t: string, rest: seq<string>)
    requires forall q :: q in quals ==> q == "only" || q == "low_priority" || q == "ignore"
    requires t != "only" && t != "low_priority" && t != "ignore"
    ensures Table(["UPDATE"] + (quals + ([t] + rest))) == if TableIdent(t).Some? then TableIdent(t).value else ""
    ensures UpdateTable(quals + ([t] + rest)) == if TableIdent(t).Some? then TableIdent(t).value else ""
  {
    hide TableIdent;
    var ts := quals + ([t] + rest);
    assert (["UPDATE"] + ts)[1..] == ts;
    if quals != [] {
      assert forall q :: q in quals[1..] ==> q in quals;
      UpdateTableIs(quals[1..], t, rest);
      assert quals[0] in quals && ts[1..] == quals[1..] + ([t] + rest);
    } else {
      assert ts[0] == t;
    }
  }

  /** Which keyword introduces the table is decided by the verb; a verb that is none of these has no table. */
  lemma TableIsBehindKeyword(verb: string, rest: seq<string>)
    requires verb != "UPDATE"
    ensures var ts := [verb] + rest;
            if verb in ["INSERT", "DELETE", "MERGE", "REPLACE", "UPSERT"] then FirstBehind(ts, {"INTO", "FROM"}, Table(ts))
            else if verb == "SELECT" then FirstBehind(ts, {"FROM"}, Table(ts))
            else Table(ts) == ""
  {
    hide FirstBehind;
    var ts := [verb] + rest;
    assert ts[0] == verb;
    IdentAfterIs(ts, {"INTO", "FROM"});
    IdentAfterIs(ts, {"FROM"});
  }

  /** The normal form takes operation and table from the tokens of the text. */
  lemma LabelsAreOfTokens(ts: seq<string>)
    requires forall t :: t in ts ==> IsToken(t)
    ensures NormalForm(Join(ts)).operation == (if ts == [] then "" else ts[0])
    ensures NormalForm(Join(ts)).table == Table(ts)
  {
    hide IsToken, Tokens, Table, Assembled;
    JoinReadsBack(' ', ts, "");
    EndOfText(' ');
    assert Join(ts) + "" == Join(ts) && ts + [] == ts;
  }

  // ---- the statement ----

  /** A collapsed list as it is written. */
  function Glued(ts: seq<string>): seq<string> {
    if ts == [] then []
    else if |ts| >= 4 && ts[0] in ["IN", "VALUES"] && ts[1..4] == ["(", "?", ")"] then [ts[0], "(?)"] + Glued(ts[4..])
    else [ts[0]] + Glued(ts[1..])
  }

  lemma TightIs(ts: seq<string>)
    ensures TightList(ts) <==> |ts| >= 4 && ts[0] in ["IN", "VALUES"] && ts[1..4] == ["(", "?", ")"]
  {
    if |ts| >= 4 { assert ts[1..4] == [ts[1], ts[2], ts[3]]; }
  }

  /** Tokens are written with single spaces, a collapsed list as one word. */
  lemma {:induction false} RenderIs(ts: seq<string>)
    ensures Render(ts) == Join(Glued(ts))
    decreases |ts|
  {
    hide TightList;
    if ts != [] {
      TightIs(ts);
      if TightList(ts) {
        RenderIs(ts[4..]);
        GluedSome(ts[4..]);
        JoinPair(ts[0], "(?)", Glued(ts[4..]));
      } else {
        RenderIs(ts[1..]);
        GluedSome(ts[1..]);
        JoinOne(ts[0], Glued(ts[1..]));
      }
    }
  }

  lemma JoinOne(t: string, ts: seq<string>)
    ensures Join([t] + ts) == t + if ts == [] then "" else " " + Join(ts)
  {
    assert ([t] + ts)[1..] == ts;
    if ts != [] { assert t + " " + Join(ts) == t + (" " + Join(ts)); }
  }

  lemma JoinPair(t: string, u: string, ts: seq<string>)
    ensures Join([t, u] + ts) == t + " " + u + if ts == [] then "" else " " + Join(ts)
  {
    hide Join;
    assert [t, u] + ts == [t] + ([u] + ts);
    JoinOne(t, [u] + ts);
    JoinOne(u, ts);
    var more := if ts == [] then "" else " " + Join(ts);
    assert t + (" " + (u + more)) == t + " " + u + more;
  }

  lemma GluedSome(ts: seq<string>)
    ensures Glued(ts) == [] <==> ts == []
  {
  }

  /** No blank is left at either end of a statement. */
  lemma StatementTrimmed(raw: string)
    ensures var s := NormalForm(raw).statement; s != "" ==> !IsGap(s[0]) && !IsGap(s[|s| - 1])
  {
    hide Tokens, Trim, Squeeze, Render, Collapse, IsGap;
    TrimIs(Squeeze(Render(Collapse(WithoutFormFeeds(Tokenized(raw))))));
  }
}
