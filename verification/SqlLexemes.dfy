/**
 * What every kind of lexeme leaves of itself, whatever stands before and behind it: nothing of a blank or a
 * comment, one placeholder of a value, the folded name of a word, itself of any other byte.
 */
module SqlLexemes {
  import opened Text
  import opened SqlTokens

  // ---- reading one lexeme ----

  /** The lexeme `x` at the head of the text yields `toks`. */
  lemma Reads(prev: char, x: string, rest: string, toks: seq<string>)
    requires x != "" && Next(prev, x + rest) == (toks, |x|)
    ensures Tokens(prev, x + rest) == toks + Tokens(x[|x| - 1], rest)
  {
    hide Next, Tokens;
    var s := x + rest;
    TokensStep(prev, s);
    assert s[|x|..] == rest && s[|x| - 1] == x[|x| - 1];
  }

  /** The byte before matters only by whether it belongs to an identifier. */
  lemma BeforeMatters(p: char, q: char, rest: string)
    requires IsIdentByte(p) == IsIdentByte(q)
    ensures Tokens(p, rest) == Tokens(q, rest)
  {
    if rest != "" {
      hide Tokens;
      TokensStep(p, rest);
      TokensStep(q, rest);
      SameNext(p, q, rest);
    }
  }

  lemma SameNext(p: char, q: char, s: string)
    requires s != "" && IsIdentByte(p) == IsIdentByte(q)
    ensures Next(p, s) == Next(q, s)
  {
    hide LineLen, BlockLen, LiteralLen, QuotedIdent, WordLen, NumberLen, EmitIdent, EmitWord, IsIdentByte;
  }

  /** Space, tab, line feed and carriage return are gaps. */
  lemma BlankLeavesNothing(prev: char, c: char, rest: string)
    requires c in [' ', '\t', '\n', '\r']
    ensures Tokens(prev, [c] + rest) == Tokens(c, rest)
  {
    Reads(prev, [c], rest, []);
  }

  // ---- line comments ----

  lemma {:induction false} LineExact(body: string, rest: string)
    requires '\n' !in body && (rest == "" || rest[0] == '\n')
    ensures LineLen(body + rest) == |body|
  {
    if body == "" {
      assert body + rest == rest;
    } else {
      assert body[0] in body;
      assert (body + rest)[1..] == body[1..] + rest;
      LineExact(body[1..], rest);
    }
  }

  lemma LineNext(prev: char, body: string, rest: string)
    requires '\n' !in body && (rest == "" || rest[0] == '\n')
    ensures Next(prev, "--" + body + rest) == ([], 2 + |body|)
  {
    hide LineLen;
    var s := "--" + body + rest;
    assert "--" <= s && s[0] == '-' && s[2..] == body + rest;
    LineExact(body, rest);
  }

  /** A line comment leaves nothing, whatever it holds: the text goes on behind the line feed, or is over. */
  lemma LineCommentNeverLeaks(prev: char, body: string, rest: string)
    requires '\n' !in body
    ensures Tokens(prev, "--" + body + ("\n" + rest)) == Tokens('\n', rest)
    ensures Tokens(prev, "--" + body) == []
  {
    hide Tokens, Next;
    var x := "--" + body;
    LineNext(prev, body, "\n" + rest);
    Reads(prev, x, "\n" + rest, []);
    BlankLeavesNothing(x[|x| - 1], '\n', rest);
    LineNext(prev, body, "");
    Reads(prev, x, "", []);
    EndOfText(x[|x| - 1]);
    assert x + "" == x;
  }

  // ---- block comments ----

  /** The text of a block comment: bytes, and comments within it. */
  datatype Piece = Byte(c: char) | Nested(inner: seq<Piece>)

  function Written(ps: seq<Piece>): string {
    if ps == [] then "" else PieceText(ps[0]) + Written(ps[1..])
  }

  function PieceText(p: Piece): string {
    match p
    case Byte(c) => [c]
    case Nested(inner) => "/*" + Written(inner) + "*/"
  }

  predicate StartsMarker(s: string) {
    "/*" <= s || "*/" <= s
  }

  /** No byte makes up a marker with what follows it; `tail` is what follows the last piece. */
  predicate Fine(ps: seq<Piece>, tail: string)
    decreases ps
  {
    ps != [] ==>
      && (match ps[0]
          case Byte(c) => !StartsMarker([c] + (Written(ps[1..]) + tail))
          case Nested(inner) => Fine(inner, "*/" + (Written(ps[1..]) + tail)))
      && Fine(ps[1..], tail)
  }

  lemma BlockByte(c: char, s: string, depth: nat)
    requires depth > 0 && !StartsMarker([c] + s)
    ensures BlockLen([c] + s, depth) == 1 + BlockLen(s, depth)
  {
    assert ([c] + s)[1..] == s;
  }

  lemma BlockOpens(s: string, depth: nat)
    requires depth > 0
    ensures BlockLen("/*" + s, depth) == 2 + BlockLen(s, depth + 1)
  {
    assert ("/*" + s)[2..] == s && "/*" <= "/*" + s;
  }

  lemma BlockCloses(s: string, depth: nat)
    requires depth > 0
    ensures BlockLen("*/" + s, depth) == 2 + BlockLen(s, depth - 1)
  {
    var t := "*/" + s;
    assert t[2..] == s && "*/" <= t && t[0] == '*';
  }

  lemma NestedText(inner: string, rest: string, tail: string)
    ensures ("/*" + inner + "*/" + rest) + tail == "/*" + (inner + ("*/" + (rest + tail)))
    ensures |"/*" + inner + "*/" + rest| == 4 + |inner| + |rest|
  {
  }

  /** Scanning the text of a comment comes out at the depth it went in at. */
  lemma {:induction false} BlockExact(ps: seq<Piece>, tail: string, depth: nat)
    requires depth > 0 && Fine(ps, tail)
    ensures BlockLen(Written(ps) + tail, depth) == |Written(ps)| + BlockLen(tail, depth)
    decreases ps
  {
    hide BlockLen, StartsMarker;
    if ps == [] {
      assert "" + tail == tail;
    } else {
      var rest := Written(ps[1..]);
      BlockExact(ps[1..], tail, depth);
      match ps[0]
      case Byte(c) =>
        assert Written(ps) + tail == [c] + (rest + tail);
        BlockByte(c, rest + tail, depth);
      case Nested(inner) =>
        var behind := "*/" + (rest + tail);
        NestedText(Written(inner), rest, tail);
        assert Written(ps) == "/*" + Written(inner) + "*/" + rest;
        BlockOpens(Written(inner) + behind, depth);
        BlockExact(inner, behind, depth + 1);
        BlockCloses(rest + tail, depth + 1);
    }
  }

  /** A block comment that is closed leaves nothing, whatever it holds and however deep it nests. */
  lemma BlockCommentNeverLeaks(prev: char, ps: seq<Piece>, rest: string)
    requires Fine(ps, "*/" + rest)
    ensures Tokens(prev, "/*" + Written(ps) + "*/" + rest) == Tokens('/', rest)
  {
    hide Tokens, BlockLen;
    var x, tail := "/*" + Written(ps) + "*/", "*/" + rest;
    var s := x + rest;
    assert s[2..] == Written(ps) + tail && "/*" <= s && s[0] == '/';
    BlockExact(ps, tail, 1);
    BlockCloses(rest, 1);
    BlockOut(rest);
    assert Next(prev, s) == ([], |x|);
    Reads(prev, x, rest, []);
  }

  lemma BlockOut(s: string)
    ensures BlockLen(s, 0) == 0 && BlockLen("", 1) == 0
  {
  }

  /** Comments opened one inside the other and never closed. */
  function Opened(levels: seq<seq<Piece>>): string {
    if levels == [] then "" else "/*" + (Written(levels[0]) + Opened(levels[1..]))
  }

  predicate FineLevels(levels: seq<seq<Piece>>) {
    levels != [] ==> Fine(levels[0], Opened(levels[1..])) && FineLevels(levels[1..])
  }

  lemma {:induction false} OpenedExact(levels: seq<seq<Piece>>, depth: nat)
    requires depth > 0 && FineLevels(levels)
    ensures BlockLen(Opened(levels), depth) == |Opened(levels)|
  {
    hide BlockLen, Fine;
    if levels == [] {
      NothingInside(depth);
    } else {
      var more := Opened(levels[1..]);
      BlockOpens(Written(levels[0]) + more, depth);
      BlockExact(levels[0], more, depth + 1);
      OpenedExact(levels[1..], depth + 1);
    }
  }

  lemma NothingInside(depth: nat)
    ensures BlockLen("", depth) == 0
  {
  }

  /** A block comment that is not closed takes the rest of the text with it. */
  lemma OpenCommentTakesTheRest(prev: char, levels: seq<seq<Piece>>)
    requires levels != [] && FineLevels(levels)
    ensures Tokens(prev, Opened(levels)) == []
  {
    hide Tokens, BlockLen, Fine;
    var x := Opened(levels);
    var inner := Written(levels[0]) + Opened(levels[1..]);
    assert x == "/*" + inner && x[2..] == inner && "/*" <= x && x[0] == '/';
    BlockExact(levels[0], Opened(levels[1..]), 1);
    OpenedExact(levels[1..], 1);
    assert x + "" == x;
    assert Next(prev, x) == ([], |x|);
    Reads(prev, x, "", []);
    EndOfText(x[|x| - 1]);
  }

  // ---- values ----

  lemma {:induction false} OpenLiteral(body: string)
    requires InsideLiteral(body)
    ensures LiteralLen(body) == |body| && LiteralLen(body + "\\") == |body| + 1
  {
    var s := body + "\\";
    if body != "" {
      var n := if body[0] == '\\' || body[0] == '\'' then 2 else 1;
      OpenLiteral(body[n..]);
      assert s[0] == body[0] && s[n..] == body[n..] + "\\";
      assert body[0] == '\'' ==> "''" <= s;
    }
  }

  /** A literal that is not closed takes the rest of the text with it, also behind a last backslash. */
  lemma OpenLiteralTakesTheRest(prev: char, body: string)
    requires InsideLiteral(body)
    ensures Tokens(prev, "'" + body) == ["?"] && Tokens(prev, "'" + (body + "\\")) == ["?"]
  {
    OpenLiteral(body);
    WholeLiteral(prev, body);
    WholeLiteral(prev, body + "\\");
  }

  lemma WholeLiteral(prev: char, body: string)
    requires LiteralLen(body) == |body|
    ensures Tokens(prev, "'" + body) == ["?"]
  {
    hide Tokens, LiteralLen;
    var x := "'" + body;
    assert x + "" == x && x[1..] == body && x[0] == '\'';
    assert Next(prev, x) == (["?"], |x|);
    Reads(prev, x, "", ["?"]);
    EndOfText(x[|x| - 1]);
  }

  predicate WordBytes(w: string) {
    forall i :: 0 <= i < |w| ==> w[i] == '_' || 'a' <= w[i] <= 'z' || 'A' <= w[i] <= 'Z' || '0' <= w[i] <= '9'
  }

  /** The text does not go on with a byte of a word. */
  predicate WordStops(rest: string) {
    rest != "" ==> !WordBytes([rest[0]])
  }

  lemma WordExact(w: string, rest: string)
    requires WordBytes(w) && WordStops(rest)
    ensures WordLen(w + rest) == |w|
  {
    assert rest != "" ==> [rest[0]][0] == rest[0];
    WordLenExact(w, rest);
  }

  /** A driver placeholder with its name is one placeholder. */
  lemma NamedPlaceholder(prev: char, mark: char, w: string, rest: string)
    requires mark in [':', '@'] && WordBytes(w) && WordStops(rest)
    ensures Tokens(prev, [mark] + w + rest) == ["?"] + Tokens(([mark] + w)[|w|], rest)
  {
    hide Tokens, WordLen;
    var x := [mark] + w;
    WordExact(w, rest);
    assert (x + rest)[1..] == w + rest && (x + rest)[0] == mark;
    assert Next(prev, x + rest) == (["?"], |x|);
    Reads(prev, x, rest, ["?"]);
  }

  /** So is a numbered one: a dollar sign, a digit, and on to the end of the word. */
  lemma NumberedPlaceholder(prev: char, w: string, rest: string)
    requires w != "" && '0' <= w[0] <= '9' && WordBytes(w) && WordStops(rest)
    ensures Tokens(prev, "$" + w + rest) == ["?"] + Tokens(w[|w| - 1], rest)
  {
    hide Tokens, WordLen;
    var x := "$" + w;
    var s := x + rest;
    WordExact(w, rest);
    assert s[1..] == w + rest && s[0] == '$' && s[1] == w[0];
    assert DelimLen(s, 1) == 0;
    assert Next(prev, s) == (["?"], |x|);
    Reads(prev, x, rest, ["?"]);
  }

  /** The tag of a dollar quote: empty, or a name. */
  predicate QuoteTag(tag: string) {
    WordBytes(tag) && (tag != "" ==> !('0' <= tag[0] <= '9'))
  }

  /** A dollar quote opens exactly with a tag between two dollar signs. */
  lemma DelimIs(tag: string, rest: string)
    requires QuoteTag(tag)
    ensures DelimLen("$" + tag + "$" + rest, 1) == |tag| + 2
  {
    var s := "$" + tag + "$" + rest;
    assert forall i :: 0 <= i < |tag| ==> s[1 + i] == tag[i];
    assert s[|tag| + 1] == '$';
    DelimOver(s, 1, |tag| + 1);
  }

  lemma {:induction false} DelimOver(s: string, j: nat, end: nat)
    requires 1 <= j <= end < |s| && s[end] == '$'
    requires forall i :: j <= i < end ==> s[i] == '_' || 'a' <= s[i] <= 'z' || 'A' <= s[i] <= 'Z' || ('0' <= s[i] <= '9' && i != 1)
    ensures DelimLen(s, j) == end + 1
    decreases end - j
  {
    if j < end { DelimOver(s, j + 1, end); }
  }

  lemma {:induction false} DelimWithin(s: string, j: nat)
    requires 1 <= j && DelimLen(s, j) > 0
    ensures j < DelimLen(s, j) <= |s| && s[DelimLen(s, j) - 1] == '$'
    ensures forall i :: j <= i < DelimLen(s, j) - 1 ==>
              s[i] == '_' || 'a' <= s[i] <= 'z' || 'A' <= s[i] <= 'Z' || ('0' <= s[i] <= '9' && i != 1)
    decreases |s| - j
  {
    if s[j] != '$' { DelimWithin(s, j + 1); }
  }

  /** And with nothing else. */
  lemma DelimOnly(s: string)
    requires s != "" && s[0] == '$' && DelimLen(s, 1) > 0
    ensures var d := DelimLen(s, 1); 2 <= d <= |s| && QuoteTag(s[1..d - 1]) && s[..d] == "$" + s[1..d - 1] + "$"
  {
    hide DelimLen;
    DelimWithin(s, 1);
    var d := DelimLen(s, 1);
    var tag := s[1..d - 1];
    assert forall i :: 0 <= i < |tag| ==> tag[i] == s[i + 1];
    Framed(s, d);
  }

  lemma Framed(s: string, d: nat)
    requires 2 <= d <= |s| && s[0] == '$' && s[d - 1] == '$'
    ensures s[..d] == "$" + s[1..d - 1] + "$"
  {
  }

  /** A byte that can stand inside an identifier; a dollar sign counts. */
  predicate Glues(c: char) {
    WordBytes([c]) || c == '$'
  }

  lemma GluesIs(c: char)
    ensures Glues(c) <==> IsIdentByte(c)
  {
    assert [c][0] == c;
  }

  /** A dollar quote that is never closed takes the rest with it, where it is not glued to an identifier. */
  lemma OpenDollarQuoteTakesTheRest(prev: char, delim: string, body: string)
    requires delim != "" && delim[0] == '$' && DelimLen(delim, 1) == |delim|
    requires Find(body, delim) == |body| && !Glues(prev)
    ensures Tokens(prev, delim + body) == ["?"]
  {
    hide Tokens, DelimLen, Find, Glues, IsIdentByte;
    var s := delim + body;
    GluesIs(prev);
    DelimPrefix(delim, body, 1);
    assert s[|delim|..] == body && s[..|delim|] == delim && s[0] == '$';
    assert s + "" == s;
    assert Next(prev, s) == (["?"], |s|);
    Reads(prev, s, "", ["?"]);
    EndOfText(s[|s| - 1]);
  }

  /** Glued to one it is only a part of the name: the word behind the dollar sign goes, and the text is read on. */
  lemma GluedDollarIsNoQuote(prev: char, delim: string, body: string)
    requires delim != "" && delim[0] == '$' && DelimLen(delim, 1) == |delim|
    requires Find(body, delim) == |body| && Glues(prev)
    ensures var s, n := delim + body, 1 + WordLen((delim + body)[1..]);
            n <= |s| && WordBytes(s[1..n]) && WordStops(s[n..]) && Tokens(prev, s) == ["?"] + Tokens(s[n - 1], s[n..])
  {
    hide Tokens, DelimLen, Find, Glues, IsIdentByte, WordLen;
    var s := delim + body;
    GluesIs(prev);
    DelimPrefix(delim, body, 1);
    assert s[|delim|..] == body && s[..|delim|] == delim && s[0] == '$';
    var n := 1 + WordLen(s[1..]);
    assert Next(prev, s) == (["?"], n);
    WordLenIs(s[1..]);
    assert s[1..][..n - 1] == s[1..n] && s[1..][n - 1..] == s[n..];
    assert s[..n] + s[n..] == s;
    Reads(prev, s[..n], s[n..], ["?"]);
  }

  lemma WordLenIs(s: string)
    ensures WordBytes(s[..WordLen(s)]) && WordStops(s[WordLen(s)..])
  {
    WordLenBytes(s);
    var rest := s[WordLen(s)..];
    if rest != "" { assert [rest[0]][0] == rest[0] && rest[0] == s[WordLen(s)]; }
  }

  /** Digits and points, starting with a digit or with a point before a digit. */
  predicate NumberText(x: string) {
    && x != "" && (forall i :: 0 <= i < |x| ==> x[i] == '.' || '0' <= x[i] <= '9')
    && (x[0] == '.' ==> |x| > 1 && x[1] != '.')
  }

  lemma {:induction false} NumberExact(x: string, rest: string)
    requires forall i :: 0 <= i < |x| ==> x[i] == '.' || '0' <= x[i] <= '9'
    requires rest != "" ==> rest[0] != '.' && !('0' <= rest[0] <= '9')
    ensures NumberLen(x + rest) == |x|
  {
    if x == "" {
      assert x + rest == rest;
    } else {
      assert (x + rest)[1..] == x[1..] + rest;
      NumberExact(x[1..], rest);
    }
  }

  /** A number is one placeholder. */
  lemma NumberNeverLeaks(prev: char, x: string, rest: string)
    requires NumberText(x) && (rest != "" ==> rest[0] != '.' && !('0' <= rest[0] <= '9'))
    ensures Tokens(prev, x + rest) == ["?"] + Tokens(x[|x| - 1], rest)
  {
    hide Tokens, NumberLen;
    var s := x + rest;
    NumberExact(x, rest);
    assert s[0] == x[0] && (|x| > 1 ==> s[1] == x[1]);
    assert Next(prev, s) == (["?"], |x|);
    Reads(prev, x, rest, ["?"]);
  }

  // ---- names ----

  /** Equal but for the case of ASCII letters. */
  predicate SameButCase(a: string, b: string) {
    |a| == |b| && forall i :: 0 <= i < |a| ==> CaseOf(a[i], b[i])
  }

  predicate CaseOf(a: char, b: char) {
    || a == b
    || ('a' <= a <= 'z' && b as int == a as int - 32)
    || ('A' <= a <= 'Z' && b as int == a as int + 32)
  }

  predicate NoUpper(s: string) {
    forall i :: 0 <= i < |s| ==> !('A' <= s[i] <= 'Z')
  }

  predicate NoLower(s: string) {
    forall i :: 0 <= i < |s| ==> !('a' <= s[i] <= 'z')
  }

  /** A word of the language, in any case. */
  ghost predicate Reserved(w: string) {
    exists k :: k in KEYWORDS && SameButCase(w, k)
  }

  lemma LowerIs(s: string)
    ensures SameButCase(s, Lower(s)) && NoUpper(Lower(s))
    ensures SameButCase(s, Upper(s)) && NoLower(Upper(s))
  {
  }

  /** There is one text without capitals that is the same but for case. */
  lemma LowerUnique(s: string, t: string)
    requires SameButCase(s, t) && NoUpper(t)
    ensures t == Lower(s)
  {
    assert forall i :: 0 <= i < |s| ==> CaseOf(s[i], t[i]) && !('A' <= t[i] <= 'Z');
  }

  lemma KeywordsAreLower()
    ensures forall k :: k in KEYWORDS ==> NoUpper(k)
  {
  }

  lemma ReservedIff(w: string)
    ensures Reserved(w) <==> Lower(w) in KEYWORDS
  {
    hide Lower, SameButCase, KEYWORDS;
    KeywordsAreLower();
    LowerIs(w);
    if k :| k in KEYWORDS && SameButCase(w, k) { LowerUnique(w, k); }
  }

  /** A word is one token, the same but for case: a reserved word in capitals, any other name without. */
  lemma WordFolds(prev: char, w: string, rest: string) returns (t: string)
    requires w != "" && WordBytes(w) && !('0' <= w[0] <= '9') && WordStops(rest)
    ensures Tokens(prev, w + rest) == [t] + Tokens(w[|w| - 1], rest)
    ensures SameButCase(w, t) && if Reserved(w) then NoLower(t) else NoUpper(t)
  {
    hide Tokens, WordLen, Lower, Upper, Reserved, SameButCase;
    var s := w + rest;
    WordExact(w, rest);
    assert s[0] == w[0] && s[..|w|] == w;
    t := EmitWord(w);
    assert Next(prev, s) == ([t], |w|);
    Reads(prev, w, rest, [t]);
    LowerIs(w);
    ReservedIff(w);
  }

  /** Two spellings of a word that differ in case are one token. */
  lemma CaseNeverMatters(prev: char, v: string, w: string, rest: string)
    requires v != "" && WordBytes(v) && !('0' <= v[0] <= '9') && WordStops(rest) && SameButCase(v, w)
    ensures Tokens(prev, v + rest)[..1] == Tokens(prev, w + rest)[..1]
  {
    hide Tokens, SameButCase, Reserved, KEYWORDS, WordBytes;
    assert WordBytes(w) && w != "" && !('0' <= w[0] <= '9') by { CaseKeepsBytes(v, w); }
    var t := WordFolds(prev, v, rest);
    var u := WordFolds(prev, w, rest);
    CaseTrans(v, w, t, u);
    SameReserved(v, w);
    SameWord(t, u);
  }

  lemma CaseKeepsBytes(v: string, w: string)
    requires WordBytes(v) && SameButCase(v, w) && v != "" && !('0' <= v[0] <= '9')
    ensures WordBytes(w) && w != "" && !('0' <= w[0] <= '9')
  {
    assert forall i :: 0 <= i < |v| ==> CaseOf(v[i], w[i]);
  }

  lemma CaseTrans(v: string, w: string, t: string, u: string)
    requires SameButCase(v, w) && SameButCase(v, t) && SameButCase(w, u)
    ensures SameButCase(t, u)
  {
    forall i | 0 <= i < |t| ensures CaseOf(t[i], u[i]) {
      assert CaseOf(v[i], w[i]) && CaseOf(v[i], t[i]) && CaseOf(w[i], u[i]);
    }
  }

  lemma CaseSymm(v: string, w: string)
    requires SameButCase(v, w)
    ensures SameButCase(w, v)
  {
  }

  lemma SameReserved(v: string, w: string)
    requires SameButCase(v, w)
    ensures Reserved(v) <==> Reserved(w)
  {
    hide SameButCase, KEYWORDS;
    CaseSymm(v, w);
    forall k | k in KEYWORDS ensures SameButCase(v, k) <==> SameButCase(w, k) {
      if SameButCase(v, k) { CaseTrans(v, v, w, k) by { SelfCase(v); } }
      if SameButCase(w, k) { CaseTrans(w, w, v, k) by { SelfCase(w); } }
    }
  }

  lemma SelfCase(v: string)
    ensures SameButCase(v, v)
  {
  }

  lemma SameWord(t: string, u: string)
    requires SameButCase(t, u) && ((NoUpper(t) && NoUpper(u)) || (NoLower(t) && NoLower(u)))
    ensures t == u
  {
    assert forall i :: 0 <= i < |t| ==> CaseOf(t[i], u[i]);
  }

  // ---- quoted names ----

  /** A name written between delimiters, each delimiter within it doubled. */
  function Escaped(name: string, q: char): string {
    if name == "" then "" else (if name[0] == q then [q, q] else [name[0]]) + Escaped(name[1..], q)
  }

  lemma {:induction false} EscapedExact(name: string, q: char, rest: string)
    requires rest != "" ==> rest[0] != q
    ensures QuotedIdent(Escaped(name, q) + ([q] + rest), q) == (name, |Escaped(name, q)| + 1)
  {
    hide QuotedIdent;
    var after := [q] + rest;
    if name == "" {
      NameEnds(q, rest);
      assert "" + after == after;
    } else {
      var more := Escaped(name[1..], q) + after;
      EscapedExact(name[1..], q, rest);
      if name[0] == q {
        assert Escaped(name, q) + after == [q, q] + more;
        NamePair(q, more);
      } else {
        assert Escaped(name, q) + after == [name[0]] + more;
        NameByte(q, name[0], more);
      }
      assert [name[0]] + name[1..] == name;
    }
  }

  lemma NameEnds(q: char, rest: string)
    requires rest != "" ==> rest[0] != q
    ensures QuotedIdent([q] + rest, q) == ("", 1)
  {
    var s := [q] + rest;
    assert |s| > 1 ==> s[1] == rest[0];
    assert !([q, q] <= s);
  }

  lemma NamePair(q: char, more: string)
    ensures QuotedIdent([q, q] + more, q) == ([q] + QuotedIdent(more, q).0, 2 + QuotedIdent(more, q).1)
  {
    var s := [q, q] + more;
    assert [q, q] <= s && s[2..] == more && s[0] == q;
  }

  lemma NameByte(q: char, c: char, more: string)
    requires c != q
    ensures QuotedIdent([c] + more, q) == ([c] + QuotedIdent(more, q).0, 1 + QuotedIdent(more, q).1)
  {
    assert ([c] + more)[1..] == more;
  }

  /** A plain name: one that could stand without quotes. */
  ghost predicate Bare(name: string) {
    name != "" && WordBytes(name) && !('0' <= name[0] <= '9') && !Reserved(name)
  }

  /**
   * A quoted name, in either kind of quotes, is one token: the bare lower-case name where it could stand bare,
   * so that both ways of writing it are one, and else the lower-case name in double quotes.
   */
  lemma QuotedNameFolds(prev: char, q: char, name: string, rest: string) returns (low: string)
    requires q in ['"', '`'] && (rest != "" ==> rest[0] != q)
    ensures SameButCase(name, low) && NoUpper(low)
    ensures Tokens(prev, [q] + Escaped(name, q) + [q] + rest)
         == [if Bare(name) then low else "\"" + Escaped(low, '"') + "\""] + Tokens(q, rest)
  {
    hide Tokens, QuotedIdent, Escaped, Reserved, Lower, SameButCase, Doubled, KEYWORDS;
    var x := [q] + Escaped(name, q) + [q];
    var s := x + rest;
    low := Lower(name);
    EscapedExact(name, q, rest);
    assert s[0] == q && s[1..] == Escaped(name, q) + ([q] + rest);
    assert Next(prev, s) == ([EmitIdent(name)], |x|);
    Reads(prev, x, rest, [EmitIdent(name)]);
    LowerIs(name);
    BareIs(name);
    DoubledIs(low);
  }

  lemma BareIs(name: string)
    ensures Bare(name) <==> IsBareIdent(Lower(name))
  {
    hide Reserved, SameButCase, KEYWORDS;
    ReservedIff(name);
    LowerWord(name);
  }

  lemma LowerWord(name: string)
    ensures IsWord(Lower(name)) <==> name != "" && WordBytes(name) && !('0' <= name[0] <= '9')
  {
    var low := Lower(name);
    assert forall i :: 0 <= i < |name| ==> low[i] == LowerByte(name[i]);
  }

  lemma {:induction false} DoubledIs(low: string)
    ensures Doubled(low) == Escaped(low, '"')
  {
    if low != "" { DoubledIs(low[1..]); }
  }

  // ---- anything else ----

  /** A byte that starts none of these is a token of its own. */
  predicate StandsAlone(c: char, rest: string) {
    && !WordBytes([c]) && c !in [' ', '\t', '\n', '\r', '\'', '"', '`', '$', ':', '@', '?']
    && (c == '-' ==> rest == "" || rest[0] != '-')
    && (c == '/' ==> rest == "" || rest[0] != '*')
    && (c == '.' ==> rest == "" || !('0' <= rest[0] <= '9'))
  }

  lemma OtherByteStays(prev: char, c: char, rest: string)
    requires StandsAlone(c, rest)
    ensures Tokens(prev, [c] + rest) == [[c]] + Tokens(c, rest)
  {
    hide Tokens;
    var s := [c] + rest;
    assert [c][0] == c;
    assert s[0] == c && (|s| > 1 ==> s[1] == rest[0]);
    assert !("--" <= s) && !("/*" <= s);
    Reads(prev, [c], rest, [[c]]);
  }

  // ---- comments in a statement ----

  /** Between two tokens a line comment is a blank. */
  lemma CommentIsABlank(ts: seq<string>, body: string, rest: string)
    requires (forall t :: t in ts ==> IsToken(t)) && '\n' !in body
    ensures Tokenized(Join(ts) + (" --" + body + ("\n" + rest))) == Tokenized(Join(ts) + (" " + rest))
  {
    hide Tokens, IsToken;
    var comment := "--" + body + ("\n" + rest);
    assert " --" + body + ("\n" + rest) == " " + comment;
    JoinReadsBack(' ', ts, " " + comment);
    JoinReadsBack(' ', ts, " " + rest);
    ReadSpace(' ', comment);
    ReadSpace(' ', rest);
    LineCommentNeverLeaks(' ', body, rest);
    BeforeMatters('\n', ' ', rest);
  }

  /** So is a block comment. */
  lemma BlockCommentIsABlank(ts: seq<string>, ps: seq<Piece>, rest: string)
    requires (forall t :: t in ts ==> IsToken(t)) && Fine(ps, "*/" + rest)
    ensures Tokenized(Join(ts) + (" /*" + Written(ps) + "*/" + rest)) == Tokenized(Join(ts) + (" " + rest))
  {
    hide Tokens, IsToken, Fine, Written;
    var comment := "/*" + Written(ps) + "*/" + rest;
    assert " /*" + Written(ps) + "*/" + rest == " " + comment;
    JoinReadsBack(' ', ts, " " + comment);
    JoinReadsBack(' ', ts, " " + rest);
    ReadSpace(' ', comment);
    ReadSpace(' ', rest);
    BlockCommentNeverLeaks(' ', ps, rest);
    BeforeMatters('/', ' ', rest);
  }
}
