/**
 * The SQL tokenizer: literals and placeholders become "?", comments vanish, keywords are upper-cased,
 * and identifiers are written so that reading the output again gives the same tokens. Bytes are
 * modelled as characters whose case mapping is the ASCII one.
 */
module SqlTokens {
  import opened Text

  const KEYWORDS: set<string> := {
    "select", "insert", "update", "delete", "from", "into", "where", "values", "set", "and", "or",
    "in", "join", "left", "right", "inner", "outer", "on", "as", "order", "by", "group", "having",
    "limit", "offset", "returning", "null", "is", "not", "merge", "upsert", "replace", "using"
  }

  // ---- bytes ----

  predicate IsSpace(c: char) { c == ' ' || c == '\t' || c == '\n' || c == '\r' }


  predicate IsIdent(c: char) { c == '_' || 'a' <= c <= 'z' || 'A' <= c <= 'Z' }

  predicate IsWordByte(c: char) { IsIdent(c) || IsDigit(c) }

  /** A byte that can appear inside an identifier, where '$' is allowed too. */
  predicate IsIdentByte(c: char) { c == '$' || IsWordByte(c) }

  function LowerByte(c: char): char {
    if 'A' <= c <= 'Z' then (c as int + 32) as char else c
  }

  function UpperByte(c: char): char {
    if 'a' <= c <= 'z' then (c as int - 32) as char else c
  }

  function Lower(s: string): (r: string)
    ensures |r| == |s|
  {
    seq(|s|, i requires 0 <= i < |s| => LowerByte(s[i]))
  }

  function Upper(s: string): (r: string)
    ensures |r| == |s|
  {
    seq(|s|, i requires 0 <= i < |s| => UpperByte(s[i]))
  }

  /** An identifier byte, then identifier bytes and digits. */
  predicate IsWord(s: string) {
    s != "" && IsIdent(s[0]) && forall i :: 0 <= i < |s| ==> IsWordByte(s[i])
  }

  predicate IsBareIdent(s: string) {
    IsWord(s) && s !in KEYWORDS
  }

  // ---- scans: how many bytes each kind of lexeme takes ----

  function WordLen(s: string): (k: nat)
    ensures k <= |s|
  {
    if s == "" || !IsWordByte(s[0]) then 0 else 1 + WordLen(s[1..])
  }

  function NumberLen(s: string): (k: nat)
    ensures k <= |s|
  {
    if s == "" || !(IsDigit(s[0]) || s[0] == '.') then 0 else 1 + NumberLen(s[1..])
  }

  function LineLen(s: string): (k: nat)
    ensures k <= |s|
  {
    if s == "" || s[0] == '\n' then 0 else 1 + LineLen(s[1..])
  }

  /** Block comments nest; an unterminated one takes the rest of the input. */
  function BlockLen(s: string, depth: nat): (k: nat)
    ensures k <= |s|
  {
    if s == "" || depth == 0 then 0
    else if "/*" <= s then 2 + BlockLen(s[2..], depth + 1)
    else if "*/" <= s then 2 + BlockLen(s[2..], depth - 1)
    else 1 + BlockLen(s[1..], depth)
  }

  /** After an opening quote: up to the first quote that is neither doubled nor escaped. */
  function LiteralLen(s: string): (k: nat)
    ensures k <= |s|
  {
    if s == "" then 0
    else if s[0] == '\\' then if |s| == 1 then 1 else 2 + LiteralLen(s[2..])
    else if s[0] == '\'' then if "''" <= s then 2 + LiteralLen(s[2..]) else 1
    else 1 + LiteralLen(s[1..])
  }

  /** After an opening delimiter: the identifier with doubled delimiters undone, and what it took. */
  function QuotedIdent(s: string, q: char): (r: (string, nat))
    ensures r.1 <= |s|
  {
    if s == "" then ("", 0)
    else if s[0] == q then
      if [q, q] <= s then
        var rest := QuotedIdent(s[2..], q);
        ([q] + rest.0, 2 + rest.1)
      else ("", 1)
    else
      var rest := QuotedIdent(s[1..], q);
      ([s[0]] + rest.0, 1 + rest.1)
  }

  /** Length of a dollar-quote delimiter whose tag has been read up to `j`, or 0. */
  function DelimLen(s: string, j: nat): (k: nat)
    ensures k > 0 ==> j < k <= |s|
    decreases |s| - j
  {
    if j >= |s| then 0
    else if s[j] == '$' then j + 1
    else if IsIdent(s[j]) || (IsDigit(s[j]) && j != 1) then DelimLen(s, j + 1)
    else 0
  }

  // ---- identifiers ----

  function Doubled(s: string): string {
    if s == "" then "" else (if s[0] == '"' then "\"\"" else [s[0]]) + Doubled(s[1..])
  }

  function Quote(s: string): string {
    "\"" + Doubled(s) + "\""
  }

  function EmitIdent(raw: string): string {
    if IsBareIdent(Lower(raw)) then Lower(raw) else Quote(Lower(raw))
  }

  function EmitWord(word: string): string {
    if Lower(word) in KEYWORDS then Upper(word) else Lower(word)
  }

  // ---- the token stream ----

  /** What a '$' opens: a closed dollar quote, an unterminated one at a token boundary, or a placeholder run. */
  function DollarLen(prev: char, s: string): (k: nat)
    requires s != ""
    ensures 0 < k <= |s|
  {
    var d := DelimLen(s, 1);
    if d > 0 && Find(s[d..], s[..d]) < |s[d..]| then
      FindFits(s[d..], s[..d]);
      d + Find(s[d..], s[..d]) + d
    else if d > 0 && !IsIdentByte(prev) then |s|
    else 1 + WordLen(s[1..])
  }

  /** The lexeme at the head of `s`, after the byte `prev`: the token it yields, if any, and its length. */
  function Next(prev: char, s: string): (r: (seq<string>, nat))
    requires s != ""
    ensures 0 < r.1 <= |s| && |r.0| <= 1
  {
    var c := s[0];
    if IsSpace(c) then ([], 1)
    else if "--" <= s then ([], 2 + LineLen(s[2..]))
    else if "/*" <= s then ([], 2 + BlockLen(s[2..], 1))
    else if c == '\'' then (["?"], 1 + LiteralLen(s[1..]))
    else if c == '"' || c == '`' then
      var q := QuotedIdent(s[1..], c);
      ([EmitIdent(q.0)], 1 + q.1)
    else if c == '$' then (["?"], DollarLen(prev, s))
    else if c == ':' || c == '@' then (["?"], 1 + WordLen(s[1..]))
    else if c == '?' then (["?"], 1)
    else if IsDigit(c) || (c == '.' && |s| > 1 && IsDigit(s[1])) then (["?"], NumberLen(s))
    else if IsIdent(c) then ([EmitWord(s[..WordLen(s)])], WordLen(s))
    else ([[c]], 1)
  }

  function Tokens(prev: char, s: string): seq<string>
    decreases |s|
  {
    if s == "" then []
    else
      var lexeme := Next(prev, s);
      lexeme.0 + Tokens(s[lexeme.1 - 1], s[lexeme.1..])
  }

  /** The tokens of a whole statement; nothing precedes it. */
  function Tokenized(raw: string): seq<string> {
    Tokens(' ', raw)
  }

  function Join(ts: seq<string>): string {
    if ts == [] then "" else if |ts| == 1 then ts[0] else ts[0] + " " + Join(ts[1..])
  }

  // ---- what a token can be ----

  predicate IsKeywordToken(t: string) {
    IsWord(t) && Lower(t) in KEYWORDS && Upper(t) == t
  }

  predicate IsBareToken(t: string) {
    IsBareIdent(t) && Lower(t) == t
  }

  ghost predicate IsQuotedToken(t: string) {
    exists low :: Lower(low) == low && !IsBareIdent(low) && t == Quote(low)
  }

  predicate IsOtherByte(c: char) {
    && !IsSpace(c) && !IsWordByte(c)
    && c != '\'' && c != '"' && c != '`' && c != '$' && c != ':' && c != '@' && c != '?'
  }

  /** Placeholders, keywords, plain names, re-quoted names and single punctuation bytes: nothing else. */
  ghost predicate IsToken(t: string) {
    t == "?" || IsKeywordToken(t) || IsBareToken(t) || IsQuotedToken(t) || (|t| == 1 && IsOtherByte(t[0]))
  }

  lemma LowerIdempotent(s: string)
    ensures Lower(Lower(s)) == Lower(s) && Lower(Upper(s)) == Lower(s) && Upper(Upper(s)) == Upper(s)
  {
  }

  lemma CaseKeepsWords(s: string)
    ensures IsWord(s) ==> IsWord(Lower(s)) && IsWord(Upper(s))
  {
  }

  lemma {:induction false} WordLenWord(s: string)
    requires s != "" && IsIdent(s[0])
    ensures WordLen(s) > 0 && IsWord(s[..WordLen(s)])
  {
    WordLenBytes(s);
  }

  lemma {:induction false} WordLenBytes(s: string)
    ensures forall i :: 0 <= i < WordLen(s) ==> IsWordByte(s[i])
    ensures WordLen(s) < |s| ==> !IsWordByte(s[WordLen(s)])
  {
    if s != "" && IsWordByte(s[0]) {
      WordLenBytes(s[1..]);
    }
  }

  lemma EmitIdentIsToken(raw: string)
    ensures IsToken(EmitIdent(raw))
  {
    LowerIdempotent(raw);
    if !IsBareIdent(Lower(raw)) {
      assert IsQuotedToken(Quote(Lower(raw)));
    }
  }

  lemma EmitWordIsToken(word: string)
    requires IsWord(word)
    ensures IsToken(EmitWord(word))
  {
    LowerIdempotent(word);
    CaseKeepsWords(word);
  }

  lemma NextIsToken(prev: char, s: string)
    requires s != ""
    ensures forall t :: t in Next(prev, s).0 ==> IsToken(t)
  {
    hide EmitIdent, EmitWord, IsQuotedToken, IsKeywordToken, IsBareToken;
    if s[0] == '"' || s[0] == '`' {
      EmitIdentIsToken(QuotedIdent(s[1..], s[0]).0);
    } else if IsIdent(s[0]) {
      WordLenWord(s);
      EmitWordIsToken(s[..WordLen(s)]);
    }
  }

  /** Every output token is of one of those kinds. */
  lemma {:induction false} TokensAreTokens(prev: char, s: string)
    ensures forall t :: t in Tokens(prev, s) ==> IsToken(t)
    decreases |s|
  {
    hide Next, IsToken;
    if s != "" {
      NextIsToken(prev, s);
      var lexeme := Next(prev, s);
      TokensAreTokens(s[lexeme.1 - 1], s[lexeme.1..]);
    }
  }

  // ---- reading a token back ----

  /** Nothing follows, or a space does. */
  predicate Bounded(rest: string) {
    rest == "" || rest[0] == ' '
  }

  lemma {:induction false} WordLenExact(w: string, rest: string)
    requires forall i :: 0 <= i < |w| ==> IsWordByte(w[i])
    requires rest != "" ==> !IsWordByte(rest[0])
    ensures WordLen(w + rest) == |w|
  {
    if w == "" {
      assert w + rest == rest;
    } else {
      assert (w + rest)[1..] == w[1..] + rest;
      WordLenExact(w[1..], rest);
    }
  }

  lemma DoubledStep(low: string, after: string)
    requires low != ""
    ensures low[0] == '"' ==> Doubled(low) + after == "\"\"" + (Doubled(low[1..]) + after)
    ensures low[0] != '"' ==> Doubled(low) + after == [low[0]] + (Doubled(low[1..]) + after)
    ensures |Doubled(low)| == (if low[0] == '"' then 2 else 1) + |Doubled(low[1..])|
  {
    Associative(if low[0] == '"' then "\"\"" else [low[0]], Doubled(low[1..]), after);
  }

  lemma QuotedPair(tail: string)
    ensures QuotedIdent("\"\"" + tail, '"') == (['"'] + QuotedIdent(tail, '"').0, 2 + QuotedIdent(tail, '"').1)
  {
    var s := "\"\"" + tail;
    assert s[0] == '"' && ['"', '"'] <= s && s[2..] == tail;
  }

  lemma QuotedByte(c: char, tail: string)
    requires c != '"'
    ensures QuotedIdent([c] + tail, '"') == ([c] + QuotedIdent(tail, '"').0, 1 + QuotedIdent(tail, '"').1)
  {
    var s := [c] + tail;
    assert s[0] == c && s[1..] == tail;
  }

  lemma QuotedEnd(rest: string)
    requires rest != "" ==> rest[0] != '"'
    ensures QuotedIdent("\"" + rest, '"') == ("", 1)
  {
    var s := "\"" + rest;
    assert |s| > 1 ==> s[1] == rest[0];
    assert s[0] == '"' && !(['"', '"'] <= s);
  }

  lemma {:induction false} QuotedExact(low: string, rest: string)
    requires rest != "" ==> rest[0] != '"'
    ensures QuotedIdent(Doubled(low) + ("\"" + rest), '"') == (low, |Doubled(low)| + 1)
  {
    hide QuotedIdent, Doubled;
    var after := "\"" + rest;
    if low == "" {
      NothingDoubled();
      QuotedEnd(rest);
      assert "" + after == after;
    } else {
      DoubledStep(low, after);
      QuotedExact(low[1..], rest);
      if low[0] == '"' {
        QuotedPair(Doubled(low[1..]) + after);
      } else {
        QuotedByte(low[0], Doubled(low[1..]) + after);
      }
      assert [low[0]] + low[1..] == low;
    }
  }

  lemma NothingDoubled()
    ensures Doubled("") == ""
  {
  }

  lemma ReadWord(prev: char, t: string, rest: string)
    requires IsWord(t) && Bounded(rest)
    ensures Next(prev, t + rest) == ([EmitWord(t)], |t|)
  {
    hide EmitWord;
    WordLenExact(t, rest);
    var s := t + rest;
    assert s[0] == t[0] && s[..|t|] == t;
  }

  lemma ReadQuoted(prev: char, low: string, rest: string)
    requires Lower(low) == low && !IsBareIdent(low) && Bounded(rest)
    ensures Next(prev, Quote(low) + rest) == ([Quote(low)], |Quote(low)|)
  {
    hide IsBareIdent, Lower, QuotedIdent, Doubled;
    var s := Quote(low) + rest;
    QuotedExact(low, rest);
    assert s[1..] == Doubled(low) + ("\"" + rest);
    assert s[0] == '"';
    assert EmitIdent(low) == Quote(low);
  }

  lemma ReadByte(prev: char, c: char, rest: string)
    requires IsOtherByte(c) && Bounded(rest)
    ensures Next(prev, [c] + rest) == ([[c]], 1)
  {
    var s := [c] + rest;
    assert s[0] == c && (|s| > 1 ==> s[1] == ' ');
    assert !("--" <= s) && !("/*" <= s);
  }

  /** A token at the head of the text, up to a space, is read as itself. */
  lemma ReadToken(prev: char, t: string, rest: string)
    requires IsToken(t) && Bounded(rest)
    ensures t != "" && Next(prev, t + rest) == ([t], |t|)
  {
    hide Next;
    if t == "?" {
      ReadPlaceholder(prev, rest);
    } else if IsWord(t) {
      assert IsKeywordToken(t) || IsBareToken(t) by { QuotedIsNoWord(t); }
      ReadWord(prev, t, rest);
    } else if |t| == 1 && IsOtherByte(t[0]) {
      ReadByte(prev, t[0], rest);
      assert [t[0]] == t;
    } else {
      var low :| Lower(low) == low && !IsBareIdent(low) && t == Quote(low);
      ReadQuoted(prev, low, rest);
    }
  }

  lemma ReadPlaceholder(prev: char, rest: string)
    ensures Next(prev, "?" + rest) == (["?"], 1)
  {
    assert ("?" + rest)[0] == '?';
  }

  lemma QuotedIsNoWord(t: string)
    ensures IsQuotedToken(t) ==> !IsWord(t)
  {
  }

  lemma ReadSpace(prev: char, rest: string)
    ensures Tokens(prev, " " + rest) == Tokens(' ', rest)
  {
    var s := " " + rest;
    assert s[0] == ' ' && s[1..] == rest;
  }

  lemma SameAfterBound(p: char, q: char, rest: string)
    requires Bounded(rest)
    ensures Tokens(p, rest) == Tokens(q, rest)
  {
    if rest != "" {
      assert rest == " " + rest[1..];
      ReadSpace(p, rest[1..]);
      ReadSpace(q, rest[1..]);
    }
  }

  lemma ReadOne(prev: char, t: string, rest: string)
    requires IsToken(t) && Bounded(rest)
    ensures Tokens(prev, t + rest) == [t] + Tokens(' ', rest)
  {
    hide IsToken, Next;
    ReadToken(prev, t, rest);
    var s := t + rest;
    assert s[|t|..] == rest;
    SameAfterBound(s[|t| - 1], ' ', rest);
  }

  /** Tokens written with single spaces between them are read back unchanged. */
  lemma {:induction false} JoinReadsBack(prev: char, ts: seq<string>, rest: string)
    requires forall t :: t in ts ==> IsToken(t)
    requires Bounded(rest)
    ensures Tokens(prev, Join(ts) + rest) == ts + Tokens(' ', rest)
    decreases ts
  {
    hide IsToken, Tokens;
    if ts == [] {
      assert "" + rest == rest;
      SameAfterBound(prev, ' ', rest);
    } else if |ts| == 1 {
      ReadOne(prev, ts[0], rest);
      assert ts == [ts[0]];
    } else {
      var after := Join(ts[1..]) + rest;
      assert Join(ts) + rest == ts[0] + (" " + after);
      ReadOne(prev, ts[0], " " + after);
      ReadSpace(' ', after);
      JoinReadsBack(' ', ts[1..], rest);
      assert ts == [ts[0]] + ts[1..];
      assert [ts[0]] + (ts[1..] + Tokens(' ', rest)) == ts + Tokens(' ', rest);
    }
  }

  /** The fixed point: tokenizing the joined tokens of any input gives the same tokens. */
  lemma TokenizerFixedPoint(raw: string)
    ensures Tokenized(Join(Tokenized(raw))) == Tokenized(raw)
  {
    var ts := Tokenized(raw);
    TokensAreTokens(' ', raw);
    JoinReadsBack(' ', ts, "");
    assert Join(ts) + "" == Join(ts);
  }

  // ---- no literal leaks ----

  /** The text of a literal between its quotes: bytes, any byte behind a backslash, and doubled quotes. */
  predicate InsideLiteral(s: string) {
    s != "" ==>
      if s[0] == '\\' then |s| > 1 && InsideLiteral(s[2..])
      else if s[0] == '\'' then "''" <= s && InsideLiteral(s[2..])
      else InsideLiteral(s[1..])
  }

  lemma {:induction false} LiteralExact(body: string, rest: string)
    requires InsideLiteral(body) && (rest != "" ==> rest[0] != '\'')
    ensures LiteralLen(body + ("'" + rest)) == |body| + 1
  {
    var s := body + ("'" + rest);
    if body == "" {
      assert s == "'" + rest;
      assert s[0] == '\'' && !("''" <= s);
    } else {
      var n := if body[0] == '\\' || body[0] == '\'' then 2 else 1;
      assert s[0] == body[0] && (|body| > 1 ==> s[1] == body[1]);
      assert body[0] == '\'' ==> body[1] == '\'' && "''" <= s;
      assert s[n..] == body[n..] + ("'" + rest);
      LiteralExact(body[n..], rest);
    }
  }

  /** Whatever a quoted literal holds and whatever stands around it, one placeholder is all that is left of it. */
  lemma LiteralNeverLeaks(prev: char, body: string, rest: string)
    requires InsideLiteral(body) && (rest != "" ==> rest[0] != '\'')
    ensures Tokens(prev, "'" + (body + ("'" + rest))) == ["?"] + Tokens('\'', rest)
  {
    hide InsideLiteral, LiteralLen, Tokens;
    var s := "'" + (body + ("'" + rest));
    LiteralExact(body, rest);
    assert s[0] == '\'' && s[1..] == body + ("'" + rest);
    assert Next(prev, s) == (["?"], |body| + 2);
    assert s[|body| + 2..] == rest && s[|body| + 1] == '\'' by { assert s[1..][|body|] == '\''; }
    TokensStep(prev, s);
  }

  lemma EndOfText(prev: char)
    ensures Tokens(prev, "") == []
  {
  }

  /** A dollar quote that is closed is one placeholder, even glued to an identifier. */
  lemma DollarQuoteNeverLeaks(prev: char, delim: string, body: string, rest: string)
    requires delim != "" && delim[0] == '$' && DelimLen(delim, 1) == |delim|
    requires Find(body + delim + rest, delim) == |body|
    ensures Tokens(prev, delim + (body + delim + rest)) == ["?"] + Tokens('$', rest)
  {
    hide Tokens, Find, DelimLen;
    var s, k := delim + (body + delim + rest), |delim| + |body| + |delim|;
    DollarNext(prev, delim, body, rest);
    TokensStep(prev, s);
    DelimEnds(delim, 1);
    DollarText(delim, body, rest);
  }

  lemma DollarText(delim: string, body: string, rest: string)
    requires delim != ""
    ensures var s, k := delim + (body + delim + rest), |delim| + |body| + |delim|;
            0 < k <= |s| && s[k..] == rest && s[k - 1] == delim[|delim| - 1]
  {
    assert delim + (body + delim + rest) == (delim + body + delim) + rest;
  }

  lemma DollarNext(prev: char, delim: string, body: string, rest: string)
    requires delim != "" && delim[0] == '$' && DelimLen(delim, 1) == |delim|
    requires Find(body + delim + rest, delim) == |body|
    ensures Next(prev, delim + (body + delim + rest)) == (["?"], |delim| + |body| + |delim|)
  {
    hide Find, DelimLen;
    var s := delim + (body + delim + rest);
    DelimPrefix(delim, body + delim + rest, 1);
    assert s[|delim|..] == body + delim + rest && s[..|delim|] == delim;
    assert s[0] == '$';
  }

  lemma {:induction false} DelimPrefix(delim: string, more: string, j: nat)
    requires DelimLen(delim, j) > 0
    ensures DelimLen(delim + more, j) == DelimLen(delim, j)
    decreases |delim| - j
  {
    if delim[j] != '$' { DelimPrefix(delim, more, j + 1); }
  }

  lemma {:induction false} DelimEnds(delim: string, j: nat)
    requires DelimLen(delim, j) > 0
    ensures delim[DelimLen(delim, j) - 1] == '$'
    decreases |delim| - j
  {
    if delim[j] != '$' { DelimEnds(delim, j + 1); }
  }

  // ---- the tokenizer itself ----

  /** What is left to read at position `i`; a scan may step one past the end. */
  function From(raw: string, i: nat): string {
    if i <= |raw| then raw[i..] else ""
  }

  method SkipWord(raw: string, start: nat) returns (i: nat)
    requires start <= |raw|
    ensures i == start + WordLen(raw[start..])
  {
    i := start;
    while i < |raw| && (IsIdent(raw[i]) || IsDigit(raw[i]))
      invariant start <= i <= |raw|
      invariant start + WordLen(raw[start..]) == i + WordLen(raw[i..])
    {
      i := i + 1;
    }
  }

  method SkipNumber(raw: string, start: nat) returns (i: nat)
    requires start <= |raw|
    ensures i == start + NumberLen(raw[start..])
  {
    i := start;
    while i < |raw| && (IsDigit(raw[i]) || raw[i] == '.')
      invariant start <= i <= |raw|
      invariant start + NumberLen(raw[start..]) == i + NumberLen(raw[i..])
    {
      i := i + 1;
    }
  }

  method SkipLine(raw: string, start: nat) returns (i: nat)
    requires start <= |raw|
    ensures i == start + LineLen(raw[start..])
  {
    i := start;
    while i < |raw| && raw[i] != '\n'
      invariant start <= i <= |raw|
      invariant start + LineLen(raw[start..]) == i + LineLen(raw[i..])
    {
      i := i + 1;
    }
  }

  /** `s` starts with the two given bytes at position `i` of `raw`. */
  predicate PairAt(raw: string, i: nat, a: char, b: char) {
    i + 1 < |raw| && raw[i] == a && raw[i + 1] == b
  }

  lemma PairHeads(raw: string, i: nat, a: char, b: char)
    requires i <= |raw|
    ensures PairAt(raw, i, a, b) <==> [a, b] <= raw[i..]
  {
    var s := raw[i..];
    if [a, b] <= s {
      assert s[0] == a && s[1] == b;
    }
  }

  lemma BlockStep(raw: string, i: nat, depth: nat)
    requires i < |raw| && depth > 0
    ensures i + BlockLen(raw[i..], depth) ==
            if PairAt(raw, i, '/', '*') then i + 2 + BlockLen(raw[i + 2..], depth + 1)
            else if PairAt(raw, i, '*', '/') then i + 2 + BlockLen(raw[i + 2..], depth - 1)
            else i + 1 + BlockLen(raw[i + 1..], depth)
  {
    PairHeads(raw, i, '/', '*');
    PairHeads(raw, i, '*', '/');
    assert i + 2 <= |raw| ==> raw[i..][2..] == raw[i + 2..];
    assert raw[i..][1..] == raw[i + 1..];
  }

  method SkipBlock(raw: string, start: nat) returns (i: nat)
    requires start <= |raw|
    ensures i == start + BlockLen(raw[start..], 1)
  {
    hide BlockLen;
    i := start;
    var depth := 1;
    while i < |raw| && depth > 0
      invariant start <= i <= |raw|
      invariant start + BlockLen(raw[start..], 1) == i + BlockLen(raw[i..], depth)
    {
      BlockStep(raw, i, depth);
      if raw[i] == '/' && i + 1 < |raw| && raw[i + 1] == '*' {
        depth := depth + 1;
        i := i + 2;
        continue;
      }
      if raw[i] == '*' && i + 1 < |raw| && raw[i + 1] == '/' {
        depth := depth - 1;
        i := i + 2;
        continue;
      }
      i := i + 1;
    }
    BlockOver(raw[i..], depth);
  }

  lemma BlockOver(s: string, depth: nat)
    requires s == "" || depth == 0
    ensures BlockLen(s, depth) == 0
  {
  }

  lemma LiteralStep(raw: string, i: nat)
    requires i < |raw|
    ensures i + LiteralLen(raw[i..]) ==
            if raw[i] == '\\' then if i + 2 <= |raw| then i + 2 + LiteralLen(raw[i + 2..]) else |raw|
            else if PairAt(raw, i, '\'', '\'') then i + 2 + LiteralLen(raw[i + 2..])
            else if raw[i] == '\'' then i + 1
            else i + 1 + LiteralLen(raw[i + 1..])
  {
    PairHeads(raw, i, '\'', '\'');
    assert i + 2 <= |raw| ==> raw[i..][2..] == raw[i + 2..];
    assert raw[i..][1..] == raw[i + 1..];
  }

  method SkipLiteral(raw: string, start: nat) returns (i: nat)
    requires start <= |raw|
    ensures start <= i <= |raw| + 1
    ensures From(raw, i) == raw[start + LiteralLen(raw[start..])..]
    ensures i <= |raw| ==> i == start + LiteralLen(raw[start..])
  {
    hide LiteralLen;
    i := start;
    while i < |raw|
      invariant start <= i <= |raw| + 1
      invariant start + LiteralLen(raw[start..]) == if i <= |raw| then i + LiteralLen(raw[i..]) else |raw|
    {
      LiteralStep(raw, i);
      if raw[i] == '\\' {
        i := i + 2;
        continue;
      }
      if raw[i] == '\'' {
        if i + 1 < |raw| && raw[i + 1] == '\'' {
          i := i + 2;
          continue;
        }
        i := i + 1;
        return;
      }
      i := i + 1;
    }
  }

  /** Reading on from `i`, with `ident` already collected since `start`. */
  ghost predicate Collected(raw: string, start: nat, i: nat, ident: string, q: char)
    requires start <= i <= |raw|
  {
    && QuotedIdent(raw[start..], q).0 == ident + QuotedIdent(raw[i..], q).0
    && QuotedIdent(raw[start..], q).1 == i - start + QuotedIdent(raw[i..], q).1
  }

  lemma CollectStep(raw: string, start: nat, i: nat, ident: string, q: char)
    requires start <= i < |raw| && Collected(raw, start, i, ident, q)
    ensures raw[i] != q ==> Collected(raw, start, i + 1, ident + [raw[i]], q)
    ensures PairAt(raw, i, q, q) ==> Collected(raw, start, i + 2, ident + [q], q)
    ensures raw[i] == q && !PairAt(raw, i, q, q) ==> QuotedIdent(raw[start..], q) == (ident, i + 1 - start)
  {
    PairHeads(raw, i, q, q);
    var s := raw[i..];
    assert s[1..] == raw[i + 1..];
    if raw[i] != q {
      assert ident + ([raw[i]] + QuotedIdent(s[1..], q).0) == (ident + [raw[i]]) + QuotedIdent(s[1..], q).0;
    } else if PairAt(raw, i, q, q) {
      assert s[2..] == raw[i + 2..];
      assert ident + ([q] + QuotedIdent(s[2..], q).0) == (ident + [q]) + QuotedIdent(s[2..], q).0;
    } else {
      assert ident + "" == ident;
    }
  }

  method ReadIdent(raw: string, start: nat, q: char) returns (ident: string, i: nat)
    requires start <= |raw|
    ensures i >= start && (ident, i - start) == QuotedIdent(raw[start..], q)
  {
    hide QuotedIdent;
    ident, i := "", start;
    while i < |raw|
      invariant start <= i <= |raw|
      invariant Collected(raw, start, i, ident, q)
    {
      CollectStep(raw, start, i, ident, q);
      if raw[i] == q {
        if i + 1 < |raw| && raw[i + 1] == q {
          ident := ident + [q];
          i := i + 2;
          continue;
        }
        i := i + 1;
        return;
      }
      ident := ident + [raw[i]];
      i := i + 1;
    }
    NoMoreIdent(raw[i..], ident, q);
  }

  lemma NoMoreIdent(s: string, ident: string, q: char)
    requires s == ""
    ensures ident + QuotedIdent(s, q).0 == ident && QuotedIdent(s, q).1 == 0
  {
  }

  /** `dollarQuoteDelim` at a position that holds a '$'. */
  method DollarQuoteDelim(raw: string, i: nat) returns (d: nat)
    requires i < |raw| && raw[i] == '$'
    ensures d == DelimLen(raw[i..], 1)
  {
    var j := i + 1;
    ghost var s := raw[i..];
    while j < |raw|
      invariant i < j <= |raw|
      invariant DelimLen(s, 1) == DelimLen(s, j - i)
    {
      var c := raw[j];
      assert s[j - i] == c;
      if c == '$' {
        return j - i + 1;
      } else if IsIdent(c) {
      } else if IsDigit(c) {
        if j == i + 1 {
          return 0;
        }
      } else {
        return 0;
      }
      j := j + 1;
    }
    return 0;
  }

  /** The '$' case: how far it reaches. */
  method SkipDollar(raw: string, start: nat) returns (i: nat)
    requires start < |raw| && raw[start] == '$'
    ensures i == start + DollarLen(if start == 0 then ' ' else raw[start - 1], raw[start..])
  {
    ghost var s := raw[start..];
    var d := DollarQuoteDelim(raw, start);
    if d > 0 {
      var k := IndexFrom(raw, start + d, raw[start..start + d]);
      assert s[d..] == raw[start + d..] && s[..d] == raw[start..start + d];
      if k < |raw| - start - d {
        return start + d + k + d;
      }
      if start == 0 || !IsIdentByte(raw[start - 1]) {
        return |raw|;
      }
    }
    i := SkipWord(raw, start + 1);
    assert s[1..] == raw[start + 1..];
  }

  /** The byte before position `i`; nothing precedes the statement. */
  function Before(raw: string, i: nat): char {
    if 0 < i <= |raw| then raw[i - 1] else ' '
  }

  /** Reading on from `i`, with `toks` already emitted. */
  ghost predicate Emitted(raw: string, i: nat, toks: seq<string>) {
    toks + Tokens(Before(raw, i), From(raw, i)) == Tokenized(raw)
  }

  /** The token stream, one lexeme on. */
  lemma TokensStep(prev: char, s: string)
    requires s != ""
    ensures Tokens(prev, s) == Next(prev, s).0 + Tokens(s[Next(prev, s).1 - 1], s[Next(prev, s).1..])
  {
    hide Next;
  }

  /** Where the next lexeme starts, the text before and the text behind are what they were in the whole. */
  lemma Advance(raw: string, i: nat, k: nat, j: nat)
    requires i < |raw| && 0 < k <= |raw| - i
    requires From(raw, j) == raw[i + k..] && (j <= |raw| ==> j == i + k)
    ensures raw[i..][k..] == From(raw, j)
    ensures Tokens(raw[i..][k - 1], raw[i..][k..]) == Tokens(Before(raw, j), From(raw, j))
  {
    hide Tokens;
    assert raw[i..][k..] == raw[i + k..];
    assert raw[i..][k - 1] == raw[i + k - 1];
    if j > |raw| {
      EndOfText(Before(raw, j));
      EndOfText(raw[i..][k - 1]);
    }
  }

  /** One lexeme further. */
  lemma EmitStep(raw: string, i: nat, toks: seq<string>, j: nat)
    requires i < |raw| && Emitted(raw, i, toks)
    requires From(raw, j) == raw[i + Next(Before(raw, i), raw[i..]).1..]
    requires j <= |raw| ==> j == i + Next(Before(raw, i), raw[i..]).1
    ensures Emitted(raw, j, toks + Next(Before(raw, i), raw[i..]).0)
  {
    hide Next, Tokens, Tokenized;
    var s, prev := raw[i..], Before(raw, i);
    var lexeme := Next(prev, s);
    TokensStep(prev, s);
    Advance(raw, i, lexeme.1, j);
    Associative(toks, lexeme.0, Tokens(Before(raw, j), From(raw, j)));
  }

  /** One turn of the tokenizer's switch. */
  method Lex(raw: string, i: nat) returns (toks: seq<string>, j: nat)
    requires i < |raw|
    ensures toks == Next(Before(raw, i), raw[i..]).0
    ensures From(raw, j) == raw[i + Next(Before(raw, i), raw[i..]).1..]
    ensures j <= |raw| ==> j == i + Next(Before(raw, i), raw[i..]).1
    ensures j > i
  {
    hide EmitIdent, EmitWord, BlockLen, LineLen, LiteralLen, WordLen, NumberLen, QuotedIdent, DollarLen;
    var c := raw[i];
    ghost var s := raw[i..];
    PairHeads(raw, i, '-', '-');
    PairHeads(raw, i, '/', '*');
    assert s[1..] == raw[i + 1..];
    assert |s| >= 2 ==> s[2..] == raw[i + 2..];
    if c == ' ' || c == '\t' || c == '\n' || c == '\r' {
      return [], i + 1;
    }
    if c == '-' && i + 1 < |raw| && raw[i + 1] == '-' {
      j := SkipLine(raw, i + 2);
      return [], j;
    }
    if c == '/' && i + 1 < |raw| && raw[i + 1] == '*' {
      j := SkipBlock(raw, i + 2);
      return [], j;
    }
    if c == '\'' {
      j := SkipLiteral(raw, i + 1);
      return ["?"], j;
    }
    if c == '"' || c == '`' {
      var ident;
      ident, j := ReadIdent(raw, i + 1, c);
      return [EmitIdent(ident)], j;
    }
    if c == '$' {
      j := SkipDollar(raw, i);
      return ["?"], j;
    }
    if c == ':' || c == '@' {
      j := SkipWord(raw, i + 1);
      return ["?"], j;
    }
    if c == '?' {
      return ["?"], i + 1;
    }
    if IsDigit(c) || (c == '.' && i + 1 < |raw| && IsDigit(raw[i + 1])) {
      j := SkipNumber(raw, i);
      return ["?"], j;
    }
    if IsIdent(c) {
      j := SkipWord(raw, i);
      assert raw[i..j] == s[..j - i];
      return [EmitWord(raw[i..j])], j;
    }
    return [[c]], i + 1;
  }

  /** The tokenizer: one pass over the bytes. */
  method Tokenize(raw: string) returns (toks: seq<string>)
    ensures toks == Tokenized(raw)
  {
    hide Tokens, Next, From;
    toks := [];
    var i := 0;
    assert Emitted(raw, 0, []) by { NothingEmitted(raw); }
    while i < |raw|
      invariant Emitted(raw, i, toks)
      decreases |raw| - i
    {
      var more, j := Lex(raw, i);
      EmitStep(raw, i, toks, j);
      toks := toks + more;
      i := j;
    }
    AllEmitted(raw, i, toks);
  }

  lemma NothingEmitted(raw: string)
    ensures Emitted(raw, 0, [])
  {
    assert raw[0..] == raw;
    assert [] + Tokenized(raw) == Tokenized(raw);
  }

  lemma AllEmitted(raw: string, i: nat, toks: seq<string>)
    requires i >= |raw| && Emitted(raw, i, toks)
    ensures toks == Tokenized(raw)
  {
    EndOfText(Before(raw, i));
    assert From(raw, i) == "";
    assert toks + [] == toks;
  }
}
