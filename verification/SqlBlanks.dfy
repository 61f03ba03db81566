/**
 * Blanks in the assembled statement: runs are squeezed to one space and the ends are trimmed, on the text,
 * so quoted names are squeezed along with the gaps between tokens.
 */
module SqlBlanks {
  import opened Text
  import opened SqlTokens

  const FORM_FEED := '\U{000C}'
  const VERTICAL_TAB := '\U{000B}'

  /** What `\s` matches in the patterns: a form feed is one, a vertical tab, which `TrimSpace` takes off the ends, is not. */
  predicate IsBlank(c: char) { IsSpace(c) || c == FORM_FEED }

  /** Every maximal run of blanks becomes one space. */
  function Squeeze(s: string): (r: string)
    ensures |r| <= |s|
  {
    if s == "" then ""
    else if IsBlank(s[0]) then (if |s| > 1 && IsBlank(s[1]) then "" else " ") + Squeeze(s[1..])
    else [s[0]] + Squeeze(s[1..])
  }

  /** No blank at either end: squeezing stops there. */
  predicate Edged(s: string) {
    s != "" && !IsBlank(s[0]) && !IsBlank(s[|s| - 1])
  }

  /** How one byte is squeezed, given what follows. */
  function Squeezed(c: char, next: string): string {
    if !IsBlank(c) then [c] else if next != "" && IsBlank(next[0]) then "" else " "
  }

  lemma SqueezeStep(c: char, next: string)
    ensures Squeeze([c] + next) == Squeezed(c, next) + Squeeze(next)
  {
    var s := [c] + next;
    assert s[0] == c && s[1..] == next && (|s| > 1 ==> s[1] == next[0]);
  }

  lemma {:induction false} SqueezeSplit(a: string, b: string)
    requires a == "" || b == "" || !IsBlank(a[|a| - 1]) || !IsBlank(b[0])
    ensures Squeeze(a + b) == Squeeze(a) + Squeeze(b)
  {
    hide Squeeze, IsBlank;
    if a == "" {
      assert a + b == b && Squeeze("") == "" by { NothingSqueezed(); }
    } else if b == "" {
      assert a + b == a && Squeeze("") == "" by { NothingSqueezed(); }
    } else {
      var c, rest := a[0], a[1..];
      SqueezeSplit(rest, b);
      assert a == [c] + rest && a + b == [c] + (rest + b);
      SqueezeStep(c, rest);
      SqueezeStep(c, rest + b);
      assert Squeezed(c, rest) == Squeezed(c, rest + b);
      assert Squeezed(c, rest) + (Squeeze(rest) + Squeeze(b)) == (Squeezed(c, rest) + Squeeze(rest)) + Squeeze(b);
    }
  }

  lemma NothingSqueezed()
    ensures Squeeze("") == ""
  {
  }

  lemma {:induction false} SqueezeChars(s: string)
    ensures forall c :: c in Squeeze(s) ==> c == ' ' || (c in s && !IsBlank(c))
    ensures (exists c :: c in s && IsBlank(c)) ==> ' ' in Squeeze(s)
    ensures (forall c :: c in s ==> !IsBlank(c)) ==> Squeeze(s) == s
  {
    if s != "" {
      SqueezeChars(s[1..]);
      assert s == [s[0]] + s[1..];
    }
  }

  lemma {:induction false} SqueezeHead(s: string)
    ensures s != "" ==> Squeeze(s) != "" && (IsBlank(s[0]) <==> IsBlank(Squeeze(s)[0]))
  {
    if |s| > 1 { SqueezeHead(s[1..]); }
  }

  lemma {:induction false} SqueezeIdempotent(s: string)
    ensures Squeeze(Squeeze(s)) == Squeeze(s)
  {
    if s != "" {
      SqueezeIdempotent(s[1..]);
      SqueezeHead(s[1..]);
      var r := Squeeze(s[1..]);
      if IsBlank(s[0]) && |s| > 1 && IsBlank(s[1]) {
        assert "" + r == r;
      } else {
        assert |s| > 1 ==> s[1..][0] == s[1];
        assert Squeeze(s) == [if IsBlank(s[0]) then ' ' else s[0]] + r;
        assert Squeeze(s)[1..] == r;
      }
    }
  }

  lemma SqueezeGap(a: string, b: string)
    requires Edged(a) && Edged(b)
    ensures Squeeze(a + (" " + b)) == Squeeze(a) + (" " + Squeeze(b))
  {
    SqueezeSplit(a, " " + b);
    SqueezeSplit(" ", b);
  }

  lemma SqueezeEdges(s: string)
    requires Edged(s)
    ensures Edged(Squeeze(s)) && Squeeze(s)[0] == s[0] && Squeeze(s)[|Squeeze(s)| - 1] == s[|s| - 1]
  {
    var n := |s| - 1;
    SqueezeSplit(s[..n], [s[n]]);
    assert s == s[..n] + [s[n]];
    assert Squeeze([s[n]]) == [s[n]];
  }

  // ---- tokens ----

  lemma {:induction false} SqueezeDoubled(low: string)
    ensures Squeeze(Doubled(low)) == Doubled(Squeeze(low))
  {
    if low != "" {
      var d, rest := Doubled(low), Doubled(low[1..]);
      SqueezeDoubled(low[1..]);
      if low[0] == '"' {
        SqueezeSplit("\"\"", rest);
        assert Squeeze("\"\"") == "\"\"";
        assert Squeeze(low)[0] == '"' && Squeeze(low)[1..] == Squeeze(low[1..]);
      } else if IsBlank(low[0]) {
        assert d[0] == low[0] && d[1..] == rest;
        DoubledHead(low[1..]);
        if |low| > 1 && IsBlank(low[1]) {
          assert "" + Squeeze(rest) == Squeeze(rest) && "" + Squeeze(low[1..]) == Squeeze(low[1..]);
        } else {
          assert Squeeze(low)[0] == ' ' && Squeeze(low)[1..] == Squeeze(low[1..]);
          assert Squeeze(d) == " " + Squeeze(rest);
        }
      } else {
        assert d[0] == low[0] && d[1..] == rest;
        assert Squeeze(low)[0] == low[0] && Squeeze(low)[1..] == Squeeze(low[1..]);
      }
    }
  }

  lemma DoubledHead(s: string)
    ensures |Doubled(s)| > 0 <==> |s| > 0
    ensures s != "" ==> Doubled(s)[0] == s[0]
  {
  }

  lemma SqueezeQuote(low: string)
    ensures Squeeze(Quote(low)) == Quote(Squeeze(low))
  {
    SqueezeDoubled(low);
    SqueezeSplit("\"", Doubled(low) + "\"");
    SqueezeSplit(Doubled(low), "\"");
    assert Quote(low) == "\"" + (Doubled(low) + "\"");
    assert Squeeze("\"") == "\"";
  }

  /** A name keeps needing its quotes. */
  lemma SqueezeLow(low: string)
    requires Lower(low) == low && !IsBareIdent(low)
    ensures Lower(Squeeze(low)) == Squeeze(low) && !IsBareIdent(Squeeze(low))
  {
    SqueezeChars(low);
    var r := Squeeze(low);
    forall i | 0 <= i < |r| ensures LowerByte(r[i]) == r[i] {
      assert r[i] in r;
      if r[i] != ' ' {
        var k :| 0 <= k < |low| && low[k] == r[i];
        assert Lower(low)[k] == low[k];
      }
    }
    if exists c :: c in low && IsBlank(c) {
      var k :| 0 <= k < |r| && r[k] == ' ';
      assert !IsWordByte(r[k]);
    }
  }

  predicate IsFormFeed(t: string) { t == [FORM_FEED] }

  predicate IsVerticalTab(t: string) { t == [VERTICAL_TAB] }

  lemma PlainNoBlank(t: string)
    requires IsToken(t) && !IsFormFeed(t) && !IsQuotedToken(t)
    ensures Edged(t) && Squeeze(t) == t
  {
    assert IsWord(t) ==> forall i :: 0 <= i < |t| ==> IsWordByte(t[i]);
    assert forall c :: c in t ==> !IsBlank(c);
    SqueezeChars(t);
  }

  /** Squeezing takes a token other than a form feed to a token of its kind, and only quoted names change. */
  lemma SqueezeToken(t: string)
    requires IsToken(t) && !IsFormFeed(t)
    ensures Edged(t) && IsToken(Squeeze(t))
    ensures Squeeze(t) == t || (IsQuotedToken(t) && IsQuotedToken(Squeeze(t)))
  {
    if IsQuotedToken(t) {
      var low :| Lower(low) == low && !IsBareIdent(low) && t == Quote(low);
      SqueezeQuote(low);
      SqueezeLow(low);
    } else {
      PlainNoBlank(t);
    }
  }

  // ---- token sequences ----

  ghost predicate AllTokens(ts: seq<string>) {
    forall t :: t in ts ==> IsToken(t)
  }

  ghost predicate SolidTokens(ts: seq<string>) {
    forall t :: t in ts ==> IsToken(t) && !IsFormFeed(t)
  }

  /** Form feeds, which the squeeze swallows like any other gap. */
  function WithoutFormFeeds(ts: seq<string>): seq<string> {
    if ts == [] then [] else (if IsFormFeed(ts[0]) then [] else [ts[0]]) + WithoutFormFeeds(ts[1..])
  }

  function SqueezeEach(ts: seq<string>): (r: seq<string>)
    ensures |r| == |ts| && forall i :: 0 <= i < |ts| ==> r[i] == Squeeze(ts[i])
  {
    seq(|ts|, i requires 0 <= i < |ts| => Squeeze(ts[i]))
  }

  function StripLeft(ts: seq<string>): seq<string> {
    if ts != [] && IsVerticalTab(ts[0]) then StripLeft(ts[1..]) else ts
  }

  function StripRight(ts: seq<string>): seq<string> {
    if ts != [] && IsVerticalTab(ts[|ts| - 1]) then StripRight(ts[..|ts| - 1]) else ts
  }

  /** Vertical tabs at either end, which the trim takes off. */
  function Strip(ts: seq<string>): seq<string> {
    StripRight(StripLeft(ts))
  }

  lemma {:induction false} FormFeedsGone(ts: seq<string>)
    ensures forall t :: t in WithoutFormFeeds(ts) <==> t in ts && !IsFormFeed(t)
    ensures (forall t :: t in ts ==> !IsFormFeed(t)) ==> WithoutFormFeeds(ts) == ts
  {
    if ts != [] { FormFeedsGone(ts[1..]); }
  }

  lemma SqueezeEachTokens(ts: seq<string>)
    requires SolidTokens(ts)
    ensures SolidTokens(SqueezeEach(ts)) && SqueezeEach(SqueezeEach(ts)) == SqueezeEach(ts)
  {
    var r := SqueezeEach(ts);
    forall t | t in r ensures IsToken(t) && !IsFormFeed(t) {
      var i :| 0 <= i < |r| && r[i] == t;
      SqueezeToken(ts[i]);
      SqueezeEdges(ts[i]);
    }
    forall i | 0 <= i < |r| ensures Squeeze(r[i]) == r[i] { SqueezeIdempotent(ts[i]); }
  }

  lemma {:induction false} StripLeftFacts(ts: seq<string>)
    ensures |StripLeft(ts)| <= |ts| && StripLeft(ts) == ts[|ts| - |StripLeft(ts)|..]
    ensures StripLeft(ts) != [] ==> !IsVerticalTab(StripLeft(ts)[0])
    ensures forall t :: t in ts && !IsVerticalTab(t) ==> t in StripLeft(ts)
  {
    if ts != [] && IsVerticalTab(ts[0]) { StripLeftFacts(ts[1..]); }
  }

  lemma {:induction false} StripRightFacts(ts: seq<string>)
    ensures StripRight(ts) <= ts
    ensures StripRight(ts) != [] ==> !IsVerticalTab(StripRight(ts)[|StripRight(ts)| - 1])
    ensures |StripRight(ts)| < |ts| ==> IsVerticalTab(ts[|StripRight(ts)|])
    ensures forall t :: t in ts && !IsVerticalTab(t) ==> t in StripRight(ts)
  {
    if ts != [] && IsVerticalTab(ts[|ts| - 1]) {
      var n := |ts| - 1;
      StripRightFacts(ts[..n]);
      assert ts == ts[..n] + [ts[n]];
    }
  }

  lemma StripStays(ts: seq<string>)
    requires ts != [] ==> !IsVerticalTab(ts[0]) && !IsVerticalTab(ts[|ts| - 1])
    ensures Strip(ts) == ts
  {
    assert StripLeft(ts) == ts;
  }

  /** Nothing is left to strip. */
  lemma StripFacts(ts: seq<string>)
    ensures Strip(Strip(ts)) == Strip(ts)
    ensures forall t :: t in Strip(ts) ==> t in ts
    ensures ts != [] && !IsVerticalTab(ts[0]) ==> Strip(ts) == StripRight(ts) != [] && Strip(ts)[0] == ts[0]
    ensures Strip(ts) != [] ==> !IsVerticalTab(Strip(ts)[0])
  {
    hide IsVerticalTab, StripRight;
    StripLeftFacts(ts);
    var l := StripLeft(ts);
    StripRightFacts(l);
    var r := StripRight(l);
    if l != [] { assert l[0] in l; }
    assert r != [] ==> r[0] == l[0];
    StripStays(r);
    assert ts != [] && !IsVerticalTab(ts[0]) ==> l == ts;
  }
}
