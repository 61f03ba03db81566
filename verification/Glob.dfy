/** Identity globs: '*' stands for any run of characters, separators included. */
module Glob {

  function Stars(p: string): nat {
    if p == "" then 0 else (if p[0] == '*' then 1 else 0) + Stars(p[1..])
  }

  /** The pattern with its stars replaced, left to right. */
  function Expand(p: string, fills: seq<string>): string
    requires |fills| == Stars(p)
  {
    if p == "" then ""
    else if p[0] == '*' then fills[0] + Expand(p[1..], fills[1..])
    else [p[0]] + Expand(p[1..], fills)
  }

  /** What a match means: some choice of runs for the stars spells the string. */
  ghost predicate Matches(p: string, s: string) {
    exists fills: seq<string> :: |fills| == Stars(p) && Expand(p, fills) == s
  }

  /** The same, one character at a time. */
  ghost predicate Fits(p: string, s: string)
    decreases |p| + |s|
  {
    if p == "" then s == ""
    else if p[0] == '*' then Fits(p[1..], s) || (s != "" && Fits(p, s[1..]))
    else s != "" && s[0] == p[0] && Fits(p[1..], s[1..])
  }

  lemma {:induction false} FitsMatches(p: string, s: string) returns (fills: seq<string>)
    requires Fits(p, s)
    ensures |fills| == Stars(p) && Expand(p, fills) == s
    decreases |p| + |s|
  {
    if p == "" {
      fills := [];
    } else if p[0] == '*' {
      if Fits(p[1..], s) {
        var rest := FitsMatches(p[1..], s);
        fills := [""] + rest;
        assert fills[1..] == rest;
      } else {
        var rest := FitsMatches(p, s[1..]);
        fills := [[s[0]] + rest[0]] + rest[1..];
        assert fills[1..] == rest[1..];
        assert [s[0]] + rest[0] + Expand(p[1..], rest[1..]) == [s[0]] + Expand(p, rest);
      }
    } else {
      fills := FitsMatches(p[1..], s[1..]);
    }
  }

  /** A leading star takes in whatever comes before a fit. */
  lemma {:induction false} StarAbsorbs(p: string, x: string, s: string)
    requires p != "" && p[0] == '*' && Fits(p, s)
    ensures Fits(p, x + s)
    decreases |x|
  {
    if x == "" {
      assert x + s == s;
    } else {
      StarAbsorbs(p, x[1..], s);
      assert (x + s)[1..] == x[1..] + s;
    }
  }

  lemma {:induction false} MatchesFits(p: string, fills: seq<string>)
    requires |fills| == Stars(p)
    ensures Fits(p, Expand(p, fills))
    decreases |p|
  {
    if p != "" {
      if p[0] == '*' {
        var rest := Expand(p[1..], fills[1..]);
        MatchesFits(p[1..], fills[1..]);
        assert Fits(p, rest);
        StarAbsorbs(p, fills[0], rest);
      } else {
        MatchesFits(p[1..], fills);
        assert Expand(p, fills)[1..] == Expand(p[1..], fills);
      }
    }
  }

  /** Both readings of a pattern agree. */
  lemma FitsIffMatches(p: string, s: string)
    ensures Fits(p, s) <==> Matches(p, s)
  {
    if Fits(p, s) {
      var fills := FitsMatches(p, s);
    }
    if Matches(p, s) {
      var fills: seq<string> :| |fills| == Stars(p) && Expand(p, fills) == s;
      MatchesFits(p, fills);
    }
  }

  // ---- literal stretches ----

  predicate Literal(x: string) {
    forall i :: 0 <= i < |x| ==> x[i] != '*'
  }

  /** A literal stretch is matched by itself and nothing else. */
  lemma {:induction false} LiteralFits(x: string, p: string, s: string)
    requires Literal(x)
    ensures Fits(x + p, x + s) <==> Fits(p, s)
    decreases |x|
  {
    if x == "" {
      assert x + p == p && x + s == s;
    } else {
      assert (x + p)[1..] == x[1..] + p && (x + s)[1..] == x[1..] + s;
      LiteralFits(x[1..], p, s);
    }
  }

  lemma {:induction false} LiteralPrefix(x: string, p: string, s: string)
    requires Literal(x) && Fits(x + p, s)
    ensures |x| <= |s| && s[..|x|] == x && Fits(p, s[|x|..])
    decreases |x|
  {
    if x == "" {
      assert x + p == p && s[0..] == s;
    } else {
      assert (x + p)[1..] == x[1..] + p;
      LiteralPrefix(x[1..], p, s[1..]);
      assert s == [s[0]] + s[1..] && x == [x[0]] + x[1..];
      assert s[1..][|x| - 1..] == s[|x|..];
    }
  }

  /** A star fits exactly when the rest fits some suffix. */
  lemma {:induction false} StarSuffix(p: string, s: string) returns (k: nat)
    requires p != "" && p[0] == '*' && Fits(p, s)
    ensures k <= |s| && Fits(p[1..], s[k..])
    decreases |s|
  {
    if Fits(p[1..], s) {
      k := 0;
      assert s[0..] == s;
    } else {
      var l := StarSuffix(p, s[1..]);
      k := l + 1;
      assert s[1..][l..] == s[k..];
    }
  }

  /**
   * Only the latest star matters: once a literal stretch behind a star has been found, a further
   * star can make up for finding it any later.
   */
  lemma LatestStar(x: string, q: string, s: string)
    requires Literal(x) && q != "" && q[0] == '*'
    ensures Fits("*" + x + q, x + s) <==> Fits(q, s)
  {
    var p := "*" + x + q;
    assert p[1..] == x + q;
    LiteralFits(x, q, s);
    if Fits(p, x + s) {
      var k := StarSuffix(p, x + s);
      var t := (x + s)[k..];
      LiteralPrefix(x, q, t);
      var head := s[..|s| - |t[|x|..]|];
      assert t[|x|..] == (x + s)[k + |x|..] == s[k..];
      assert s == s[..k] + s[k..];
      StarAbsorbs(q, s[..k], s[k..]);
    }
  }

  /** Where the text ends inside the stretch, the star cannot be moved on. */
  lemma NoRoom(x: string, q: string)
    requires Literal(x)
    ensures Fits("*" + x + q, x) <==> Fits(q, "")
  {
    var p := "*" + x + q;
    assert p[1..] == x + q && x + "" == x;
    LiteralFits(x, q, "");
    if Fits(p, x) {
      var k := StarSuffix(p, x);
      LiteralPrefix(x, q, x[k..]);
      assert x[k..][|x|..] == "";
    }
  }

  /** A mismatch behind the stretch rules out this position of the star. */
  lemma MoveStar(x: string, q: string, s: string)
    requires Literal(x) && x + s != "" && !Fits(q, s)
    ensures Fits("*" + x + q, x + s) <==> Fits("*" + x + q, (x + s)[1..])
  {
    assert ("*" + x + q)[1..] == x + q;
    LiteralFits(x, q, s);
  }

  lemma {:induction false} OnlyStars(p: string)
    ensures Fits(p, "") <==> forall i :: 0 <= i < |p| ==> p[i] == '*'
  {
    if p != "" {
      OnlyStars(p[1..]);
      assert p == [p[0]] + p[1..];
    }
  }

  // ---- the matcher ----

  /** The state of the scan: the question left is the original question. */
  ghost predicate Open(p: string, s: string, px: nat, sx: nat, starPx: int, starSx: nat) {
    && px <= |p| && starSx <= sx <= |s| && -1 <= starPx < px
    && if starPx == -1 then starSx == 0 && (Fits(p, s) <==> Fits(p[px..], s[sx..]))
       else
         && p[starPx] == '*' && starSx + (px - starPx - 1) == sx
         && Literal(p[starPx + 1..px]) && p[starPx + 1..px] == s[starSx..sx]
         && (Fits(p, s) <==> Fits(p[starPx..], s[starSx..]))
  }

  lemma SplitAtStar(p: string, s: string, px: nat, sx: nat, starPx: nat, starSx: nat)
    requires starPx < px <= |p| && starSx <= sx <= |s| && p[starPx] == '*'
    requires p[starPx + 1..px] == s[starSx..sx]
    ensures p[starPx..] == "*" + p[starPx + 1..px] + p[px..]
    ensures s[starSx..] == p[starPx + 1..px] + s[sx..]
  {
  }

  lemma StepStar(p: string, s: string, px: nat, sx: nat, starPx: int, starSx: nat)
    requires Open(p, s, px, sx, starPx, starSx) && sx < |s| && px < |p| && p[px] == '*'
    ensures Open(p, s, px + 1, sx, px, sx)
  {
    hide Fits;
    if starPx != -1 {
      SplitAtStar(p, s, px, sx, starPx, starSx);
      LatestStar(p[starPx + 1..px], p[px..], s[sx..]);
    }
  }

  lemma StepLiteral(p: string, s: string, px: nat, sx: nat, starPx: int, starSx: nat)
    requires Open(p, s, px, sx, starPx, starSx) && sx < |s| && px < |p| && p[px] == s[sx] != '*'
    ensures Open(p, s, px + 1, sx + 1, starPx, starSx)
  {
    if starPx == -1 {
      assert p[px..][1..] == p[px + 1..] && s[sx..][1..] == s[sx + 1..];
    } else {
      hide Fits;
      assert p[starPx + 1..px + 1] == p[starPx + 1..px] + [p[px]];
      assert s[starSx..sx + 1] == s[starSx..sx] + [s[sx]];
    }
  }

  lemma Mismatch(p: string, s: string, px: nat, sx: nat)
    requires px <= |p| && sx < |s| && (px < |p| ==> p[px] != '*' && p[px] != s[sx])
    ensures !Fits(p[px..], s[sx..])
  {
  }

  lemma StepBack(p: string, s: string, px: nat, sx: nat, starPx: nat, starSx: nat)
    requires Open(p, s, px, sx, starPx, starSx) && sx < |s|
    requires px < |p| ==> p[px] != '*' && p[px] != s[sx]
    ensures Open(p, s, starPx + 1, starSx + 1, starPx, starSx + 1)
  {
    hide Fits;
    SplitAtStar(p, s, px, sx, starPx, starSx);
    Mismatch(p, s, px, sx);
    MoveStar(p[starPx + 1..px], p[px..], s[sx..]);
    assert s[starSx..][1..] == s[starSx + 1..];
  }

  lemma AtEnd(p: string, s: string, px: nat, starPx: int, starSx: nat)
    requires Open(p, s, px, |s|, starPx, starSx)
    ensures Fits(p, s) <==> forall i :: px <= i < |p| ==> p[i] == '*'
  {
    hide Fits;
    assert s[|s|..] == "";
    if starPx != -1 {
      SplitAtStar(p, s, px, |s|, starPx, starSx);
      NoRoom(p[starPx + 1..px], p[px..]);
      assert p[starPx + 1..px] + "" == p[starPx + 1..px];
    }
    OnlyStars(p[px..]);
    assert forall i :: px <= i < |p| ==> p[i] == p[px..][i - px];
    assert forall i :: 0 <= i < |p| - px ==> p[px..][i] == p[px + i];
  }

  /** `Match`: backtracking to the latest star alone decides the declarative question. */
  method Match(pattern: string, s: string) returns (ok: bool)
    ensures ok <==> Matches(pattern, s)
  {
    hide Fits, Matches;
    FitsIffMatches(pattern, s);
    var sx, px := 0, 0;
    var starPx: int, starSx := -1, 0;
    while sx < |s|
      invariant Open(pattern, s, px, sx, starPx, starSx)
      decreases |s| - starSx, |pattern| - px
    {
      if px < |pattern| && pattern[px] == '*' {
        StepStar(pattern, s, px, sx, starPx, starSx);
        starPx, starSx := px, sx;
        px := px + 1;
      } else if px < |pattern| && pattern[px] == s[sx] {
        StepLiteral(pattern, s, px, sx, starPx, starSx);
        px := px + 1;
        sx := sx + 1;
      } else if starPx != -1 {
        StepBack(pattern, s, px, sx, starPx, starSx);
        px := starPx + 1;
        starSx := starSx + 1;
        sx := starSx;
      } else {
        Mismatch(pattern, s, px, sx);
        return false;
      }
    }
    AtEnd(pattern, s, px, starPx, starSx);
    while px < |pattern| && pattern[px] == '*'
      invariant px <= |pattern|
      invariant Fits(pattern, s) <==> forall i :: px <= i < |pattern| ==> pattern[i] == '*'
    {
      px := px + 1;
    }
    ok := px == |pattern|;
  }

  // ---- patterns one can read ----

  /** A pattern without a star matches itself alone. */
  lemma {:induction false} LiteralMatches(x: string, s: string)
    requires Literal(x)
    ensures Fits(x, s) <==> s == x
    decreases |x|
  {
    if x != "" {
      assert x[0] != '*';
      if s != "" {
        assert Literal(x[1..]) by { assert forall i :: 0 <= i < |x[1..]| ==> x[1..][i] == x[i + 1]; }
        LiteralMatches(x[1..], s[1..]);
        assert x == [x[0]] + x[1..] && s == [s[0]] + s[1..];
      }
    }
  }

  /** One star between two literal ends stands for whatever lies between them. */
  lemma {:induction false} OneStarMatches(a: string, b: string, s: string)
    requires Literal(a) && Literal(b)
    ensures Fits(a + ("*" + b), s) <==> |s| >= |a| + |b| && s[..|a|] == a && s[|s| - |b|..] == b
    decreases |a| + |s|
  {
    var p := a + ("*" + b);
    if a == "" {
      assert p == "*" + b && p[0] == '*' && p[1..] == b;
      LiteralMatches(b, s);
      if s != "" {
        OneStarMatches(a, b, s[1..]);
        assert |s| > |b| ==> s[1..][|s| - 1 - |b|..] == s[|s| - |b|..];
      }
      assert |s| == |b| ==> s[|s| - |b|..] == s;
    } else {
      assert a[0] != '*' && p[0] == a[0] && p[1..] == a[1..] + ("*" + b);
      if s != "" {
        assert Literal(a[1..]) by { assert forall i :: 0 <= i < |a[1..]| ==> a[1..][i] == a[i + 1]; }
        OneStarMatches(a[1..], b, s[1..]);
        StarRest(a, b, s);
      }
    }
  }

  lemma StarRest(a: string, b: string, s: string)
    requires a != "" && s != ""
    ensures (|s| >= |a| + |b| && s[..|a|] == a && s[|s| - |b|..] == b) <==>
            (s[0] == a[0] && |s[1..]| >= |a[1..]| + |b| && s[1..][..|a[1..]|] == a[1..] && s[1..][|s[1..]| - |b|..] == b)
  {
    if |s| >= |a| + |b| {
      assert s[..|a|] == [s[0]] + s[1..][..|a| - 1];
      assert a == [a[0]] + a[1..];
      assert s[1..][|s| - 1 - |b|..] == s[|s| - |b|..];
    }
  }
}
