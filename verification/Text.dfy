/** Strings: what the repository takes from Go's `strings` package. */
module Text {

  predicate IsDigit(c: char) { '0' <= c <= '9' }

  /** What `strings.TrimSpace` and `strings.Fields` take for blank. */
  predicate IsWhite(c: char) {
    c == ' ' || '\t' <= c <= '\r'
  }

  function TrimLeft(s: string): string {
    if s != "" && IsWhite(s[0]) then TrimLeft(s[1..]) else s
  }

  function TrimRight(s: string): string {
    if s != "" && IsWhite(s[|s| - 1]) then TrimRight(s[..|s| - 1]) else s
  }

  /** `strings.TrimSpace`. */
  function Trim(s: string): string {
    TrimRight(TrimLeft(s))
  }

  /** Cut out of the text, with no blank at either end and nothing but blanks cut off. */
  ghost predicate CutClear(s: string, r: string, i: nat) {
    && i + |r| <= |s| && r == s[i..i + |r|]
    && (forall k :: 0 <= k < |s| && (k < i || i + |r| <= k) ==> IsGap(s[k]))
    && (r != "" ==> !IsGap(r[0]) && !IsGap(r[|r| - 1]))
  }

  /** Tab, line feed, vertical tab, form feed, carriage return and space. */
  predicate IsGap(c: char) {
    c as int in {9, 10, 11, 12, 13, 32}
  }

  lemma WhiteIs(c: char)
    ensures IsWhite(c) <==> IsGap(c)
  {
  }

  lemma TrimIs(s: string)
    ensures exists i: nat :: CutClear(s, Trim(s), i)
  {
    hide IsWhite, IsGap;
    forall c ensures IsWhite(c) <==> IsGap(c) { WhiteIs(c); }
    TrimLeftIs(s);
    var l := TrimLeft(s);
    TrimRightIs(l);
    var i := |s| - |l|;
    assert forall k :: 0 <= k < |l| ==> s[i + k] == l[k];
    assert CutClear(s, Trim(s), i);
  }

  lemma {:induction false} TrimLeftIs(s: string)
    ensures |TrimLeft(s)| <= |s| && TrimLeft(s) == s[|s| - |TrimLeft(s)|..]
    ensures forall k :: 0 <= k < |s| - |TrimLeft(s)| ==> IsWhite(s[k])
    ensures TrimLeft(s) != "" ==> !IsWhite(TrimLeft(s)[0])
  {
    hide IsWhite;
    if s != "" && IsWhite(s[0]) {
      TrimLeftIs(s[1..]);
      forall k | 0 <= k < |s| - |TrimLeft(s)| ensures IsWhite(s[k]) {
        if k > 0 { assert s[k] == s[1..][k - 1]; }
      }
    }
  }

  lemma {:induction false} TrimRightIs(s: string)
    ensures TrimRight(s) <= s
    ensures forall k :: |TrimRight(s)| <= k < |s| ==> IsWhite(s[k])
    ensures TrimRight(s) != "" ==> !IsWhite(TrimRight(s)[|TrimRight(s)| - 1])
  {
    hide IsWhite;
    if s != "" && IsWhite(s[|s| - 1]) { TrimRightIs(s[..|s| - 1]); }
  }

  /** `strings.Join`. */
  function JoinWith(parts: seq<string>, c: char): string {
    if parts == [] then ""
    else if |parts| == 1 then parts[0]
    else parts[0] + ([c] + JoinWith(parts[1..], c))
  }

  lemma FirstAt(x: string, y: string, c: char)
    requires c !in x
    ensures var s := x + ([c] + y); s[|x|] == c && (forall i :: 0 <= i < |x| ==> s[i] != c) && s[..|x|] == x && s[|x| + 1..] == y
  {
  }

  /** A text is cut at its first separator in one way. */
  lemma CutOnce(x: string, y: string, x': string, y': string, c: char)
    requires c !in x && c !in x' && x + ([c] + y) == x' + ([c] + y')
    ensures x == x' && y == y'
  {
    FirstAt(x, y, c);
    FirstAt(x', y', c);
  }

  lemma WithoutSeparator(x: string, x': string, y': string, c: char)
    requires c !in x
    ensures x != x' + ([c] + y')
  {
    assert (x' + ([c] + y'))[|x'|] == c;
  }

  /** Parts that do not hold the separator are told by the joined text. */
  lemma {:induction false} JoinInjective(a: seq<string>, b: seq<string>, c: char)
    requires a != [] && b != [] && JoinWith(a, c) == JoinWith(b, c)
    requires forall i :: 0 <= i < |a| ==> c !in a[i]
    requires forall i :: 0 <= i < |b| ==> c !in b[i]
    ensures a == b
    decreases |a|
  {
    WithoutSeparator(b[0], a[0], JoinWith(a[1..], c), c);
    WithoutSeparator(a[0], b[0], JoinWith(b[1..], c), c);
    if |a| > 1 && |b| > 1 {
      CutOnce(a[0], JoinWith(a[1..], c), b[0], JoinWith(b[1..], c), c);
      JoinInjective(a[1..], b[1..], c);
    }
    assert a == [a[0]] + a[1..] && b == [b[0]] + b[1..];
  }

  lemma Associative<T>(a: seq<T>, b: seq<T>, c: seq<T>)
    ensures (a + b) + c == a + (b + c)
  {
  }

  /** Position of the first occurrence of `d`, or the length of `s` when there is none. */
  function Find(s: string, d: string): (k: nat)
    ensures k <= |s|
  {
    if s == "" || d <= s then 0 else 1 + Find(s[1..], d)
  }

  lemma {:induction false} FindFits(s: string, d: string)
    ensures Find(s, d) < |s| ==> d <= s[Find(s, d)..]
    ensures forall k :: 0 <= k < Find(s, d) ==> !(d <= s[k..])
  {
    if s != "" && !(d <= s) {
      FindFits(s[1..], d);
      forall k | 0 <= k < Find(s, d) ensures !(d <= s[k..]) {
        if k > 0 { assert s[k..] == s[1..][k - 1..]; }
      }
      assert s[Find(s, d)..] == s[1..][Find(s[1..], d)..];
    }
  }

  /** `strings.Index` from a position; the length of the rest when there is no match. */
  method IndexFrom(raw: string, start: nat, d: string) returns (k: nat)
    requires start <= |raw|
    ensures k == Find(raw[start..], d)
  {
    k := 0;
    ghost var s := raw[start..];
    while start + k < |raw|
      invariant k <= |s|
      invariant Find(s, d) == k + Find(s[k..], d)
    {
      if |d| <= |raw| - start - k && raw[start + k..start + k + |d|] == d {
        assert d <= s[k..] by { assert s[k..][..|d|] == d; }
        return;
      }
      assert !(d <= s[k..]) by { NoPrefix(raw, start + k, d); assert s[k..] == raw[start + k..]; }
      assert s[k..][1..] == s[k + 1..];
      k := k + 1;
    }
  }

  lemma NoPrefix(raw: string, i: nat, d: string)
    requires i <= |raw|
    ensures d <= raw[i..] ==> |d| <= |raw| - i && raw[i..i + |d|] == d
  {
    if d <= raw[i..] {
      assert raw[i..][..|d|] == raw[i..i + |d|];
    }
  }
}
