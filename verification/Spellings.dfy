/** Two spellings, one key: how the parser reads the spellings of every valid function. */
module Spellings {
  import opened Text
  import opened Sorting
  import opened Fqn

  // ---- searching composed strings ----

  lemma FindAt(s: string, d: string, k: nat)
    requires k < |s| && d <= s[k..] && forall i :: 0 <= i < k ==> !(d <= s[i..])
    ensures Find(s, d) == k
  {
    FindFits(s, d);
  }

  /** The text before and behind a separator. */
  lemma Around(x: string, d: string, y: string)
    ensures var s := x + (d + y);
            |s| == |x| + |d| + |y| && s[..|x|] == x && s[|x| + |d|..] == y
  {
  }

  lemma FindAfter(x: string, d: string, y: string)
    requires d != "" && d[0] !in x
    ensures Find(x + (d + y), d) == |x|
  {
    var s := x + (d + y);
    assert s[|x|..] == d + y;
    assert (d + y)[..|d|] == d;
    forall i | 0 <= i < |x| ensures !(d <= s[i..]) {
      assert s[i..][0] == x[i];
    }
    FindAt(s, d, |x|);
  }

  lemma FindNo(s: string, d: string)
    requires d != "" && d[0] !in s
    ensures Find(s, d) == |s|
  {
    FindFits(s, d);
    var k := Find(s, d);
    forall i | 0 <= i < |s| ensures !(d <= s[i..]) {
      assert s[i..][0] == s[i];
    }
  }

  lemma {:induction false} LastIndexTail(x: string, y: string, c: char)
    requires c !in y
    ensures LastIndex(x + y, c) == LastIndex(x, c)
    decreases |y|
  {
    if y == "" {
      assert x + y == x;
    } else {
      assert (x + y)[..|x + y| - 1] == x + y[..|y| - 1];
      LastIndexTail(x, y[..|y| - 1], c);
    }
  }

  lemma LastIndexAt(x: string, c: char, y: string)
    requires c !in y
    ensures LastIndex(x + [c] + y, c) == |x|
  {
    LastIndexTail(x + [c], y, c);
  }

  // ---- the pieces between dots ----

  /** Text around its first dot. */
  lemma FirstDot(s: string) returns (x: string, y: string)
    requires '.' in s
    ensures s == x + ("." + y) && '.' !in x && Find(s, ".") == |x|
  {
    var i :| 0 <= i < |s| && s[i] == '.';
    var k := Find(s, ".");
    FindFits(s, ".");
    assert "." <= s[i..] by { assert s[i..][..1] == "."; }
    x, y := s[..k], s[k + 1..];
    assert s[k] == '.' by { assert s[k..][0] == '.'; }
    forall l | 0 <= l < k ensures x[l] != '.' {
      assert !("." <= s[l..]);
      assert s[l..][..1] == [s[l]];
    }
  }

  lemma SplitWhole(a: string)
    requires '.' !in a
    ensures Split(a) == [a]
  {
    FindNo(a, ".");
  }

  lemma SplitFirst(x: string, y: string)
    requires '.' !in x
    ensures Split(x + ("." + y)) == [x] + Split(y)
  {
    FindAfter(x, ".", y);
    var s := x + ("." + y);
    assert s[..|x|] == x && s[|x| + 1..] == y;
  }

  lemma {:induction false} SplitJoin(a: string, b: string)
    ensures Split(a + ("." + b)) == Split(a) + Split(b)
    decreases |a|
  {
    hide Split, Find;
    if '.' in a {
      var x, y := FirstDot(a);
      SplitFirst(x, y);
      SplitFirst(x, y + ("." + b));
      SplitJoin(y, b);
      assert a + ("." + b) == x + ("." + (y + ("." + b)));
      assert [x] + (Split(y) + Split(b)) == Split(a) + Split(b);
    } else {
      SplitWhole(a);
      SplitFirst(a, b);
    }
  }

  /** Text in front of the first dot only grows the first piece. */
  lemma SplitPrefix(p: string, a: string)
    requires '.' !in p
    ensures Split(p + a) == [p + Split(a)[0]] + Split(a)[1..]
  {
    hide Split, Find;
    if '.' in a {
      var x, y := FirstDot(a);
      SplitFirst(x, y);
      SplitFirst(p + x, y);
      assert p + a == (p + x) + ("." + y);
    } else {
      SplitWhole(a);
      SplitWhole(p + a);
    }
  }

  // ---- closures, piece by piece ----

  lemma {:induction false} DigitsUpTo(s: string, rest: string)
    requires forall i :: 0 <= i < |s| ==> IsDigit(s[i])
    requires rest != "" ==> !IsDigit(rest[0])
    ensures DigitLen(s + rest) == |s|
  {
    if s == "" {
      assert s + rest == rest;
    } else {
      assert (s + rest)[1..] == s[1..] + rest;
      DigitsUpTo(s[1..], rest);
    }
  }

  /** A closure suffix, whole or up to a dot, is its first piece. */
  lemma StartsUpTo(x: string, rest: string)
    requires '.' !in x && (rest == "" || rest[0] == '.')
    ensures StartsClosure(x + rest) <==> ClosureName(x)
  {
    var s := x + rest;
    if ClosureName(x) {
      assert x[..4] == "func" && s[..4] == "func";
      assert s[4..] == x[4..] + rest;
      DigitsUpTo(x[4..], rest);
    }
    if StartsClosure(s) {
      var d := DigitLen(s[4..]);
      assert s[..4] == "func";
      assert forall i :: 0 <= i < 4 ==> s[i] != '.' by { assert s[0] == 'f' && s[1] == 'u' && s[2] == 'n' && s[3] == 'c'; }
      assert forall i :: 4 <= i < 4 + d ==> s[i] == s[4..][i - 4] && IsDigit(s[i]);
      assert |x| == 4 + d by {
        assert |x| < |s| ==> s[|x|] == '.';
        assert 4 + d < |s| ==> s[4 + d] == '.';
        assert forall i :: 0 <= i < |x| ==> x[i] == s[i] && x[i] in x;
      }
      assert x[..4] == "func";
      assert forall i :: 4 <= i < |x| ==> x[i] == s[i];
    }
  }

  lemma StartsWithPiece(s: string)
    ensures StartsClosure(s) <==> ClosureName(Split(s)[0])
  {
    hide StartsClosure, ClosureName, Split, Find;
    if '.' in s {
      var x, y := FirstDot(s);
      SplitFirst(x, y);
      StartsUpTo(x, "." + y);
    } else {
      SplitWhole(s);
      StartsUpTo(s, "");
      assert s + "" == s;
    }
  }

  lemma AnyTail(parts: seq<string>)
    requires parts != []
    ensures AnyClosureName(parts) <==> ClosureName(parts[0]) || AnyClosureName(parts[1..])
  {
    if AnyClosureName(parts) {
      var k :| 0 <= k < |parts| && ClosureName(parts[k]);
      if k > 0 { assert parts[1..][k - 1] == parts[k]; }
    }
    if AnyClosureName(parts[1..]) {
      var k :| 0 <= k < |parts[1..]| && ClosureName(parts[1..][k]);
      assert parts[k + 1] == parts[1..][k];
    }
  }

  lemma AnyJoin(a: seq<string>, b: seq<string>)
    ensures AnyClosureName(a + b) <==> AnyClosureName(a) || AnyClosureName(b)
  {
    var c := a + b;
    if AnyClosureName(a) { var k :| 0 <= k < |a| && ClosureName(a[k]); assert c[k] == a[k]; }
    if AnyClosureName(b) { var k :| 0 <= k < |b| && ClosureName(b[k]); assert c[|a| + k] == b[k]; }
    if AnyClosureName(c) {
      var k :| 0 <= k < |c| && ClosureName(c[k]);
      assert k < |a| ==> c[k] == a[k];
      assert k >= |a| ==> c[k] == b[k - |a|];
    }
  }

  /** Dropping twice, as numbers. */
  lemma DropDrop(s: string, a: nat, b: nat)
    requires a + b <= |s|
    ensures s[a..][b..] == s[a + b..]
  {
  }

  lemma ClosureBehind(s: string, k: nat, i: nat)
    requires k < |s| && k + 1 + i < |s|
    ensures ClosureAt(s, k + 1 + i) <==> ClosureAt(s[k + 1..], i)
  {
    hide StartsClosure;
    DropDrop(s, k + 1, i + 1);
  }

  lemma FirstClosure(s: string, k: nat)
    requires k < |s| && s[k] == '.' && forall i :: 0 <= i < k ==> s[i] != '.'
    ensures forall i: nat :: i < k ==> !ClosureAt(s, i)
    ensures ClosureAt(s, k) <==> StartsClosure(s[k + 1..])
  {
    hide StartsClosure;
  }

  lemma ClosureShift(s: string, k: nat)
    requires k < |s| && s[k] == '.' && forall i :: 0 <= i < k ==> s[i] != '.'
    ensures HasClosure(s) <==> StartsClosure(s[k + 1..]) || HasClosure(s[k + 1..])
  {
    hide StartsClosure, ClosureAt;
    var t := s[k + 1..];
    FirstClosure(s, k);
    if HasClosure(s) {
      var i :| 0 <= i < |s| && ClosureAt(s, i);
      if i > k { ClosureBehind(s, k, i - k - 1); }
    }
    if HasClosure(t) {
      var i :| 0 <= i < |t| && ClosureAt(t, i);
      ClosureBehind(s, k, i);
    }
  }

  /** A closure suffix anywhere is a piece, other than the first, that reads like one. */
  lemma {:induction false} ClosurePieces(s: string)
    ensures HasClosure(s) <==> AnyClosureName(Split(s)[1..])
    decreases |s|
  {
    hide StartsClosure, ClosureName, HasClosure, Split, Find, AnyClosureName;
    if '.' in s {
      var x, y := FirstDot(s);
      assert s[|x| + 1..] == y;
      ClosureShift(s, |x|);
      ClosurePieces(y);
      StartsWithPiece(y);
      AnyTail(Split(y));
      SplitFirst(x, y);
      assert Split(s)[1..] == Split(y);
    } else {
      SplitWhole(s);
      NoDotNoClosure(s);
      NoneClosureName(Split(s)[1..]);
    }
  }

  lemma NoneClosureName(parts: seq<string>)
    requires parts == []
    ensures !AnyClosureName(parts)
  {
  }

  lemma NoDotNoClosure(s: string)
    requires forall i :: 0 <= i < |s| ==> s[i] != '.'
    ensures !HasClosure(s)
  {
  }

  // ---- what the parser refuses up front ----

  /** Nothing to trim, no bracket, no dollar, no thunk suffix. */
  predicate Regular(s: string) {
    && s != "" && !IsWhite(s[0]) && !IsWhite(s[|s| - 1])
    && '[' !in s && '$' !in s && !EndsWith(s, "-fm")
  }

  lemma ParseRegular(s: string)
    requires Regular(s)
    ensures Parse(s) == if HasClosure(s) then Bottom(RuntimeClosure) else ParseShape(s)
  {
    hide ParseShape, HasClosure;
    assert TrimLeft(s) == s && TrimRight(s) == s;
  }

  predicate RegularByte(c: char) {
    c != '[' && c != '$' && !IsWhite(c)
  }

  lemma ThunkShape(s: string)
    requires EndsWith(s, "-fm")
    ensures |s| >= 3 && s[|s| - 3] == '-' && s[|s| - 2] == 'f' && s[|s| - 1] == 'm'
  {
    var t := s[|s| - 3..];
    assert t[0] == '-' && t[1] == 'f' && t[2] == 'm';
  }

  lemma NoThunk(front: string, name: string)
    requires Identifier(name)
    ensures !EndsWith(front + ("." + name), "-fm")
  {
    var s := front + ("." + name);
    assert |name| >= 3 ==> s[|s| - 3] == name[|name| - 3] != '-';
    assert |name| == 2 ==> s[|s| - 3] == '.';
    assert |name| == 1 ==> s[|s| - 2] == '.';
    if EndsWith(s, "-fm") { ThunkShape(s); }
  }

  lemma SpellingRegular(front: string, name: string)
    requires Identifier(name) && forall i :: 0 <= i < |front| ==> RegularByte(front[i])
    ensures Regular(front + ("." + name))
  {
    hide EndsWith;
    var s := front + ("." + name);
    forall i | 0 <= i < |s| ensures RegularByte(s[i]) {
      if i > |front| { assert s[i] == name[i - |front| - 1]; }
    }
    NoThunk(front, name);
  }

  lemma IdentifierBytes(s: string)
    requires Identifier(s)
    ensures forall c :: c in s ==> c != '.' && c != '/' && c != '(' && c != ')' && c != '*' && RegularByte(c)
    ensures ValidSegment(s)
  {
  }

  lemma SsaRegular(f: FqnKey)
    requires ValidFunction(f)
    ensures Regular(Ssa(f))
  {
    hide Regular, Identifier;
    var front := if f.recv == "" then f.pkg
                 else if f.ptr then "(*" + f.pkg + "." + f.recv + ")" else "(" + f.pkg + "." + f.recv + ")";
    if f.recv != "" { IdentifierBytes(f.recv); }
    assert forall c :: c in f.pkg ==> RegularByte(c);
    assert forall c :: c in "(*" ==> RegularByte(c);
    assert forall i :: 0 <= i < |front| ==> RegularByte(front[i]);
    SpellingRegular(front, f.name);
    assert Ssa(f) == front + ("." + f.name);
  }

  lemma RuntimeRegular(f: FqnKey)
    requires ValidFunction(f)
    ensures Regular(Runtime(f))
  {
    hide Regular, Identifier;
    var front := if f.recv == "" then f.pkg
                 else if f.ptr then f.pkg + ".(*" + f.recv + ")" else f.pkg + "." + f.recv;
    if f.recv != "" { IdentifierBytes(f.recv); }
    assert forall c :: c in f.pkg ==> RegularByte(c);
    assert forall c :: c in ".(*" ==> RegularByte(c);
    assert forall i :: 0 <= i < |front| ==> RegularByte(front[i]);
    SpellingRegular(front, f.name);
    assert Runtime(f) == front + ("." + f.name);
  }

  // ---- closures in spellings ----

  lemma NotClosureName(s: string)
    requires s != "" && (s[0] == '(' || s[|s| - 1] == ')')
    ensures !ClosureName(s)
  {
  }

  lemma OneClosureName(s: string)
    ensures AnyClosureName([s]) <==> ClosureName(s)
  {
    assert [s][0] == s;
  }

  /** The pieces of a package path behind its first dot. */
  function PathPieces(pkg: string): seq<string> {
    Split(pkg)[1..]
  }

  /** "front pkg . middle . name": which pieces could read like a closure. */
  lemma ComposedClosure(front: string, pkg: string, middle: string, name: string)
    requires '.' !in front && '.' !in middle && '.' !in name
    ensures HasClosure(front + pkg + ("." + (middle + ("." + name)))) <==>
            AnyClosureName(PathPieces(pkg)) || ClosureName(middle) || ClosureName(name)
  {
    hide HasClosure, ClosureName, AnyClosureName;
    var a, b := front + pkg, middle + ("." + name);
    SplitJoin(a, b);
    SplitJoin(middle, name);
    SplitWhole(middle);
    SplitWhole(name);
    SplitPrefix(front, pkg);
    ClosurePieces(a + ("." + b));
    assert Split(a + ("." + b))[1..] == PathPieces(pkg) + ([middle] + [name]);
    AnyJoin(PathPieces(pkg), [middle] + [name]);
    AnyJoin([middle], [name]);
    OneClosureName(middle);
    OneClosureName(name);
  }

  lemma FunctionClosure(pkg: string, name: string)
    requires '.' !in name
    ensures HasClosure(pkg + ("." + name)) <==> AnyClosureName(PathPieces(pkg)) || ClosureName(name)
  {
    hide HasClosure, ClosureName, AnyClosureName;
    SplitJoin(pkg, name);
    SplitWhole(name);
    ClosurePieces(pkg + ("." + name));
    assert Split(pkg + ("." + name))[1..] == PathPieces(pkg) + [name];
    AnyJoin(PathPieces(pkg), [name]);
    OneClosureName(name);
  }

  // ---- shapes ----

  /** The parenthesized receiver, once its parts are known. */
  lemma ParenthesizedShape(inner: string, name: string)
    requires ')' !in inner && name != "" && '.' !in name && '(' !in name
    ensures var raw := "(" + inner + (")." + name);
            var path := if "*" <= inner then inner[1..] else inner;
            var dot := LastIndex(path, '.');
            ParseShape(raw) ==
              if dot < 0 || dot == 0 || !ValidSegment(path[dot + 1..]) || !ValidSegment(name) then Bottom(MalformedReceiver)
              else if name == "init" then Bottom(PackageInit)
              else if !("*" <= inner) && Dotted(path[..dot]) then Bottom(DottedValueMethod)
              else Keyed(FqnKey(path[..dot], path[dot + 1..], "*" <= inner, name))
  {
    hide Find, LastIndex, Dotted, ValidSegment;
    var open := "(" + inner;
    var raw := open + (")." + name);
    FindAfter(open, ").", name);
    assert raw[0] == '(' && raw[1..|open|] == inner && raw[|open| + 2..] == name;
  }

  lemma ReceiverPath(pkg: string, recv: string)
    requires '.' !in recv
    ensures var path := pkg + "." + recv;
            LastIndex(path, '.') == |pkg| && path[..|pkg|] == pkg && path[|pkg| + 1..] == recv
  {
    LastIndexAt(pkg, '.', recv);
    assert pkg + "." + recv == pkg + ['.'] + recv;
  }

  /** What the graph spelling of a method parses to once closures are out of the way. */
  lemma SsaShape(f: FqnKey)
    requires ValidFunction(f) && f.recv != ""
    ensures ParseShape(Ssa(f)) ==
            if f.name == "init" then Bottom(PackageInit)
            else if !f.ptr && Dotted(f.pkg) then Bottom(DottedValueMethod)
            else Keyed(f)
  {
    hide ParseShape, LastIndex, Dotted;
    IdentifierBytes(f.recv);
    IdentifierBytes(f.name);
    var path := f.pkg + "." + f.recv;
    var inner := if f.ptr then "*" + path else path;
    assert Ssa(f) == "(" + inner + (")." + f.name);
    assert ')' !in inner;
    ParenthesizedShape(inner, f.name);
    ReceiverPath(f.pkg, f.recv);
    if f.ptr {
      assert inner[..1] == "*" && inner[1..] == path;
    } else {
      assert inner[0] == f.pkg[0] != '*';
    }
  }

  lemma FindMarker(pkg: string, rest: string)
    requires '(' !in pkg
    ensures Find(pkg + (".(*" + rest), ".(*") == |pkg|
  {
    var s := pkg + (".(*" + rest);
    assert s[|pkg|..] == ".(*" + rest;
    assert s[|pkg|..][..3] == ".(*";
    forall i | 0 <= i < |pkg| ensures !(".(*" <= s[i..]) {
      assert s[i + 1] != '(';
      assert s[i..][1] == s[i + 1];
    }
    FindAt(s, ".(*", |pkg|);
  }

  lemma RuntimePointerShape(f: FqnKey)
    requires ValidFunction(f) && f.recv != "" && f.ptr
    ensures ParseShape(Runtime(f)) == if f.name == "init" then Bottom(PackageInit) else Keyed(f)
  {
    hide Find;
    IdentifierBytes(f.recv);
    IdentifierBytes(f.name);
    var rest := f.recv + (")." + f.name);
    var raw := Runtime(f);
    assert raw == f.pkg + (".(*" + rest);
    assert raw[0] == f.pkg[0];
    FindMarker(f.pkg, rest);
    Around(f.pkg, ".(*", rest);
    FindAfter(f.recv, ").", f.name);
    Around(f.recv, ").", f.name);
  }

  lemma NoMarker(raw: string)
    requires '(' !in raw
    ensures Find(raw, ".(*") == |raw|
  {
    FindFits(raw, ".(*");
    var k := Find(raw, ".(*");
    forall i | 0 <= i < |raw| ensures !(".(*" <= raw[i..]) {
      if i + 1 < |raw| { assert raw[i..][1] == raw[i + 1] != '('; }
    }
  }

  /** Where a package path is cut off an undelimited spelling: at its own end, or inside a dotted last segment. */
  lemma CutClean(pkg: string, sym: string)
    requires '/' !in sym && !Dotted(pkg)
    ensures PackageCut(pkg + ("." + sym)) == |pkg|
  {
    hide Find;
    var raw, slash, last := pkg + ("." + sym), LastIndex(pkg, '/'), FinalSegment(pkg);
    LastIndexTail(pkg, "." + sym, '/');
    assert raw[slash + 1..] == last + ("." + sym);
    FindAfter(last, ".", sym);
  }

  lemma {:induction false} NoneAfterLast(s: string, c: char)
    ensures forall i :: LastIndex(s, c) < i < |s| ==> s[i] != c
    ensures LastIndex(s, c) >= 0 ==> s[LastIndex(s, c)] == c
  {
    if s != "" && s[|s| - 1] != c {
      var front := s[..|s| - 1];
      NoneAfterLast(front, c);
      assert forall i :: 0 <= i < |front| ==> s[i] == front[i];
    }
  }

  lemma DropAt(s: string, n: nat)
    requires n <= |s|
    ensures s == s[..n] + s[n..] && forall i :: 0 <= i < |s[n..]| ==> s[n..][i] == s[n + i]
  {
  }

  /** A path is its directory and its last segment, which holds no slash. */
  lemma PathParts(pkg: string)
    ensures pkg == pkg[..LastIndex(pkg, '/') + 1] + FinalSegment(pkg)
    ensures '/' !in FinalSegment(pkg)
  {
    hide LastIndex;
    NoneAfterLast(pkg, '/');
    DropAt(pkg, LastIndex(pkg, '/') + 1);
  }

  /** Cutting a path inside its last segment leaves the directory and a shorter last segment. */
  lemma ShorterSegment(pkg: string, u: string)
    requires '/' !in u
    ensures FinalSegment(pkg[..LastIndex(pkg, '/') + 1] + u) == u
  {
    hide LastIndex;
    var dir := pkg[..LastIndex(pkg, '/') + 1];
    LastIndexTail(dir, u, '/');
    DirectoryEnds(pkg, dir);
    assert (dir + u)[|dir|..] == u;
  }

  lemma DirectoryEnds(pkg: string, dir: string)
    requires dir == pkg[..LastIndex(pkg, '/') + 1]
    ensures LastIndex(dir, '/') == |dir| - 1
  {
    NoneAfterLast(pkg, '/');
    if dir != "" { assert dir[|dir| - 1] == '/'; }
  }

  /** A path whose last segment is dotted, around the first dot there. */
  lemma DottedPath(pkg: string) returns (x: string, u: string, y: string)
    requires Dotted(pkg)
    ensures pkg == x + ("." + y) && x == pkg[..LastIndex(pkg, '/') + 1] + u && FinalSegment(pkg) == u + ("." + y)
    ensures '.' !in u && '/' !in u && '/' !in y
  {
    hide Find, LastIndex, FinalSegment;
    var dir, last := pkg[..LastIndex(pkg, '/') + 1], FinalSegment(pkg);
    u, y := FirstDot(last);
    x := dir + u;
    PathParts(pkg);
    Associative(dir, u, "." + y);
    PartsOf(u, y, last);
  }

  lemma PartsOf(u: string, y: string, last: string)
    requires last == u + ("." + y)
    ensures forall c :: c in u || c in y ==> c in last
  {
    assert forall i :: 0 <= i < |y| ==> last[|u| + 1 + i] == y[i];
    assert forall i :: 0 <= i < |u| ==> last[i] == u[i];
  }

  lemma CutDotted(pkg: string, sym: string) returns (x: string, y: string)
    requires '/' !in sym && Dotted(pkg)
    ensures pkg == x + ("." + y) && PackageCut(pkg + ("." + sym)) == |x|
    ensures !Dotted(x) && '/' !in y
  {
    hide Find, Dotted, LastIndex, FinalSegment;
    var u;
    x, u, y := DottedPath(pkg);
    ShorterSegment(pkg, u);
    assert !Dotted(x) by { NotDotted(x); }
    CutAt(pkg, sym, u, y);
  }

  lemma NotDotted(x: string)
    requires '.' !in FinalSegment(x)
    ensures !Dotted(x)
  {
  }

  lemma DropBoth(a: string, b: string, n: nat)
    requires n <= |a|
    ensures (a + b)[n..] == a[n..] + b
  {
  }

  lemma Regrouped(u: string, y: string, sym: string)
    ensures (u + ("." + y)) + ("." + sym) == u + ("." + (y + ("." + sym)))
  {
  }

  lemma CutAt(pkg: string, sym: string, u: string, y: string)
    requires '/' !in sym && FinalSegment(pkg) == u + ("." + y) && '.' !in u
    ensures PackageCut(pkg + ("." + sym)) == LastIndex(pkg, '/') + 1 + |u|
  {
    hide Find, LastIndex;
    var raw, slash, last := pkg + ("." + sym), LastIndex(pkg, '/'), FinalSegment(pkg);
    LastIndexTail(pkg, "." + sym, '/');
    assert raw[slash + 1..] == last + ("." + sym) by { DropBoth(pkg, "." + sym, slash + 1); }
    assert last + ("." + sym) == u + ("." + (y + ("." + sym))) by { Regrouped(u, y, sym); }
    FindAfter(u, ".", y + ("." + sym));
  }

  /** A method spelled without brackets: three pieces give no key, two give the method. */
  lemma RuntimeValueShape(f: FqnKey)
    requires ValidFunction(f) && ValueReceiver(f)
    ensures ParseShape(Runtime(f)).Keyed? <==> f.name != "init" && !Dotted(f.pkg)
    ensures ParseShape(Runtime(f)).Keyed? ==> ParseShape(Runtime(f)) == Keyed(f)
  {
    hide Find, Split, PackageCut, Dotted;
    IdentifierBytes(f.recv);
    IdentifierBytes(f.name);
    var sym := f.recv + ("." + f.name);
    var raw := f.pkg + ("." + sym);
    assert raw == Runtime(f);
    assert '(' !in raw && raw[0] == f.pkg[0];
    NoMarker(raw);
    SplitFirst(f.recv, f.name);
    SplitWhole(f.name);
    if Dotted(f.pkg) {
      var x, y := CutDotted(f.pkg, sym);
      assert raw == x + ("." + (y + ("." + sym)));
      assert raw[|x| + 1..] == y + ("." + sym);
      SplitJoin(y, sym);
    } else {
      CutClean(f.pkg, sym);
      assert raw[..|f.pkg|] == f.pkg && raw[|f.pkg| + 1..] == sym;
    }
  }

  /** A package-level function on a clean path is recovered from its one spelling. */
  lemma FunctionShape(f: FqnKey)
    requires ValidFunction(f) && f.recv == "" && !Dotted(f.pkg)
    ensures ParseShape(Ssa(f)) == if f.name == "init" then Bottom(PackageInit) else Keyed(f)
  {
    hide Find, Split, PackageCut, Dotted;
    IdentifierBytes(f.name);
    var raw := f.pkg + ("." + f.name);
    assert raw == Ssa(f);
    assert '(' !in raw && raw[0] == f.pkg[0];
    NoMarker(raw);
    SplitWhole(f.name);
    CutClean(f.pkg, f.name);
    assert raw[..|f.pkg|] == f.pkg && raw[|f.pkg| + 1..] == f.name;
  }

  // ---- the theorems ----

  lemma SsaClosure(f: FqnKey)
    requires ValidFunction(f)
    ensures HasClosure(Ssa(f)) <==> AnyClosureName(PathPieces(f.pkg)) || ClosureName(f.name)
  {
    hide HasClosure, AnyClosureName, ClosureName;
    IdentifierBytes(f.name);
    if f.recv == "" {
      FunctionClosure(f.pkg, f.name);
      assert Ssa(f) == f.pkg + ("." + f.name);
    } else {
      IdentifierBytes(f.recv);
      var front := if f.ptr then "(*" else "(";
      ComposedClosure(front, f.pkg, f.recv + ")", f.name);
      NotClosureName(f.recv + ")");
      assert Ssa(f) == front + f.pkg + ("." + (f.recv + ")" + ("." + f.name)));
    }
  }

  lemma MiddleOf(f: FqnKey, middle: string)
    requires f.recv != "" && '.' !in f.recv && middle == if f.ptr then "(*" + f.recv + ")" else f.recv
    ensures Runtime(f) == "" + f.pkg + ("." + (middle + ("." + f.name))) && '.' !in middle
    ensures f.ptr ==> middle[0] == '('
  {
    var tail := "." + f.name;
    assert middle != "" && "" + f.pkg == f.pkg;
    if f.ptr {
      assert ".(*" == "." + "(*" && ")." == ")" + ".";
      assert Runtime(f) == f.pkg + ("." + (middle + tail));
    } else {
      assert Runtime(f) == f.pkg + ("." + (middle + tail));
    }
  }

  lemma RuntimeClosureNames(f: FqnKey)
    requires ValidFunction(f) && f.recv != ""
    ensures HasClosure(Runtime(f)) <==>
            AnyClosureName(PathPieces(f.pkg)) || ClosureName(f.name) || (!f.ptr && ClosureName(f.recv))
  {
    hide HasClosure, AnyClosureName, ClosureName, Runtime, PathPieces, Identifier, PackagePath;
    IdentifierBytes(f.name);
    IdentifierBytes(f.recv);
    var middle := if f.ptr then "(*" + f.recv + ")" else f.recv;
    MiddleOf(f, middle);
    ComposedClosure("", f.pkg, middle, f.name);
    if f.ptr { NotClosureName(middle); }
  }

  /** The graph spelling of a method has a key exactly when the method can be reconciled, and the key is the method. */
  lemma SsaKey(f: FqnKey)
    requires ValidFunction(f) && f.recv != ""
    ensures if Reconcilable(f) then Parse(Ssa(f)) == Keyed(f) else Parse(Ssa(f)).Bottom?
  {
    hide HasClosure, Parse, ParseShape, ClosureName, AnyClosureName;
    SsaRegular(f);
    ParseRegular(Ssa(f));
    SsaClosure(f);
    SsaShape(f);
  }

  /** So has the runtime spelling, unless a value receiver is named like a closure. */
  lemma RuntimeKey(f: FqnKey)
    requires ValidFunction(f) && f.recv != ""
    ensures if Reconcilable(f) && !(ValueReceiver(f) && ClosureName(f.recv)) then Parse(Runtime(f)) == Keyed(f)
            else Parse(Runtime(f)).Bottom?
  {
    hide HasClosure, Parse, ParseShape, ClosureName, AnyClosureName, Dotted;
    RuntimeRegular(f);
    ParseRegular(Runtime(f));
    RuntimeClosureNames(f);
    if f.ptr {
      RuntimePointerShape(f);
    } else {
      RuntimeValueShape(f);
    }
  }

  /**
   * Two spellings, one key, for exactly the functions whose value receiver, if any, is not named like
   * a closure; a reconcilable method with such a receiver is keyed on the graph side only.
   */
  lemma TwoSpellingsOneKey(f: FqnKey)
    requires ValidFunction(f)
    ensures Agree(Parse(Ssa(f)), Parse(Runtime(f))) <==> !(ValueReceiver(f) && ClosureName(f.recv) && Reconcilable(f))
  {
    hide Parse, ClosureName, Reconcilable;
    if f.recv == "" {
      assert Ssa(f) == Runtime(f);
    } else {
      SsaKey(f);
      RuntimeKey(f);
    }
  }

  /** A value method on a type `func1`: its graph spelling is read, its runtime spelling is taken for a closure. */
  lemma ClosureTypeDisagrees()
    ensures var f := FqnKey("svc", "func1", false, "Get");
            && Parse(Ssa(f)) == Keyed(f) && Parse(Runtime(f)).Bottom?
            && !Agree(Parse(Ssa(f)), Parse(Runtime(f)))
  {
    hide Parse, Ssa, Runtime, Split, Find, LastIndex;
    var f := FqnKey("svc", "func1", false, "Get");
    SplitWhole(f.pkg);
    NoneClosureName(Split(f.pkg)[1..]);
    LastIndexTail("", f.pkg, '/');
    assert "" + f.pkg == f.pkg;
    FuncOne();
    SsaKey(f);
    RuntimeKey(f);
  }

  lemma FuncOne()
    ensures ClosureName("func1") && !ClosureName("Get") && Identifier("func1") && Identifier("Get") && PackagePath("svc")
  {
  }

  /** A function both of whose spellings are read faithfully. */
  predicate CleanFunction(g: FqnKey) {
    ValidFunction(g) && !Dotted(g.pkg) && !(ValueReceiver(g) && ClosureName(g.recv))
  }

  /** On a clean final path segment both spellings of any reconcilable function recover the function. */
  lemma KeyRecoversFunction(f: FqnKey)
    requires CleanFunction(f) && Reconcilable(f)
    ensures Parse(Ssa(f)) == Parse(Runtime(f)) == Keyed(f)
  {
    hide HasClosure, Parse, ParseShape, ClosureName, AnyClosureName, Dotted;
    if f.recv == "" {
      SsaRegular(f);
      ParseRegular(Ssa(f));
      SsaClosure(f);
      FunctionShape(f);
      assert Ssa(f) == Runtime(f);
    } else {
      SsaKey(f);
      RuntimeKey(f);
    }
  }

  /** And one that is not reconcilable has no key on either side. */
  lemma NoKeyOtherwise(f: FqnKey)
    requires ValidFunction(f) && !Dotted(f.pkg) && !Reconcilable(f)
    ensures Parse(Ssa(f)).Bottom? && Parse(Runtime(f)).Bottom?
  {
    hide HasClosure, Parse, ParseShape, ClosureName, AnyClosureName, Dotted;
    if f.recv == "" {
      SsaRegular(f);
      ParseRegular(Ssa(f));
      SsaClosure(f);
      FunctionShape(f);
      assert Ssa(f) == Runtime(f);
    } else {
      SsaKey(f);
      RuntimeKey(f);
    }
  }
}
