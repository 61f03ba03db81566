/**
 * Reading a function name never guesses: a text with a key is one of the two spellings of exactly that function,
 * and the shapes that stand for no function are refused, each for its own reason.
 */
module Reading {
  import opened Text
  import opened Sorting
  import opened Fqn
  import opened Spellings

  /** What any key looks like: plausible names, and never an initializer or an ambiguous value method. */
  predicate Plausible(k: FqnKey) {
    && k.pkg != "" && ValidSegment(k.name) && k.name != "init"
    && (k.recv == "" ==> !k.ptr) && (k.recv != "" ==> ValidSegment(k.recv))
  }

  /** A text with a key spells the function of that key, the graph's way or the runtime's. */
  lemma KeyIsSpelled(text: string)
    requires Parse(text).Keyed?
    ensures var k := Parse(text).key; Plausible(k) && (Trim(text) == Ssa(k) || Trim(text) == Runtime(k))
  {
    hide Trim, HasClosure, ParseParenthesized, ParsePointer, ParsePlain;
    var raw := Trim(text);
    if raw[0] == '(' {
      ReceiverIsSpelled(raw);
    } else {
      FindFits(raw, ".(*");
      var i := Find(raw, ".(*");
      if i < |raw| {
        assert |raw[i..]| >= 3 && raw[i..][..3] == ".(*";
        assert raw[i..i + 3] == ".(*";
        PointerIsSpelled(raw, i);
      } else {
        PlainIsSpelled(raw);
      }
    }
  }

  lemma {:induction false} LastIndexIs(s: string, c: char)
    ensures LastIndex(s, c) >= 0 ==> s[LastIndex(s, c)] == c
    ensures forall k :: LastIndex(s, c) < k < |s| ==> s[k] != c
  {
    if s != "" && s[|s| - 1] != c { LastIndexIs(s[..|s| - 1], c); }
  }

  lemma ReceiverIsSpelled(raw: string)
    requires raw != "" && raw[0] == '(' && ParseParenthesized(raw).Keyed?
    ensures var k := ParseParenthesized(raw).key; Plausible(k) && raw == Ssa(k) && k.recv != "" && (k.ptr || !Dotted(k.pkg))
  {
    hide LastIndex, Find, Dotted, ValidSegment;
    var idx := Find(raw, ").");
    FindFits(raw, ").");
    ClosedAt(raw, idx);
    var inner, name := raw[1..idx], raw[idx + 2..];
    var ptr := "*" <= inner;
    var path := if ptr then inner[1..] else inner;
    var dot := LastIndex(path, '.');
    LastIndexIs(path, '.');
    LastDot(path, dot);
    var pkg, recv := path[..dot], path[dot + 1..];
    Spelled(ptr, inner, path, pkg, recv, name);
    EmptyIsImplausible(recv);
  }

  lemma EmptyIsImplausible(s: string)
    ensures ValidSegment(s) ==> s != ""
  {
  }

  lemma ClosedAt(raw: string, idx: nat)
    requires raw != "" && raw[0] == '(' && idx < |raw| && ")." <= raw[idx..]
    ensures 0 < idx && idx + 2 <= |raw| && raw == "(" + raw[1..idx] + ")." + raw[idx + 2..]
  {
    assert raw[idx..][..2] == ")." && raw[idx..idx + 2] == ").";
    assert raw[idx] == ')';
  }

  lemma LastDot(path: string, dot: int)
    requires 0 <= dot < |path| && path[dot] == '.'
    ensures path == path[..dot] + "." + path[dot + 1..]
  {
  }

  lemma Spelled(ptr: bool, inner: string, path: string, pkg: string, recv: string, name: string)
    requires path == pkg + "." + recv && (if ptr then inner != "" && inner[0] == '*' && path == inner[1..] else path == inner)
    ensures "(" + inner + ")." + name == if ptr then "(*" + pkg + "." + recv + ")." + name else "(" + pkg + "." + recv + ")." + name
  {
    if ptr {
      assert inner == "*" + path;
      assert "(" + ("*" + (pkg + "." + recv)) + ")." + name == "(*" + pkg + "." + recv + ")." + name;
    } else {
      assert "(" + (pkg + "." + recv) + ")." + name == "(" + pkg + "." + recv + ")." + name;
    }
  }

  lemma PointerIsSpelled(raw: string, i: nat)
    requires i + 3 <= |raw| && raw[i..i + 3] == ".(*" && ParsePointer(raw, i).Keyed?
    ensures var k := ParsePointer(raw, i).key; Plausible(k) && raw == Runtime(k) && k.ptr
  {
    hide Find;
    var pkg, rest := raw[..i], raw[i + 3..];
    var j := Find(rest, ").");
    FindFits(rest, ").");
    var recv, name := rest[..j], rest[j + 2..];
    assert rest[j..][..2] == ")." && rest[j..j + 2] == ").";
    assert rest == recv + ")." + name;
    assert raw == pkg + ".(*" + rest;
    assert pkg + ".(*" + (recv + ")." + name) == pkg + ".(*" + recv + ")." + name;
  }

  lemma PlainIsSpelled(raw: string)
    requires raw != "" && ParsePlain(raw).Keyed?
    ensures var k := ParsePlain(raw).key; Plausible(k) && raw == Runtime(k) && !k.ptr
  {
    hide PackageCut, Split, Find, LastIndex;
    var cut := PackageCut(raw);
    DotAtCut(raw);
    var pkg, sym := raw[..cut], raw[cut + 1..];
    assert raw == pkg + "." + sym;
    SplitTells(sym);
    var parts := Split(sym);
    if |parts| == 2 {
      assert raw == pkg + "." + (parts[0] + "." + parts[1]);
      assert pkg + "." + (parts[0] + "." + parts[1]) == pkg + "." + parts[0] + "." + parts[1];
    }
  }

  lemma DotAtCut(raw: string)
    requires PackageCut(raw) < |raw|
    ensures raw[PackageCut(raw)] == '.'
  {
    var slash := LastIndex(raw, '/');
    var rest := raw[slash + 1..];
    FindFits(rest, ".");
    assert rest[Find(rest, ".")..][..1] == ".";
  }

  lemma SplitTells(s: string)
    ensures |Split(s)| == 1 ==> s == Split(s)[0]
    ensures |Split(s)| == 2 ==> s == Split(s)[0] + "." + Split(s)[1]
  {
    hide Split, Find;
    if '.' in s {
      var x, y := FirstDot(s);
      SplitFirst(x, y);
      if '.' in y {
        var u, v := FirstDot(y);
        SplitFirst(u, v);
      } else {
        SplitWhole(y);
      }
      assert x + ("." + y) == x + "." + y;
    } else {
      SplitWhole(s);
    }
  }

  /** What is never read as a function, and why; the first reason that applies is given. */
  lemma RefusedShapes(text: string)
    ensures var raw, p := Trim(text), Parse(text);
            && (p == Bottom(Empty) <==> raw == "")
            && (p == Bottom(Generic) <==> '[' in raw)
            && (p == Bottom(SsaSynthetic) <==> '[' !in raw && '$' in raw)
            && (p == Bottom(MethodValue) <==> '[' !in raw && '$' !in raw && |raw| >= 3 && raw[|raw| - 3..] == "-fm")
            && (p == Bottom(RuntimeClosure) <==>
                  '[' !in raw && '$' !in raw && !(|raw| >= 3 && raw[|raw| - 3..] == "-fm") && AnyClosureName(Split(raw)[1..]))
  {
    hide Trim, HasClosure, AnyClosureName, Split, Dotted, LastIndex, PackageCut, ValidSegment;
    var raw := Trim(text);
    ClosurePieces(raw);
    if raw != "" { ShapeReasons(raw); }
    assert raw == "" ==> !AnyClosureName(Split("")[1..]) by { NothingClosed(); }
  }

  lemma NothingClosed()
    ensures !AnyClosureName(Split("")[1..])
  {
    SplitWhole("");
  }

  lemma ShapeReasons(raw: string)
    requires raw != ""
    ensures ParseShape(raw).Bottom? ==> ParseShape(raw).reason !in {Empty, Generic, SsaSynthetic, MethodValue, RuntimeClosure}
  {
    hide Dotted, LastIndex, PackageCut, ValidSegment, Split;
  }

  /** A receiver in parentheses must be followed by one plain name. */
  lemma BadMethodName(inner: string, name: string)
    requires Find("(" + inner + ")." + name, ").") == |inner| + 1
    requires name == "" || '.' in name || '(' in name
    ensures ParseShape("(" + inner + ")." + name) == Bottom(MalformedName)
  {
    hide Find, LastIndex, Dotted, ValidSegment;
    var raw := "(" + inner + ")." + name;
    assert raw[|inner| + 3..] == name && raw[0] == '(';
  }
}
