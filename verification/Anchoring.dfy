/**
 * Anchoring a span at a graph node by its runtime tag: the node index, exactly which functions share a key,
 * and so exactly when a unique hit is the wrong node.
 */
module Anchoring {
  import opened Text
  import opened Sorting
  import opened Fqn
  import opened Spellings

  // ---- which functions share a key ----

  /** A package function spelled, dot for dot, like the value method of type `m.recv` in package `m.pkg`. */
  predicate Twins(h: FqnKey, m: FqnKey) {
    && h.recv == "" && !h.ptr && m.recv != "" && !m.ptr
    && h.name == m.name && h.pkg == m.pkg + ("." + m.recv)
    && !Dotted(m.pkg) && '/' !in m.recv && '.' !in m.recv
  }

  /** A value method both of whose spellings have a key. */
  predicate Readable(m: FqnKey) {
    Reconcilable(m) && !ClosureName(m.recv)
  }

  /** The one way two functions share a key. */
  predicate Collide(f: FqnKey, g: FqnKey) {
    (Twins(f, g) && Readable(g)) || (Twins(g, f) && Readable(f))
  }

  lemma PlainParse(raw: string, x: string, y: string, name: string)
    requires '(' !in raw && raw != "" && raw == x + ("." + (y + ("." + name))) && PackageCut(raw) == |x| && '.' !in name
    ensures ParseShape(raw).Keyed? <==>
              x != "" && '.' !in y && ValidSegment(y) && ValidSegment(name) && name != "init"
    ensures ParseShape(raw).Keyed? ==> ParseShape(raw) == Keyed(FqnKey(x, y, false, name))
  {
    hide Find, Split, PackageCut, ValidSegment;
    NoMarker(raw);
    assert raw[0] != '(';
    assert raw[|x| + 1..] == y + ("." + name) && raw[..|x|] == x;
    SplitJoin(y, name);
    SplitWhole(name);
    if '.' in y {
      var u, v := FirstDot(y);
      SplitFirst(u, v);
    } else {
      SplitWhole(y);
    }
  }

  /** A stretch of a package path is a plausible name when no dot or slash cuts it. */
  lemma SegmentOf(pkg: string, y: string)
    requires PackagePath(pkg) && '/' !in y && forall c :: c in y ==> c in pkg
    ensures '.' !in y ==> (ValidSegment(y) <==> y != "")
  {
  }

  /** On a dotted path a package function is read as a method, or not at all. */
  lemma DottedFunctionKey(f: FqnKey) returns (x: string, y: string)
    requires ValidFunction(f) && f.recv == "" && Dotted(f.pkg)
    ensures f.pkg == x + ("." + y) && |x| == PackageCut(f.pkg + ("." + f.name)) && !Dotted(x) && '/' !in y
    ensures Parse(Ssa(f)).Keyed? <==>
              && x != "" && y != "" && '.' !in y && f.name != "init"
              && !AnyClosureName(PathPieces(f.pkg)) && !ClosureName(f.name)
    ensures Parse(Ssa(f)).Keyed? ==> Parse(Ssa(f)) == Keyed(FqnKey(x, y, false, f.name))
  {
    hide HasClosure, Parse, ParseShape, ClosureName, AnyClosureName, Dotted, PackageCut, PathPieces, ValidSegment, Identifier, Regular;
    SsaRegular(f);
    ParseRegular(Ssa(f));
    SsaClosure(f);
    IdentifierBytes(f.name);
    x, y := CutDotted(f.pkg, f.name);
    DottedSpelling(f, x, y);
    SegmentOf(f.pkg, y);
    PlainParse(Ssa(f), x, y, f.name);
  }

  lemma DottedSpelling(f: FqnKey, x: string, y: string)
    requires ValidFunction(f) && f.recv == "" && f.pkg == x + ("." + y)
    ensures Ssa(f) == f.pkg + ("." + f.name) == x + ("." + (y + ("." + f.name)))
    ensures '(' !in Ssa(f) && Ssa(f) != "" && forall c :: c in y ==> c in f.pkg
  {
    IdentifierBytes(f.name);
  }

  lemma TwinPieces(h: FqnKey, m: FqnKey)
    requires Twins(h, m)
    ensures AnyClosureName(PathPieces(h.pkg)) <==> AnyClosureName(PathPieces(m.pkg)) || ClosureName(m.recv)
    ensures Dotted(h.pkg)
  {
    hide AnyClosureName, ClosureName, Split;
    SplitJoin(m.pkg, m.recv);
    SplitWhole(m.recv);
    assert PathPieces(h.pkg) == PathPieces(m.pkg) + [m.recv];
    AnyJoin(PathPieces(m.pkg), [m.recv]);
    OneClosureName(m.recv);
    LastIndexTail(m.pkg, "." + m.recv, '/');
    var slash := LastIndex(m.pkg, '/');
    assert h.pkg[|m.pkg|] == '.';
    assert h.pkg[slash + 1..][|m.pkg| - slash - 1] == '.';
  }

  /** A readable method lends its key to the function that is spelled like it. */
  lemma TwinsShare(h: FqnKey, m: FqnKey)
    requires ValidFunction(h) && ValidFunction(m) && Twins(h, m)
    ensures if Readable(m) then Parse(Ssa(h)) == Keyed(m) else Parse(Ssa(h)).Bottom?
  {
    hide Parse, ClosureName, AnyClosureName, Dotted, PackageCut, Ssa;
    TwinPieces(h, m);
    var x, y := DottedFunctionKey(h);
    IdentifierBytes(h.name);
    var sym := m.recv + ("." + m.name);
    CutClean(m.pkg, sym);
    assert m.pkg + ("." + sym) == h.pkg + ("." + h.name);
    assert |x| == |m.pkg|;
    assert x == h.pkg[..|x|] == m.pkg;
    assert y == h.pkg[|x| + 1..] == m.recv;
  }

  /** What the graph spelling of any valid function is read as: itself, or the method it is spelled like. */
  lemma SsaReads(f: FqnKey, k: FqnKey)
    requires ValidFunction(f) && Parse(Ssa(f)) == Keyed(k)
    ensures (k == f && Reconcilable(f) && !(f.recv == "" && Dotted(f.pkg))) || Twins(f, k)
  {
    hide Parse, ClosureName, AnyClosureName, Dotted, PackageCut, Ssa, Reconcilable;
    if f.recv != "" {
      SsaKey(f);
    } else if Dotted(f.pkg) {
      var x, y := DottedFunctionKey(f);
    } else if Reconcilable(f) {
      CleanFunctionIs(f);
      KeyRecoversFunction(f);
    } else {
      NoKeyOtherwise(f);
    }
  }

  lemma CleanFunctionIs(f: FqnKey)
    requires ValidFunction(f) && f.recv == "" && !Dotted(f.pkg)
    ensures CleanFunction(f)
  {
  }

  lemma RuntimeReads(f: FqnKey, k: FqnKey)
    requires ValidFunction(f) && Parse(Runtime(f)) == Keyed(k)
    ensures Parse(Ssa(f)) == Keyed(k)
    ensures ValueReceiver(f) ==> !ClosureName(f.recv)
  {
    hide Parse, ClosureName, Reconcilable, Ssa, Runtime;
    if f.recv == "" {
      SameSpelling(f);
    } else {
      SsaKey(f);
      RuntimeKey(f);
    }
  }

  lemma SameSpelling(f: FqnKey)
    requires f.recv == ""
    ensures Ssa(f) == Runtime(f)
  {
  }

  /** Functions are told apart by package, receiver and name; so are the functions spelled like one method. */
  lemma OneTwin(a: FqnKey, b: FqnKey, m: FqnKey)
    requires Twins(a, m) && Twins(b, m)
    ensures a == b
  {
  }

  lemma OneMethod(h: FqnKey, a: FqnKey, b: FqnKey)
    requires Twins(h, a) && Twins(h, b)
    ensures a == b
  {
    LastIndexAt(a.pkg, '.', a.recv);
    LastIndexAt(b.pkg, '.', b.recv);
    assert h.pkg == a.pkg + ['.'] + a.recv == b.pkg + ['.'] + b.recv;
    assert |a.pkg| == |b.pkg|;
    assert a.pkg == h.pkg[..|a.pkg|] == b.pkg;
    assert a.recv == h.pkg[|a.pkg| + 1..] == b.recv;
  }

  /**
   * The graph spelling of one function and the runtime spelling of another have the same key exactly when one
   * is a package function in a package "p.r" and the other the method of that name on type r of package p.
   */
  lemma CollisionIff(f: FqnKey, g: FqnKey)
    requires ValidFunction(f) && ValidFunction(g) && f != g
    ensures Parse(Runtime(f)).Keyed? && Parse(Ssa(g)) == Parse(Runtime(f)) <==> Collide(f, g)
  {
    hide Parse, ClosureName, AnyClosureName, Dotted, Ssa, Runtime, Reconcilable, Twins, ValidFunction;
    if Parse(Runtime(f)).Keyed? && Parse(Ssa(g)) == Parse(Runtime(f)) {
      SharedKey(f, g, Parse(Ssa(g)).key);
    }
    if Twins(f, g) && Readable(g) {
      TwinShapes(f, g);
      TwinsShare(f, g);
      SsaKey(g);
      SameSpelling(f);
    }
    if Twins(g, f) && Readable(f) {
      TwinShapes(g, f);
      TwinsShare(g, f);
      RuntimeKey(f);
    }
  }

  lemma TwinShapes(h: FqnKey, m: FqnKey)
    requires Twins(h, m)
    ensures h.recv == "" && m.recv != "" && !m.ptr
  {
  }

  lemma SharedKey(f: FqnKey, g: FqnKey, k: FqnKey)
    requires ValidFunction(f) && ValidFunction(g) && f != g
    requires Parse(Runtime(f)) == Keyed(k) && Parse(Ssa(g)) == Keyed(k)
    ensures Collide(f, g)
  {
    hide Parse, ClosureName, AnyClosureName, Dotted, Ssa, Runtime, Reconcilable, Twins, ValidFunction;
    RuntimeReads(f, k);
    SsaReads(f, k);
    SsaReads(g, k);
    if Twins(f, k) && Twins(g, k) {
      OneTwin(f, g, k);
    } else if Twins(f, k) {
      TwinsShare(f, g);
    } else {
      TwinsShare(g, f);
    }
  }

  // ---- the node index ----

  /** The nodes whose spelling parses to a key, in list order. */
  function Bucket(nodes: seq<string>, key: FqnKey): seq<string> {
    if nodes == [] then []
    else
      var n := |nodes| - 1;
      Bucket(nodes[..n], key) + if Parse(nodes[n]) == Keyed(key) then [nodes[n]] else []
  }

  type NodeIndex = map<FqnKey, seq<string>>

  function Nodes(index: NodeIndex, key: FqnKey): seq<string> {
    if key in index then index[key] else []
  }

  /** An index lists, for every key, its nodes in byte order. */
  ghost predicate Indexes(index: NodeIndex, nodes: seq<string>) {
    forall key :: Nodes(index, key) == StableSort(Bucket(nodes, key), StrLess)
  }

  lemma BucketStep(nodes: seq<string>, i: nat, key: FqnKey)
    requires i < |nodes|
    ensures Bucket(nodes[..i + 1], key) == Bucket(nodes[..i], key) + if Parse(nodes[i]) == Keyed(key) then [nodes[i]] else []
  {
    assert nodes[..i + 1][..i] == nodes[..i];
  }

  method FillIndex(nodes: seq<string>) returns (index: NodeIndex)
    ensures forall key :: Nodes(index, key) == Bucket(nodes, key)
  {
    hide Parse, Bucket;
    index := map[];
    assert nodes[..0] == [];
    forall key { NoNodes(key); }
    for i := 0 to |nodes|
      invariant forall key :: Nodes(index, key) == Bucket(nodes[..i], key)
    {
      forall key { BucketStep(nodes, i, key); }
      var parsed := Parse(nodes[i]);
      if parsed.Keyed? {
        ghost var before := index;
        index := index[parsed.key := Nodes(index, parsed.key) + [nodes[i]]];
        assert forall key :: Nodes(index, key) == Nodes(before, key) + if key == parsed.key then [nodes[i]] else [];
      }
    }
    assert nodes[..|nodes|] == nodes;
  }

  lemma NoNodes(key: FqnKey)
    ensures Bucket([], key) == []
  {
  }

  /** `buildNodeIndex`: nodes without a key are never indexed. */
  method BuildNodeIndex(nodes: seq<string>) returns (index: NodeIndex)
    ensures Indexes(index, nodes)
  {
    hide StableSort, Bucket;
    index := FillIndex(nodes);
    ghost var filled := index;
    var pending := index.Keys;
    while pending != {}
      invariant pending <= index.Keys == filled.Keys
      invariant forall key :: key in filled ==>
                  index[key] == if key in pending then filled[key] else StableSort(filled[key], StrLess)
      decreases |pending|
    {
      var key :| key in pending;
      pending := pending - {key};
      index := index[key := StableSort(index[key], StrLess)];
    }
    NoSort();
  }

  lemma NoSort()
    ensures StableSort([], StrLess) == []
  {
  }

  datatype Anchor = Untagged | Absent(tag: string) | Mapped(node: string) | Ambiguous(count: nat)

  /** `mapInternal`: a tag anchors at a node only when its key has exactly one. */
  function MapInternal(index: NodeIndex, tag: string): Anchor {
    if tag == "" then Untagged
    else
      match Parse(tag)
      case Bottom(_) => Untagged
      case Keyed(key) =>
        var nodes := Nodes(index, key);
        if |nodes| == 0 then Absent(tag)
        else if |nodes| == 1 then Mapped(nodes[0])
        else Ambiguous(|nodes|)
  }

  // ---- where a tag anchors ----

  /** Distinct nodes, each without a key or a function spelled the graph's way. */
  ghost predicate GraphNodes(nodes: seq<string>) {
    && Distinct(nodes)
    && forall n :: n in nodes ==> Parse(n).Bottom? || exists g :: ValidFunction(g) && n == Ssa(g)
  }

  /** A function of the graph that shares a key with `f`. */
  ghost predicate InTheWay(nodes: seq<string>, f: FqnKey, g: FqnKey) {
    ValidFunction(g) && Ssa(g) in nodes && Collide(f, g)
  }

  lemma {:induction false} BucketHolds(nodes: seq<string>, key: FqnKey)
    requires Distinct(nodes)
    ensures forall n :: n in Bucket(nodes, key) <==> n in nodes && Parse(n) == Keyed(key)
    ensures Distinct(Bucket(nodes, key))
  {
    hide Parse;
    if nodes != [] {
      var l := |nodes| - 1;
      BucketHolds(nodes[..l], key);
      var front := Bucket(nodes[..l], key);
      assert nodes == nodes[..l] + [nodes[l]];
      forall i | 0 <= i < |front| ensures front[i] != nodes[l] { assert front[i] in front; }
    }
  }

  /** At most one other function of a graph can be in the way. */
  lemma OneInTheWay(f: FqnKey, a: FqnKey, b: FqnKey)
    requires Collide(f, a) && Collide(f, b)
    ensures a == b
  {
    hide Twins, Readable;
    if Twins(f, a) {
      TwinShapes(f, a);
      if Twins(f, b) { OneMethod(f, a, b); } else { TwinShapes(b, f); }
    } else {
      TwinShapes(a, f);
      if Twins(f, b) { TwinShapes(f, b); } else { OneTwin(a, b, f); }
    }
  }

  lemma CollidersSpeltApart(f: FqnKey, g: FqnKey)
    requires ValidFunction(f) && ValidFunction(g) && Collide(f, g)
    ensures f != g && Ssa(f) != Ssa(g)
  {
    hide Dotted, Readable;
    var h, m := if Twins(f, g) then f else g, if Twins(f, g) then g else f;
    assert Ssa(m)[0] == '(';
    assert Ssa(h)[0] == h.pkg[0] != '(';
  }

  /** Who is listed under the key of a tag: the function itself and whoever is in the way. */
  lemma ListedFor(nodes: seq<string>, f: FqnKey, key: FqnKey, n: string)
    requires GraphNodes(nodes) && ValidFunction(f) && Parse(Runtime(f)) == Keyed(key) && n in nodes
    ensures Parse(n) == Keyed(key) <==> n == Ssa(f) || exists g :: InTheWay(nodes, f, g) && n == Ssa(g)
  {
    hide Parse, Ssa, Runtime, Collide, ValidFunction;
    RuntimeReads(f, key);
    if Parse(n) == Keyed(key) && n != Ssa(f) {
      var g :| ValidFunction(g) && n == Ssa(g);
      CollisionIff(f, g);
    }
    if exists g :: InTheWay(nodes, f, g) && n == Ssa(g) {
      var g :| InTheWay(nodes, f, g) && n == Ssa(g);
      CollidersSpeltApart(f, g);
      CollisionIff(f, g);
    }
  }

  /** The anchor of a tag, whatever the graph holds: only a function in the way is ever mistaken for the right one. */
  ghost function AnchorOf(nodes: seq<string>, f: FqnKey): Anchor {
    if Parse(Runtime(f)).Bottom? then Untagged
    else if exists g :: InTheWay(nodes, f, g) then
      var g :| InTheWay(nodes, f, g);
      if Ssa(f) in nodes then Ambiguous(2) else Mapped(Ssa(g))
    else if Ssa(f) in nodes then Mapped(Ssa(f))
    else Absent(Runtime(f))
  }

  lemma Exactly(s: seq<string>, a: string, b: string)
    requires Distinct(s)
    requires forall x :: x in s ==> x == a || x == b
    ensures a in s && b in s && a != b ==> |s| == 2
    ensures a in s && (a == b || b !in s) ==> s == [a]
    ensures a !in s && b !in s ==> s == []
  {
    forall i | 0 <= i < |s| ensures s[i] == a || s[i] == b { assert s[i] in s; }
    assert |s| > 1 ==> s[0] != s[1];
    assert |s| > 2 ==> s[0] != s[2] && s[1] != s[2];
  }

  /** `mapInternal` computes that anchor. */
  lemma MapInternalIs(index: NodeIndex, nodes: seq<string>, f: FqnKey)
    requires Indexes(index, nodes) && GraphNodes(nodes) && ValidFunction(f)
    ensures MapInternal(index, Runtime(f)) == AnchorOf(nodes, f)
  {
    hide Parse, Ssa, Runtime, Collide, ValidFunction, StableSort, Bucket, InTheWay, GraphNodes;
    TagIsText(f);
    if Parse(Runtime(f)).Keyed? {
      var key := Parse(Runtime(f)).key;
      var bucket := Bucket(nodes, key);
      DistinctNodes(nodes);
      BucketHolds(nodes, key);
      forall n | n in nodes
        ensures Parse(n) == Keyed(key) <==> n == Ssa(f) || exists g :: InTheWay(nodes, f, g) && n == Ssa(g)
      {
        ListedFor(nodes, f, key, n);
      }
      assert Nodes(index, key) == StableSort(bucket, StrLess);
      if exists g :: InTheWay(nodes, f, g) {
        var g :| InTheWay(nodes, f, g);
        forall g' | InTheWay(nodes, f, g') ensures g' == g { AtMostOne(nodes, f, g, g'); }
        InTheWayFacts(nodes, f, g);
        Exactly(bucket, Ssa(g), Ssa(f));
        OneSort(Ssa(g));
      } else {
        Exactly(bucket, Ssa(f), Ssa(f));
        OneSort(Ssa(f));
        NoSort();
      }
    }
  }

  lemma DistinctNodes(nodes: seq<string>)
    requires GraphNodes(nodes)
    ensures Distinct(nodes)
  {
  }

  lemma TagIsText(f: FqnKey)
    ensures Runtime(f) != ""
  {
  }

  lemma AtMostOne(nodes: seq<string>, f: FqnKey, a: FqnKey, b: FqnKey)
    requires InTheWay(nodes, f, a) && InTheWay(nodes, f, b)
    ensures a == b
  {
    OneInTheWay(f, a, b);
  }

  lemma InTheWayFacts(nodes: seq<string>, f: FqnKey, g: FqnKey)
    requires ValidFunction(f) && InTheWay(nodes, f, g)
    ensures Ssa(g) in nodes && Ssa(g) != Ssa(f)
  {
    CollidersSpeltApart(f, g);
  }

  /** The anchor of `f`'s tag is a node that is not `f`. */
  predicate WrongAnchor(a: Anchor, f: FqnKey) {
    a.Mapped? && a.node != Ssa(f)
  }

  /**
   * A unique hit is the wrong node exactly when the graph lacks the function and has the one function that is
   * spelled like it: a package function against the value method one dot up. Pointer methods are never misread.
   */
  lemma WrongAnchorIff(index: NodeIndex, nodes: seq<string>, f: FqnKey)
    requires Indexes(index, nodes) && GraphNodes(nodes) && ValidFunction(f)
    ensures WrongAnchor(MapInternal(index, Runtime(f)), f) <==> Ssa(f) !in nodes && exists g :: InTheWay(nodes, f, g)
    ensures f.ptr ==> !WrongAnchor(MapInternal(index, Runtime(f)), f)
  {
    hide Parse, Ssa, Runtime, Collide, ValidFunction, InTheWay, GraphNodes, Indexes;
    MapInternalIs(index, nodes, f);
    forall g | InTheWay(nodes, f, g) ensures Ssa(g) != Ssa(f) && !f.ptr && Parse(Runtime(f)).Keyed? {
      InTheWayFacts(nodes, f, g);
      NotAPointer(nodes, f, g);
    }
  }

  lemma NotAPointer(nodes: seq<string>, f: FqnKey, g: FqnKey)
    requires ValidFunction(f) && InTheWay(nodes, f, g)
    ensures !f.ptr && Parse(Runtime(f)).Keyed?
  {
    hide Parse, Ssa, Runtime, ValidFunction, Readable;
    CollidersSpeltApart(f, g);
    CollisionIff(f, g);
  }

  lemma OneSort(s: string)
    ensures StableSort([s], StrLess) == [s]
  {
  }

  /** An input where it is wrong: the package function yaml.v3.T catches the tag of method T on a type v3. */
  lemma DottedPackageMisanchors(index: NodeIndex)
    requires Indexes(index, [Ssa(FqnKey("x/yaml.v3", "", false, "T"))])
    ensures WrongAnchor(MapInternal(index, Runtime(FqnKey("x/yaml", "v3", false, "T"))), FqnKey("x/yaml", "v3", false, "T"))
  {
    hide Parse, Ssa, Runtime, Collide, ValidFunction, GraphNodes, Indexes;
    var h, f := FqnKey("x/yaml.v3", "", false, "T"), FqnKey("x/yaml", "v3", false, "T");
    TwinExample(h, f);
    assert ValidFunction(h) && Ssa(h) in [Ssa(h)];
    assert InTheWay([Ssa(h)], f, h);
    InTheWayFacts([Ssa(h)], f, h);
    assert GraphNodes([Ssa(h)]) by { OneNode(h); }
    WrongAnchorIff(index, [Ssa(h)], f);
  }

  lemma OneNode(h: FqnKey)
    requires ValidFunction(h)
    ensures GraphNodes([Ssa(h)])
  {
    hide Parse, Ssa, ValidFunction;
  }

  lemma TwinExample(h: FqnKey, f: FqnKey)
    requires h == FqnKey("x/yaml.v3", "", false, "T") && f == FqnKey("x/yaml", "v3", false, "T")
    ensures ValidFunction(h) && ValidFunction(f) && Collide(f, h)
  {
    hide LastIndex, Split, Find, Dotted, ClosureName, AnyClosureName, PackagePath;
    CleanYaml();
    assert h.pkg == f.pkg + ("." + f.recv);
    assert !ClosureName("T") && !ClosureName("v3") by { ShortNames(); }
    assert PackagePath(h.pkg) && PackagePath(f.pkg) by { YamlPaths(); }
  }

  lemma CleanYaml()
    ensures !Dotted("x/yaml") && !AnyClosureName(Split("x/yaml")[1..])
  {
    hide LastIndex, Split, Find;
    var pkg := "x/yaml";
    assert pkg == "x" + ['/'] + "yaml";
    LastIndexAt("x", '/', "yaml");
    assert pkg[2..] == "yaml";
    SplitWhole(pkg);
    NoneClosureName(Split(pkg)[1..]);
  }

  lemma ShortNames()
    ensures !ClosureName("T") && !ClosureName("v3")
  {
  }

  lemma YamlPaths()
    ensures PackagePath("x/yaml.v3") && PackagePath("x/yaml")
  {
  }
}
