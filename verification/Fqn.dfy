/**
 * Reconciling the two spellings of a function: the one the static graph carries and the one the
 * runtime reports. Both parse to the same key, or to no key at all.
 */
module Fqn {
  import opened Text

  // ---- string helpers ----

  /** `strings.LastIndexByte`. */
  function LastIndex(s: string, c: char): (i: int)
    ensures -1 <= i < |s|
  {
    if s == "" then -1 else if s[|s| - 1] == c then |s| - 1 else LastIndex(s[..|s| - 1], c)
  }

  predicate EndsWith(s: string, t: string) {
    |s| >= |t| && s[|s| - |t|..] == t
  }

  /** The pieces between the dots. */
  function Split(s: string): (parts: seq<string>)
    ensures |parts| >= 1
    decreases |s|
  {
    var k := Find(s, ".");
    if k == |s| then [s] else [s[..k]] + Split(s[k + 1..])
  }

  // ---- runtime closures ----

  function DigitLen(s: string): (d: nat)
    ensures d <= |s|
    ensures forall i :: 0 <= i < d ==> IsDigit(s[i])
    ensures d < |s| ==> !IsDigit(s[d])
  {
    if s != "" && IsDigit(s[0]) then 1 + DigitLen(s[1..]) else 0
  }

  /** "func" and digits, up to a dot or the end. */
  predicate StartsClosure(s: string) {
    "func" <= s && DigitLen(s[4..]) > 0 && (4 + DigitLen(s[4..]) == |s| || s[4 + DigitLen(s[4..])] == '.')
  }

  predicate ClosureAt(s: string, i: nat) {
    i < |s| && s[i] == '.' && StartsClosure(s[i + 1..])
  }

  predicate HasClosure(s: string) {
    exists i :: 0 <= i < |s| && ClosureAt(s, i)
  }

  method SkipDigits(raw: string, start: nat) returns (j: nat)
    requires start <= |raw|
    ensures j == start + DigitLen(raw[start..])
  {
    j := start;
    while j < |raw| && '0' <= raw[j] <= '9'
      invariant start <= j <= |raw|
      invariant j + DigitLen(raw[j..]) == start + DigitLen(raw[start..])
    {
      assert raw[j..][1..] == raw[j + 1..];
      j := j + 1;
    }
  }

  /** `hasRuntimeClosure`. */
  method HasRuntimeClosure(raw: string) returns (found: bool)
    ensures found <==> HasClosure(raw)
  {
    hide ClosureAt, DigitLen, Find;
    var from := 0;
    while true
      invariant 0 <= from <= |raw|
      invariant forall k :: 0 <= k < from ==> !ClosureAt(raw, k)
      decreases |raw| - from
    {
      var i := IndexFrom(raw, from, ".func");
      NoneBefore(raw, from, i);
      if from + i == |raw| {
        return false;
      }
      var j := SkipDigits(raw, from + i + 5);
      MarkerAt(raw, from + i);
      if j > from + i + 5 && (j == |raw| || raw[j] == '.') {
        return true;
      }
      InsideMarker(raw, from + i);
      from := from + i + 5;
    }
  }

  lemma ClosureHasMarker(raw: string, k: nat)
    requires ClosureAt(raw, k)
    ensures ".func" <= raw[k..]
  {
    assert raw[k + 1..][..4] == "func";
    assert raw[k..] == [raw[k]] + raw[k + 1..];
    assert raw[k..][..5] == ".func";
  }

  lemma NoneBefore(raw: string, from: nat, i: nat)
    requires from <= |raw| && i == Find(raw[from..], ".func")
    ensures from + i <= |raw|
    ensures forall k :: from <= k < from + i ==> !ClosureAt(raw, k)
    ensures from + i < |raw| ==> from + i + 5 <= |raw| && raw[from + i..from + i + 5] == ".func"
  {
    hide ClosureAt, Find;
    var s := raw[from..];
    FindFits(s, ".func");
    forall k | from <= k < from + i ensures !ClosureAt(raw, k) {
      assert !(".func" <= s[k - from..]) && s[k - from..] == raw[k..];
      if ClosureAt(raw, k) { ClosureHasMarker(raw, k); }
    }
    if from + i < |raw| {
      assert s[i..] == raw[from + i..];
      NoPrefix(raw, from + i, ".func");
    }
  }

  /** At an occurrence of the marker, a closure is decided by what follows. */
  lemma MarkerAt(raw: string, i: nat)
    requires i + 5 <= |raw| && raw[i..i + 5] == ".func"
    ensures raw[i] == '.' && "func" <= raw[i + 1..] && raw[i + 1..][4..] == raw[i + 5..]
    ensures var d := DigitLen(raw[i + 5..]);
            ClosureAt(raw, i) <==> d > 0 && (i + 5 + d == |raw| || raw[i + 5 + d] == '.')
  {
    assert raw[i] == raw[i..i + 5][0] == '.';
    assert raw[i + 1..][..4] == raw[i..i + 5][1..] == "func";
  }

  lemma InsideMarker(raw: string, i: nat)
    requires i + 5 <= |raw| && raw[i..i + 5] == ".func"
    ensures forall k :: i < k < i + 5 ==> !ClosureAt(raw, k)
  {
    forall k | i < k < i + 5 ensures raw[k] != '.' {
      assert raw[k] == ".func"[k - i];
    }
  }

  // ---- the parser ----

  datatype FqnKey = FqnKey(pkg: string, recv: string, ptr: bool, name: string)

  datatype Reason = Empty | Generic | SsaSynthetic | MethodValue | RuntimeClosure | MalformedReceiver | MalformedName
                  | MalformedPointer | PackageInit | DottedValueMethod | NoSeparator | MalformedSymbol | AmbiguousSymbol

  datatype Parsed = Keyed(key: FqnKey) | Bottom(reason: Reason)

  predicate ValidSegment(s: string) {
    s != "" && forall c :: c in s ==> c != '(' && c != ')' && c != '*' && c != '.' && c != '/'
  }

  function FinalSegment(pkg: string): string {
    pkg[LastIndex(pkg, '/') + 1..]
  }

  predicate Dotted(pkg: string) {
    '.' in FinalSegment(pkg)
  }

  /** "(recv).Name" and "(*recv).Name", the receiver path split at its last dot. */
  function ParseParenthesized(raw: string): Parsed
    requires raw != "" && raw[0] == '('
  {
    var idx := Find(raw, ").");
    if idx == |raw| then Bottom(MalformedReceiver)
    else
      FindFits(raw, ").");
      assert |raw[idx..]| >= 2 && raw[idx] == ')';
      var inner, name := raw[1..idx], raw[idx + 2..];
      if name == "" || '.' in name || '(' in name then Bottom(MalformedName)
      else
        var ptr := "*" <= inner;
        var path := if ptr then inner[1..] else inner;
        var dot := LastIndex(path, '.');
        if dot < 0 then Bottom(MalformedReceiver)
        else
          var pkg, recv := path[..dot], path[dot + 1..];
          if pkg == "" || !ValidSegment(recv) || !ValidSegment(name) then Bottom(MalformedReceiver)
          else if name == "init" then Bottom(PackageInit)
          else if !ptr && Dotted(pkg) then Bottom(DottedValueMethod)
          else Keyed(FqnKey(pkg, recv, ptr, name))
  }

  /** "pkg.(*Type).Name", where ".(*" was found at `i`. */
  function ParsePointer(raw: string, i: nat): Parsed
    requires i + 3 <= |raw|
  {
    var pkg, rest := raw[..i], raw[i + 3..];
    var j := Find(rest, ").");
    if j == |rest| then Bottom(MalformedPointer)
    else
      FindFits(rest, ").");
      assert |rest[j..]| >= 2;
      var recv, name := rest[..j], rest[j + 2..];
      if pkg == "" || !ValidSegment(recv) || !ValidSegment(name) then Bottom(MalformedPointer)
      else if name == "init" then Bottom(PackageInit)
      else Keyed(FqnKey(pkg, recv, true, name))
  }

  /** Position of the first dot after the last slash, or the length. */
  function PackageCut(s: string): (cut: nat)
    ensures cut <= |s|
  {
    var slash := LastIndex(s, '/');
    slash + 1 + Find(s[slash + 1..], ".")
  }

  /** "pkg.Name" and "pkg.Type.Name". */
  function ParsePlain(raw: string): Parsed {
    var cut := PackageCut(raw);
    if cut == |raw| || cut == 0 then Bottom(NoSeparator)
    else
      var pkg, parts := raw[..cut], Split(raw[cut + 1..]);
      if |parts| == 1 then
        if !ValidSegment(parts[0]) then Bottom(MalformedSymbol)
        else if parts[0] == "init" then Bottom(PackageInit)
        else Keyed(FqnKey(pkg, "", false, parts[0]))
      else if |parts| == 2 then
        if !ValidSegment(parts[0]) || !ValidSegment(parts[1]) then Bottom(MalformedSymbol)
        else if parts[1] == "init" then Bottom(PackageInit)
        else Keyed(FqnKey(pkg, parts[0], false, parts[1]))
      else Bottom(AmbiguousSymbol)
  }

  function ParseShape(raw: string): Parsed
    requires raw != ""
  {
    if raw[0] == '(' then ParseParenthesized(raw)
    else
      var i := Find(raw, ".(*");
      if i < |raw| then
        FindFits(raw, ".(*");
        assert |raw[i..]| >= 3;
        ParsePointer(raw, i)
      else ParsePlain(raw)
  }

  /** `parseFQN`: total, and without a guess: a key or the reason there is none. */
  function Parse(text: string): Parsed {
    var raw := Trim(text);
    if raw == "" then Bottom(Empty)
    else if '[' in raw then Bottom(Generic)
    else if '$' in raw then Bottom(SsaSynthetic)
    else if EndsWith(raw, "-fm") then Bottom(MethodValue)
    else if HasClosure(raw) then Bottom(RuntimeClosure)
    else ParseShape(raw)
  }

  // ---- functions and their spellings ----

  predicate IsLetter(c: char) { c == '_' || 'a' <= c <= 'z' || 'A' <= c <= 'Z' }

  predicate Identifier(s: string) {
    s != "" && IsLetter(s[0]) && forall i :: 0 <= i < |s| ==> IsLetter(s[i]) || IsDigit(s[i])
  }

  /** A package path: no brackets, stars, dollars or blanks. */
  predicate PackagePath(s: string) {
    s != "" && forall i :: 0 <= i < |s| ==>
      s[i] != '(' && s[i] != ')' && s[i] != '[' && s[i] != ']' && s[i] != '*' && s[i] != '$' && !IsWhite(s[i])
  }

  /** A function is what its key says it is: package, receiver type (or none), and name. */
  predicate ValidFunction(f: FqnKey) {
    && PackagePath(f.pkg) && Identifier(f.name)
    && (if f.recv == "" then !f.ptr else Identifier(f.recv))
  }

  /** The spelling on a graph node. */
  function Ssa(f: FqnKey): string {
    if f.recv == "" then f.pkg + "." + f.name
    else if f.ptr then "(*" + f.pkg + "." + f.recv + ")." + f.name
    else "(" + f.pkg + "." + f.recv + ")." + f.name
  }

  /** The spelling in a capture tag. */
  function Runtime(f: FqnKey): string {
    if f.recv == "" then f.pkg + "." + f.name
    else if f.ptr then f.pkg + ".(*" + f.recv + ")." + f.name
    else f.pkg + "." + f.recv + "." + f.name
  }

  /** An identifier that reads like a closure suffix. */
  predicate ClosureName(s: string) {
    |s| > 4 && "func" <= s && forall i :: 4 <= i < |s| ==> IsDigit(s[i])
  }

  predicate AnyClosureName(parts: seq<string>) {
    exists k :: 0 <= k < |parts| && ClosureName(parts[k])
  }

  /** The functions that have a key at all. */
  predicate Reconcilable(f: FqnKey) {
    && f.name != "init" && !ClosureName(f.name)
    && !AnyClosureName(Split(f.pkg)[1..])
    && (f.recv != "" && !f.ptr ==> !Dotted(f.pkg))
  }

  predicate ValueReceiver(f: FqnKey) {
    f.recv != "" && !f.ptr
  }

  /** Both spellings give the same key, or neither gives one. */
  predicate Agree(a: Parsed, b: Parsed) {
    if a.Keyed? then a == b else b.Bottom?
  }
}
