/** Orders, stable sorting and permutations: what the repository takes from Go's `sort` package. */
module Sorting {

  /** Go's string `<`: byte-wise lexicographic order. */
  predicate StrLess(a: string, b: string) {
    b != [] && (a == [] || a[0] < b[0] || (a[0] == b[0] && StrLess(a[1..], b[1..])))
  }

  lemma {:induction false} StrLessAsymmetric(a: string, b: string)
    requires StrLess(a, b)
    ensures !StrLess(b, a)
  {
    if a != [] && a[0] == b[0] {
      StrLessAsymmetric(a[1..], b[1..]);
    }
  }

  lemma {:induction false} StrLessCotransitive(a: string, b: string, c: string)
    requires StrLess(a, c)
    ensures StrLess(a, b) || StrLess(b, c)
  {
    if a != [] && b != [] && a[0] == b[0] == c[0] {
      StrLessCotransitive(a[1..], b[1..], c[1..]);
    }
  }

  lemma {:induction false} StrLessConnected(a: string, b: string)
    requires a != b
    ensures StrLess(a, b) || StrLess(b, a)
  {
    if a != [] && b != [] && a[0] == b[0] {
      assert a[1..] != b[1..] by {
        assert a == [a[0]] + a[1..] && b == [b[0]] + b[1..];
      }
      StrLessConnected(a[1..], b[1..]);
    }
  }

  /** The first place where two strings differ decides, and a proper prefix comes first. */
  ghost predicate BytesBefore(a: string, b: string) {
    exists k: nat :: Splits(a, b, k)
  }

  ghost predicate Splits(a: string, b: string, k: nat) {
    && k <= |a| && k < |b| && a[..k] == b[..k]
    && (k == |a| || a[k] < b[k])
  }

  lemma {:induction false} StrLessIff(a: string, b: string)
    ensures StrLess(a, b) <==> BytesBefore(a, b)
  {
    if a == [] {
      if b != [] { assert Splits(a, b, 0); }
    } else if b != [] && a[0] == b[0] {
      StrLessIff(a[1..], b[1..]);
      if k: nat :| Splits(a[1..], b[1..], k) {
        assert a[..k + 1] == [a[0]] + a[1..][..k] && b[..k + 1] == [b[0]] + b[1..][..k];
        assert Splits(a, b, k + 1);
      }
      if k: nat :| Splits(a, b, k) {
        assert k > 0;
        assert a[1..][..k - 1] == a[..k][1..] && b[1..][..k - 1] == b[..k][1..];
        assert Splits(a[1..], b[1..], k - 1);
      }
    } else if b != [] {
      if a[0] < b[0] { assert Splits(a, b, 0); }
      if k: nat :| Splits(a, b, k) {
        if k > 0 { assert a[..k][0] == b[..k][0]; }
      }
    }
  }

  lemma StrIrreflexive(s: string)
    ensures !StrLess(s, s)
  {
    if StrLess(s, s) { StrLessAsymmetric(s, s); }
  }

  /** Of two lists of texts, the first that differs decides. */
  ghost predicate FirstDiffers(a: seq<string>, b: seq<string>) {
    exists k: nat :: k < |a| && k < |b| && a[..k] == b[..k] && BytesBefore(a[k], b[k])
  }

  /** What a comparator passed to `sort.Slice` must satisfy. */
  ghost predicate StrictWeak<T(!new)>(less: (T, T) -> bool) {
    && (forall a, b :: less(a, b) ==> !less(b, a))
    && (forall a, b, c :: less(a, c) ==> less(a, b) || less(b, c))
  }

  /** Only equal values tie. */
  ghost predicate Connex<T(!new)>(less: (T, T) -> bool) {
    forall a, b :: a != b ==> less(a, b) || less(b, a)
  }

  ghost predicate Sorted<T>(s: seq<T>, less: (T, T) -> bool) {
    forall i, j :: 0 <= i < j < |s| ==> !less(s[j], s[i])
  }

  function Insert<T>(x: T, s: seq<T>, less: (T, T) -> bool): (r: seq<T>)
    ensures multiset(r) == multiset{x} + multiset(s)
  {
    if s == [] || !less(s[0], x) then [x] + s
    else
      assert s == [s[0]] + s[1..];
      [s[0]] + Insert(x, s[1..], less)
  }

  /** `sort.SliceStable`: the stable order is unique, so it is a function of the input. */
  function StableSort<T>(s: seq<T>, less: (T, T) -> bool): (r: seq<T>)
    ensures multiset(r) == multiset(s)
    ensures |r| == |s|
  {
    if s == [] then []
    else
      assert s == [s[0]] + s[1..];
      var r := Insert(s[0], StableSort(s[1..], less), less);
      SameLength(r, s);
      r
  }

  lemma {:induction false} InsertSorted<T(!new)>(x: T, s: seq<T>, less: (T, T) -> bool)
    requires StrictWeak(less) && Sorted(s, less)
    ensures Sorted(Insert(x, s, less), less)
  {
    if s == [] {
    } else if !less(s[0], x) {
      var r := [x] + s;
      forall i, j | 0 <= i < j < |r| ensures !less(r[j], r[i]) {
        if i == 0 && j > 1 {
          assert !less(s[j - 1], s[0]);
        }
      }
    } else {
      InsertSorted(x, s[1..], less);
      var t := Insert(x, s[1..], less);
      var r := [s[0]] + t;
      forall i, j | 0 <= i < j < |r| ensures !less(r[j], r[i]) {
        if i == 0 {
          assert r[j] == t[j - 1] && t[j - 1] in multiset(t);
          assert r[j] == x || r[j] in multiset(s[1..]);
        }
      }
    }
  }

  lemma {:induction false} StableSortSorted<T(!new)>(s: seq<T>, less: (T, T) -> bool)
    requires StrictWeak(less)
    ensures Sorted(StableSort(s, less), less)
  {
    if s != [] {
      StableSortSorted(s[1..], less);
      InsertSorted(s[0], StableSort(s[1..], less), less);
    }
  }

  /** What is sorted already is left as it is. */
  lemma {:induction false} SortedStays<T(!new)>(s: seq<T>, less: (T, T) -> bool)
    requires Sorted(s, less)
    ensures StableSort(s, less) == s
  {
    if s != [] {
      SortedStays(s[1..], less);
      assert s == [s[0]] + s[1..];
      if |s| > 1 { assert !less(s[1], s[0]); }
    }
  }

  lemma SameLength<T>(a: seq<T>, b: seq<T>)
    requires multiset(a) == multiset(b)
    ensures |a| == |b|
  {
    assert |multiset(a)| == |a| && |multiset(b)| == |b|;
  }

  function RemoveAt<T>(s: seq<T>, k: nat): (r: seq<T>)
    requires k < |s|
    ensures |r| == |s| - 1
  {
    s[..k] + s[k + 1..]
  }

  lemma RemoveAtMultiset<T>(s: seq<T>, k: nat)
    requires k < |s|
    ensures multiset(s) == multiset{s[k]} + multiset(RemoveAt(s, k))
  {
    assert s == s[..k] + ([s[k]] + s[k + 1..]);
  }

  /** A value of `a` found in a rearrangement of `a`, and what is left on both sides. */
  lemma MatchHead<T>(a: seq<T>, b: seq<T>) returns (k: nat)
    requires a != [] && multiset(a) == multiset(b)
    ensures k < |b| && b[k] == a[0]
    ensures multiset(a[1..]) == multiset(RemoveAt(b, k))
  {
    assert a[0] in multiset(b);
    k :| 0 <= k < |b| && b[k] == a[0];
    RemoveAtMultiset(b, k);
    RemoveAtMultiset(a, 0);
    assert RemoveAt(a, 0) == a[1..];
    assert multiset(a[1..]) == multiset(a) - multiset{a[0]};
    assert multiset(RemoveAt(b, k)) == multiset(b) - multiset{b[k]};
  }

  lemma SortedHeads<T(!new)>(a: seq<T>, b: seq<T>, less: (T, T) -> bool)
    requires Connex(less)
    requires a != [] && b != [] && a[0] in b && b[0] in a
    requires Sorted(a, less) && Sorted(b, less)
    ensures a[0] == b[0]
  {
    var i :| 0 <= i < |b| && b[i] == a[0];
    var j :| 0 <= j < |a| && a[j] == b[0];
    assert i == 0 || !less(b[i], b[0]);
    assert j == 0 || !less(a[j], a[0]);
  }

  lemma TailMultiset<T>(s: seq<T>)
    requires s != []
    ensures multiset(s[1..]) == multiset(s) - multiset{s[0]}
  {
    assert s == [s[0]] + s[1..];
  }

  /** Two sorted arrangements of the same values are the same sequence. */
  lemma {:induction false} SortedUnique<T(!new)>(a: seq<T>, b: seq<T>, less: (T, T) -> bool)
    requires Connex(less)
    requires multiset(a) == multiset(b)
    requires Sorted(a, less) && Sorted(b, less)
    ensures a == b
  {
    SameLength(a, b);
    if a != [] {
      assert a[0] in multiset(b) && b[0] in multiset(a);
      SortedHeads(a, b, less);
      TailMultiset(a);
      TailMultiset(b);
      SortedUnique(a[1..], b[1..], less);
      assert a == [a[0]] + a[1..] && b == [b[0]] + b[1..];
    }
  }

  /** No ties at all. */
  ghost predicate Strictly<T>(s: seq<T>, less: (T, T) -> bool) {
    forall i, j :: 0 <= i < j < |s| ==> less(s[i], s[j])
  }

  lemma StrictHeads<T>(a: seq<T>, b: seq<T>, less: (T, T) -> bool)
    requires a != [] && b != [] && a[0] in b && b[0] in a
    requires Strictly(a, less) && Sorted(b, less)
    ensures a[0] == b[0]
  {
    var i :| 0 <= i < |b| && b[i] == a[0];
    var j :| 0 <= j < |a| && a[j] == b[0];
    assert i == 0 || !less(b[i], b[0]);
  }

  /** Values in strict order have no other sorted arrangement. */
  lemma {:induction false} StrictUnique<T(!new)>(a: seq<T>, b: seq<T>, less: (T, T) -> bool)
    requires multiset(a) == multiset(b)
    requires Strictly(a, less) && Sorted(b, less)
    ensures a == b
  {
    SameLength(a, b);
    if a != [] {
      assert a[0] in multiset(b) && b[0] in multiset(a);
      StrictHeads(a, b, less);
      TailMultiset(a);
      TailMultiset(b);
      StrictUnique(a[1..], b[1..], less);
      assert a == [a[0]] + a[1..] && b == [b[0]] + b[1..];
    }
  }

  /** A canonical order forgets how the values were arranged. */
  lemma StableSortCanonical<T(!new)>(a: seq<T>, b: seq<T>, less: (T, T) -> bool)
    requires StrictWeak(less) && Connex(less)
    requires multiset(a) == multiset(b)
    ensures StableSort(a, less) == StableSort(b, less)
  {
    StableSortSorted(a, less);
    StableSortSorted(b, less);
    SortedUnique(StableSort(a, less), StableSort(b, less), less);
  }

  /** `sort.Slice`: the order of ties is left open, so callers get only "sorted, and a permutation". */
  method SortSlice<T(!new)>(s: seq<T>, less: (T, T) -> bool) returns (r: seq<T>)
    requires StrictWeak(less)
    ensures multiset(r) == multiset(s)
    ensures |r| == |s|
    ensures Sorted(r, less)
  {
    r := StableSort(s, less);
    StableSortSorted(s, less);
  }

  // ---- permutations ----

  function Map<S, T>(f: S --> T, s: seq<S>): (r: seq<T>)
    requires forall x :: x in s ==> f.requires(x)
    ensures |r| == |s|
    ensures forall i :: 0 <= i < |s| ==> r[i] == f(s[i])
  {
    seq(|s|, i requires 0 <= i < |s| => f(s[i]))
  }

  lemma {:induction false} MapMultiset<S, T>(f: S --> T, a: seq<S>, b: seq<S>)
    requires multiset(a) == multiset(b)
    requires forall x :: x in a ==> f.requires(x)
    requires forall x :: x in b ==> f.requires(x)
    ensures multiset(Map(f, a)) == multiset(Map(f, b))
  {
    SameLength(a, b);
    if a == [] {
      assert Map(f, a) == Map(f, b) == [];
    } else {
      var k := MatchHead(a, b);
      var b' := RemoveAt(b, k);
      MapMultiset(f, a[1..], b');
      assert Map(f, b') == RemoveAt(Map(f, b), k);
      assert Map(f, a[1..]) == RemoveAt(Map(f, a), 0);
      RemoveAtMultiset(Map(f, a), 0);
      RemoveAtMultiset(Map(f, b), k);
    }
  }

  function Range(n: nat): (r: seq<nat>)
    ensures |r| == n
    ensures forall i :: 0 <= i < n ==> r[i] == i
  {
    seq(n, i => i)
  }

  ghost predicate Permutation(p: seq<nat>, n: nat) {
    && |p| == n
    && (forall i :: 0 <= i < n ==> p[i] < n)
    && (forall i, j :: 0 <= i < j < n ==> p[i] != p[j])
  }

  lemma DistinctRemove<T>(s: seq<T>, k: nat)
    requires k < |s|
    requires forall i, j :: 0 <= i < j < |s| ==> s[i] != s[j]
    ensures forall i, j :: 0 <= i < j < |s| - 1 ==> RemoveAt(s, k)[i] != RemoveAt(s, k)[j]
    ensures forall x :: x in RemoveAt(s, k) <==> x in s && x != s[k]
  {
    var r := RemoveAt(s, k);
    forall x | x in s && x != s[k] ensures x in r {
      var i :| 0 <= i < |s| && s[i] == x;
      assert r[if i < k then i else i - 1] == x;
    }
  }

  lemma {:induction false} DistinctMultiset<T>(a: seq<T>, b: seq<T>)
    requires forall i, j :: 0 <= i < j < |a| ==> a[i] != a[j]
    requires forall i, j :: 0 <= i < j < |b| ==> b[i] != b[j]
    requires forall x :: x in a <==> x in b
    ensures multiset(a) == multiset(b)
  {
    if a == [] {
      DistinctSize(b);
      assert ToSet(b) == {};
    } else {
      assert a[0] in b;
      var k :| 0 <= k < |b| && b[k] == a[0];
      var b' := RemoveAt(b, k);
      DistinctRemove(b, k);
      DistinctRemove(a, 0);
      assert a[1..] == RemoveAt(a, 0);
      DistinctMultiset(a[1..], b');
      RemoveAtMultiset(a, 0);
      RemoveAtMultiset(b, k);
    }
  }

  lemma {:induction false} SubsetSize(s: set<nat>, n: nat)
    requires forall x :: x in s ==> x < n
    ensures |s| <= n
    ensures |s| == n ==> forall x: nat :: x < n ==> x in s
  {
    if n == 0 {
      assert s == {};
    } else {
      SubsetSize(s - {n - 1}, n - 1);
    }
  }

  function ToSet<T>(s: seq<T>): set<T> {
    set x | x in s
  }

  lemma {:induction false} DistinctSize<T>(s: seq<T>)
    requires forall i, j :: 0 <= i < j < |s| ==> s[i] != s[j]
    ensures |ToSet(s)| == |s|
  {
    if s == [] {
      assert ToSet(s) == {};
    } else {
      DistinctSize(s[1..]);
      assert s == [s[0]] + s[1..];
      assert ToSet(s) == {s[0]} + ToSet(s[1..]);
      assert s[0] !in ToSet(s[1..]);
    }
  }

  lemma PermutationOnto(p: seq<nat>, n: nat)
    requires Permutation(p, n)
    ensures multiset(p) == multiset(Range(n))
    ensures forall x: nat :: x < n ==> x in p
  {
    DistinctSize(p);
    SubsetSize(ToSet(p), n);
    forall x ensures x in p <==> x in Range(n) {
      if x in Range(n) { assert x in ToSet(p); }
      if x in p {
        assert Range(n)[x] == x;
      }
    }
    DistinctMultiset(p, Range(n));
    forall x: nat | x < n ensures x in p {
      assert x in ToSet(p);
    }
  }

  /** Values matched by a permutation of positions form the same multiset. */
  lemma PermutationMultiset<T>(a: seq<T>, b: seq<T>, p: seq<nat>)
    requires |a| == |b| && Permutation(p, |a|)
    requires forall i :: 0 <= i < |a| ==> a[i] == b[p[i]]
    ensures multiset(a) == multiset(b)
  {
    PermutationOnto(p, |a|);
    var f := (i: nat) requires i < |b| => b[i];
    MapMultiset(f, p, Range(|a|));
    assert Map(f, p) == a && Map(f, Range(|a|)) == b;
  }

  /** Equal multisets come from a permutation of positions. */
  lemma {:induction false} FindPermutation<T>(a: seq<T>, b: seq<T>) returns (p: seq<nat>)
    requires multiset(a) == multiset(b)
    ensures |a| == |b| && Permutation(p, |a|)
    ensures forall i :: 0 <= i < |a| ==> a[i] == b[p[i]]
  {
    SameLength(a, b);
    if a == [] {
      p := [];
    } else {
      var k := MatchHead(a, b);
      var b' := RemoveAt(b, k);
      var q := FindPermutation(a[1..], b');
      p := [k] + seq(|q|, i requires 0 <= i < |q| => if q[i] < k then q[i] else q[i] + 1);
      forall i | 0 <= i < |a| ensures a[i] == b[p[i]] && p[i] < |a| {
        if i > 0 { assert a[i] == a[1..][i - 1] == b'[q[i - 1]]; }
      }
    }
  }

  // ---- `sort.Strings` over a set of keys ----

  ghost predicate Distinct(keys: seq<string>) {
    forall i, j :: 0 <= i < j < |keys| ==> keys[i] != keys[j]
  }

  ghost function Listing(keys: set<string>): (r: seq<string>)
    ensures forall k :: k in r <==> k in keys
    ensures forall i, j :: 0 <= i < j < |r| ==> r[i] != r[j]
  {
    if keys == {} then [] else var k :| k in keys; [k] + Listing(keys - {k})
  }

  /** The keys in byte order. */
  ghost function InOrder(keys: set<string>): seq<string> {
    StableSort(Listing(keys), StrLess)
  }

  lemma KeysListed(keys: set<string>)
    ensures |InOrder(keys)| == 0 <==> keys == {}
  {
    if keys != {} {
      var k :| k in keys;
      assert k in Listing(keys);
    }
  }

  lemma StrOrder()
    ensures StrictWeak(StrLess) && Connex(StrLess)
  {
    forall a, b | StrLess(a, b) ensures !StrLess(b, a) { StrLessAsymmetric(a, b); }
    forall a, b, c | StrLess(a, c) ensures StrLess(a, b) || StrLess(b, c) { StrLessCotransitive(a, b, c); }
    forall a: string, b: string | a != b ensures StrLess(a, b) || StrLess(b, a) { StrLessConnected(a, b); }
  }

  /** Sorting distinct keys gives the one byte order of their set, however they were met. */
  lemma SortedKeys(keys: seq<string>)
    requires Distinct(keys)
    ensures StableSort(keys, StrLess) == InOrder(ToSet(keys))
  {
    StrOrder();
    DistinctMultiset(keys, Listing(ToSet(keys)));
    StableSortCanonical(keys, Listing(ToSet(keys)), StrLess);
  }

  lemma InOrderMembers(keys: set<string>)
    ensures forall k :: k in InOrder(keys) <==> k in keys
  {
    var r := InOrder(keys);
    forall k ensures k in r <==> k in keys {
      assert k in r <==> k in multiset(r);
      assert k in Listing(keys) <==> k in multiset(Listing(keys));
    }
  }

  /** Keys taken from a Go map, in whatever order, then sorted. */
  method SortedSet(keys: set<string>) returns (r: seq<string>)
    ensures r == InOrder(keys)
  {
    hide InOrder, StableSort;
    var met: seq<string> := [];
    var pending := keys;
    while pending != {}
      invariant pending <= keys && Distinct(met)
      invariant forall k :: k in met <==> k in keys && k !in pending
      decreases |pending|
    {
      var k :| k in pending;
      pending := pending - {k};
      met := met + [k];
    }
    assert ToSet(met) == keys;
    SortedKeys(met);
    r := StableSort(met, StrLess);
  }
}
