/**
 * Grouping of a sequence by a key, as Python code does it with an
 * insertion-ordered `defaultdict(list)`, and with `sorted` followed by
 * `itertools.groupby`.
 */
module Grouping {

  predicate NoDup<K(==)>(ks: seq<K>) {
    forall i, j :: 0 <= i < j < |ks| ==> ks[i] != ks[j]
  }

  function Init<T>(xs: seq<T>): seq<T>
    requires xs != []
  {
    xs[..|xs| - 1]
  }

  function Last<T>(xs: seq<T>): T
    requires xs != []
  {
    xs[|xs| - 1]
  }

  /** The distinct keys of `xs`, in order of first appearance (the key order of a `defaultdict` filled from `xs`). */
  function Keys<T, K(==)>(xs: seq<T>, key: T -> K): (ks: seq<K>)
    ensures forall i :: 0 <= i < |xs| ==> key(xs[i]) in ks
    ensures forall j :: 0 <= j < |ks| ==> exists i :: 0 <= i < |xs| && key(xs[i]) == ks[j]
    ensures NoDup(ks)
  {
    if xs == [] then []
    else
      var ks := Keys(Init(xs), key);
      var k := key(Last(xs));
      assert forall i :: 0 <= i < |xs| - 1 ==> Init(xs)[i] == xs[i];
      if k in ks then ks else ks + [k]
  }

  /** The elements of `xs` whose key is `k`, in input order (the list a `defaultdict` holds under `k`). */
  function WithKey<T(==), K(==)>(xs: seq<T>, key: T -> K, k: K): (r: seq<T>)
    ensures |r| <= |xs|
  {
    if xs == [] then []
    else if key(Last(xs)) == k then WithKey(Init(xs), key, k) + [Last(xs)]
    else WithKey(Init(xs), key, k)
  }

  /** `WithKey` keeps exactly the elements that have the key. */
  lemma {:induction false} WithKeyMembers<T, K>(xs: seq<T>, key: T -> K, k: K)
    ensures forall x :: x in WithKey(xs, key, k) ==> x in xs && key(x) == k
    ensures forall i :: 0 <= i < |xs| && key(xs[i]) == k ==> xs[i] in WithKey(xs, key, k)
  {
    if xs != [] {
      WithKeyMembers(Init(xs), key, k);
      assert xs == Init(xs) + [Last(xs)];
    }
  }

  lemma {:induction false} WithKeyAppend<T, K>(xs: seq<T>, ys: seq<T>, key: T -> K, k: K)
    ensures WithKey(xs + ys, key, k) == WithKey(xs, key, k) + WithKey(ys, key, k)
    decreases |ys|
  {
    if ys != [] {
      assert Init(xs + ys) == xs + Init(ys);
      assert Last(xs + ys) == Last(ys);
      WithKeyAppend(xs, Init(ys), key, k);
    } else {
      assert xs + ys == xs;
    }
  }

  lemma WithKeySnoc<T, K>(xs: seq<T>, x: T, key: T -> K, k: K)
    ensures WithKey(xs + [x], key, k) == WithKey(xs, key, k) + (if key(x) == k then [x] else [])
  {
    assert Init(xs + [x]) == xs;
  }

  /** Filtering first by a weaker key changes nothing that a stronger filter keeps. */
  lemma {:induction false} WithKeyNarrow<T, K1, K2>(xs: seq<T>, key1: T -> K1, k1: K1, key2: T -> K2, k2: K2)
    requires forall i :: 0 <= i < |xs| && key2(xs[i]) == k2 ==> key1(xs[i]) == k1
    ensures WithKey(WithKey(xs, key1, k1), key2, k2) == WithKey(xs, key2, k2)
  {
    if xs != [] {
      WithKeyNarrow(Init(xs), key1, k1, key2, k2);
      if key1(Last(xs)) == k1 {
        WithKeySnoc(WithKey(Init(xs), key1, k1), Last(xs), key2, k2);
      }
    }
  }

  lemma EmptyAppend<T>(s: seq<T>)
    ensures [] + s == s
  {
  }

  lemma SnocAssoc<T>(a: seq<T>, b: seq<T>, x: T)
    ensures a + (b + [x]) == a + b + [x]
  {
  }

  lemma PointwiseEqual<T>(a: seq<T>, b: seq<T>)
    requires |a| == |b| && forall i :: 0 <= i < |a| ==> a[i] == b[i]
    ensures a == b
  {
  }

  lemma WithKeyAbsent<T, K>(xs: seq<T>, key: T -> K, k: K)
    requires k !in Keys(xs, key)
    ensures WithKey(xs, key, k) == []
  {
    WithKeyMembers(xs, key, k);
  }

  /** The group of each key of `ks`, in the order of `ks`. */
  function GroupsAt<T(==), K(==)>(ks: seq<K>, xs: seq<T>, key: T -> K): (gs: seq<seq<T>>)
    ensures |gs| == |ks|
    ensures forall i :: 0 <= i < |ks| ==> gs[i] == WithKey(xs, key, ks[i])
  {
    if ks == [] then [] else [WithKey(xs, key, ks[0])] + GroupsAt(ks[1..], xs, key)
  }

  /** The groups Python builds from `xs`: one per distinct key, in first-appearance order. */
  function GroupsOf<T(==), K(==)>(xs: seq<T>, key: T -> K): seq<seq<T>> {
    GroupsAt(Keys(xs, key), xs, key)
  }

  function Flatten<T>(ss: seq<seq<T>>): (r: seq<T>) {
    if ss == [] then [] else ss[0] + Flatten(ss[1..])
  }

  lemma {:induction false} FlattenSnoc<T>(ss: seq<seq<T>>, s: seq<T>)
    ensures Flatten(ss + [s]) == Flatten(ss) + s
  {
    if ss != [] {
      assert (ss + [s])[1..] == ss[1..] + [s];
      FlattenSnoc(ss[1..], s);
    }
  }

  lemma {:induction false} FlattenGroupsStep<T, K>(ks: seq<K>, xs: seq<T>, x: T, key: T -> K)
    requires NoDup(ks)
    ensures multiset(Flatten(GroupsAt(ks, xs + [x], key)))
         == multiset(Flatten(GroupsAt(ks, xs, key))) + (if key(x) in ks then multiset{x} else multiset{})
  {
    if ks != [] {
      assert Init(xs + [x]) == xs;
      assert NoDup(ks[1..]);
      FlattenGroupsStep(ks[1..], xs, x, key);
    }
  }

  lemma {:induction false} GroupsAtSnoc<T, K>(ks: seq<K>, k: K, xs: seq<T>, key: T -> K)
    ensures GroupsAt(ks + [k], xs, key) == GroupsAt(ks, xs, key) + [WithKey(xs, key, k)]
  {
  }

  /**
   * Regrouping keeps every element exactly once: concatenating the groups
   * gives a permutation of the input.
   */
  lemma {:induction false} GroupsArePermutation<T, K>(xs: seq<T>, key: T -> K)
    ensures multiset(Flatten(GroupsOf(xs, key))) == multiset(xs)
    ensures |Flatten(GroupsOf(xs, key))| == |xs|
  {
    if xs != [] {
      var xs', x := Init(xs), Last(xs);
      assert xs == xs' + [x];
      GroupsArePermutation(xs', key);
      var ks' := Keys(xs', key);
      FlattenGroupsStep(ks', xs', x, key);
      if key(x) !in ks' {
        GroupsAtSnoc(ks', key(x), xs, key);
        FlattenSnoc(GroupsAt(ks', xs, key), WithKey(xs, key, key(x)));
        WithKeyAbsent(xs', key, key(x));
      }
    }
    assert |multiset(Flatten(GroupsOf(xs, key)))| == |multiset(xs)|;
  }

  // ---------------------------------------------------------------------
  // Python's `sorted(xs, key=...)` with string keys, and `itertools.groupby`.
  // ---------------------------------------------------------------------

  /** Python's `<` on `str`: lexicographic order of code points, a proper prefix being smaller. */
  predicate StrLess(a: string, b: string) {
    if a == [] then b != []
    else if b == [] then false
    else if a[0] == b[0] then StrLess(a[1..], b[1..])
    else a[0] < b[0]
  }

  lemma {:induction false} StrLessIrreflexive(a: string)
    ensures !StrLess(a, a)
  {
    if a != [] {
      StrLessIrreflexive(a[1..]);
    }
  }

  lemma {:induction false} StrLessTransitive(a: string, b: string, c: string)
    requires StrLess(a, b) && StrLess(b, c)
    ensures StrLess(a, c)
  {
    if a != [] && b != [] && c != [] && a[0] == b[0] && b[0] == c[0] {
      StrLessTransitive(a[1..], b[1..], c[1..]);
    }
  }

  lemma {:induction false} StrLessTotal(a: string, b: string)
    requires a != b
    ensures StrLess(a, b) || StrLess(b, a)
  {
    if a != [] && b != [] && a[0] == b[0] {
      assert a == [a[0]] + a[1..] && b == [b[0]] + b[1..];
      StrLessTotal(a[1..], b[1..]);
    }
  }

  predicate SortedByKey<T>(ys: seq<T>, key: T -> string) {
    forall i, j :: 0 <= i < j < |ys| ==> !StrLess(key(ys[j]), key(ys[i]))
  }

  /** Insert `x` after every element of `s` whose key is not greater than its own. */
  function InsertByKey<T>(s: seq<T>, x: T, key: T -> string): (r: seq<T>)
    ensures |r| == |s| + 1
  {
    if s == [] then [x]
    else if StrLess(key(x), key(Last(s))) then InsertByKey(Init(s), x, key) + [Last(s)]
    else s + [x]
  }

  /** Python's `sorted(xs, key=key)`: a stable sort, realised as insertion sort. */
  function SortByKey<T>(xs: seq<T>, key: T -> string): (r: seq<T>)
    ensures |r| == |xs|
  {
    if xs == [] then [] else InsertByKey(SortByKey(Init(xs), key), Last(xs), key)
  }

  lemma {:induction false} InsertByKeyPermutes<T>(s: seq<T>, x: T, key: T -> string)
    ensures multiset(InsertByKey(s, x, key)) == multiset(s) + multiset{x}
  {
    if s != [] && StrLess(key(x), key(Last(s))) {
      InsertByKeyPermutes(Init(s), x, key);
      assert s == Init(s) + [Last(s)];
    }
  }

  /** Sorting only reorders. */
  lemma {:induction false} SortByKeyPermutes<T>(xs: seq<T>, key: T -> string)
    ensures multiset(SortByKey(xs, key)) == multiset(xs)
  {
    if xs != [] {
      SortByKeyPermutes(Init(xs), key);
      InsertByKeyPermutes(SortByKey(Init(xs), key), Last(xs), key);
      assert xs == Init(xs) + [Last(xs)];
    }
  }

  lemma {:induction false} InsertByKeySorted<T>(s: seq<T>, x: T, key: T -> string)
    requires SortedByKey(s, key)
    ensures SortedByKey(InsertByKey(s, x, key), key)
  {
    if s != [] && StrLess(key(x), key(Last(s))) {
      var s', l := Init(s), Last(s);
      assert SortedByKey(s', key);
      InsertByKeySorted(s', x, key);
      InsertByKeyPermutes(s', x, key);
      var r' := InsertByKey(s', x, key);
      forall y | y in r' ensures !StrLess(key(l), key(y)) {
        assert y in multiset(r');
        if y == x {
          if StrLess(key(l), key(x)) { StrLessTransitive(key(l), key(x), key(l)); StrLessIrreflexive(key(l)); }
        } else {
          assert y in multiset(s');
          var i :| 0 <= i < |s'| && s'[i] == y;
          assert s[i] == y;
        }
      }
      var r := r' + [l];
      forall i, j | 0 <= i < j < |r| ensures !StrLess(key(r[j]), key(r[i])) {
        if j == |r| - 1 {
          assert r[i] in r';
        }
      }
    } else if s != [] {
      var r := s + [x];
      forall i, j | 0 <= i < j < |r| ensures !StrLess(key(r[j]), key(r[i])) {
        if j == |r| - 1 && StrLess(key(x), key(s[i])) {
          if i < |s| - 1 {
            assert !StrLess(key(Last(s)), key(s[i]));
            if key(s[i]) != key(Last(s)) {
              StrLessTotal(key(s[i]), key(Last(s)));
              StrLessTransitive(key(x), key(s[i]), key(Last(s)));
            }
          }
        }
      }
    }
  }

  lemma {:induction false} SortByKeySorted<T>(xs: seq<T>, key: T -> string)
    ensures SortedByKey(SortByKey(xs, key), key)
  {
    if xs != [] {
      SortByKeySorted(Init(xs), key);
      InsertByKeySorted(SortByKey(Init(xs), key), Last(xs), key);
    }
  }

  /** Moving `l` behind `x` does not reorder elements of one key when the two keys differ. */
  lemma SwapDistinctKeys<T>(r: seq<T>, s: seq<T>, x: T, l: T, key: T -> string, k: string)
    requires key(x) != key(l)
    requires WithKey(r, key, k) == WithKey(s + [x], key, k)
    ensures WithKey(r + [l], key, k) == WithKey(s + [l] + [x], key, k)
  {
    assert Init(r + [l]) == r;
    assert Init(s + [x]) == s;
    assert Init(s + [l] + [x]) == s + [l];
    assert Init(s + [l]) == s;
  }

  /** The insertion never moves `x` in front of an element with the same key. */
  lemma {:induction false} InsertByKeyStable<T>(s: seq<T>, x: T, key: T -> string, k: string)
    ensures WithKey(InsertByKey(s, x, key), key, k) == WithKey(s + [x], key, k)
  {
    if s != [] && StrLess(key(x), key(Last(s))) {
      var s', l := Init(s), Last(s);
      InsertByKeyStable(s', x, key, k);
      StrLessIrreflexive(key(x));
      SwapDistinctKeys(InsertByKey(s', x, key), s', x, l, key, k);
      assert InsertByKey(s, x, key) == InsertByKey(s', x, key) + [l];
      assert s == s' + [l];
    }
  }

  /** Sorting keeps, for every key, the elements with that key in their input order. */
  lemma {:induction false} SortByKeyStable<T>(xs: seq<T>, key: T -> string, k: string)
    ensures WithKey(SortByKey(xs, key), key, k) == WithKey(xs, key, k)
  {
    if xs != [] {
      var xs', x := Init(xs), Last(xs);
      var sorted' := SortByKey(xs', key);
      SortByKeyStable(xs', key, k);
      InsertByKeyStable(sorted', x, key, k);
      assert SortByKey(xs, key) == InsertByKey(sorted', x, key);
      WithKeySnoc(sorted', x, key, k);
      WithKeySnoc(xs', x, key, k);
      assert xs == xs' + [x];
    }
  }

  /** Length of the longest prefix of `ys` whose elements all have key `k`. */
  function RunLength<T, K(==)>(ys: seq<T>, key: T -> K, k: K): (n: nat)
    ensures n <= |ys|
    ensures forall i :: 0 <= i < n ==> key(ys[i]) == k
    ensures n < |ys| ==> key(ys[n]) != k
  {
    if ys == [] || key(ys[0]) != k then 0 else 1 + RunLength(ys[1..], key, k)
  }

  /** `itertools.groupby(ys, key)`: maximal runs of consecutive elements with equal keys. */
  function ConsecutiveGroups<T, K(==)>(ys: seq<T>, key: T -> K): seq<(K, seq<T>)>
    decreases |ys|
  {
    if ys == [] then []
    else
      var k := key(ys[0]);
      var n := RunLength(ys, key, k);
      [(k, ys[..n])] + ConsecutiveGroups(ys[n..], key)
  }

  /** A dict comprehension over `(key, group)` pairs: a later pair overrides an earlier one. */
  function PairsToMap<K(==), V>(ps: seq<(K, V)>): map<K, V> {
    if ps == [] then map[] else map[ps[0].0 := ps[0].1] + PairsToMap(ps[1..])
  }

  lemma SortedSuffix<T>(ys: seq<T>, key: T -> string, n: nat)
    requires SortedByKey(ys, key) && n <= |ys|
    ensures SortedByKey(ys[n..], key)
  {
    var rest := ys[n..];
    forall i, j | 0 <= i < j < |rest| ensures !StrLess(key(rest[j]), key(rest[i])) {
      assert rest[i] == ys[n + i] && rest[j] == ys[n + j];
    }
  }

  /** In a sorted sequence, no element after the first run has the run's key. */
  lemma AfterRunKeysDiffer<T>(ys: seq<T>, key: T -> string, n: nat)
    requires SortedByKey(ys, key) && ys != []
    requires n == RunLength(ys, key, key(ys[0]))
    ensures forall i :: n <= i < |ys| ==> key(ys[i]) != key(ys[0])
  {
    if n < |ys| {
      var k0, kn := key(ys[0]), key(ys[n]);
      assert !StrLess(kn, k0);
      StrLessTotal(kn, k0);
      assert StrLess(k0, kn);
      forall i | n < i < |ys| ensures key(ys[i]) != k0 {
        assert !StrLess(key(ys[i]), kn);
      }
    }
  }

  /** On a sorted sequence, `groupby` finds each key once, with all the elements that have it. */
  lemma {:induction false} GroupSortedRuns<T>(ys: seq<T>, key: T -> string)
    requires SortedByKey(ys, key)
    ensures forall k :: k in PairsToMap(ConsecutiveGroups(ys, key)) <==> WithKey(ys, key, k) != []
    ensures forall k :: k in PairsToMap(ConsecutiveGroups(ys, key)) ==>
      PairsToMap(ConsecutiveGroups(ys, key))[k] == WithKey(ys, key, k)
    decreases |ys|
  {
    if ys != [] {
      var k0 := key(ys[0]);
      var n := RunLength(ys, key, k0);
      var run, rest := ys[..n], ys[n..];
      assert ys == run + rest;
      SortedSuffix(ys, key, n);
      GroupSortedRuns(rest, key);
      AfterRunKeysDiffer(ys, key, n);
      var m' := PairsToMap(ConsecutiveGroups(rest, key));
      var m := PairsToMap(ConsecutiveGroups(ys, key));
      assert m == map[k0 := run] + m';
      assert WithKey(rest, key, k0) == [] by {
        forall i | 0 <= i < |rest| ensures key(rest[i]) != k0 {
          assert rest[i] == ys[n + i];
        }
        WithKeyAbsent(rest, key, k0);
      }
      assert WithKey(run, key, k0) == run by { RunIsItsGroup(run, key, k0); }
      WithKeyAppend(run, rest, key, k0);
      forall k | k != k0
        ensures (k in m <==> WithKey(ys, key, k) != []) && (k in m ==> m[k] == WithKey(ys, key, k))
      {
        WithKeyAppend(run, rest, key, k);
        WithKeyAbsent(run, key, k);
      }
    }
  }

  lemma {:induction false} RunIsItsGroup<T, K>(run: seq<T>, key: T -> K, k: K)
    requires forall i :: 0 <= i < |run| ==> key(run[i]) == k
    ensures WithKey(run, key, k) == run
  {
    if run != [] {
      RunIsItsGroup(Init(run), key, k);
      assert run == Init(run) + [Last(run)];
    }
  }
}
