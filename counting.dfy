/** `count_sequences` (minute/se_dedup.py): occurrence counts of the UMIs of one bucket. */
module Counting {
  import opened Grouping

  function Id<T>(x: T): T {
    x
  }

  /** What `count_sequences` builds: each distinct element mapped to its number of occurrences. */
  function Counts<T(==)>(xs: seq<T>): (m: map<T, nat>)
    ensures forall i :: 0 <= i < |xs| ==> xs[i] in m
    ensures forall x :: x in m ==> x in xs && m[x] == multiset(xs)[x] && m[x] > 0
  {
    map x | x in multiset(xs) :: multiset(xs)[x]
  }

  /** The dict `count_sequences` builds, as (key order, counts), one element at a time. */
  function CountFold<T(==)>(xs: seq<T>): (seq<T>, map<T, nat>) {
    if xs == [] then ([], map[])
    else
      var (order, counts) := CountFold(Init(xs));
      var x := Last(xs);
      (if x in counts then order else order + [x], counts[x := if x in counts then counts[x] + 1 else 1])
  }

  /** The fold's key order is first appearance, and its counts are the multiplicities. */
  lemma {:induction false} CountFoldIsCounts<T>(xs: seq<T>)
    ensures CountFold(xs) == (Keys(xs, Id), Counts(xs))
  {
    if xs != [] {
      var xs', x := Init(xs), Last(xs);
      CountFoldIsCounts(xs');
      assert xs == xs' + [x];
      CountSnocStep(xs', x);
    }
  }

  /**
   * `count_sequences(seq_list)`: a `defaultdict(int)` incremented once per
   * element; `order` is the dict's key order (first appearance).
   */
  method CountSequences<T(==)>(seqList: seq<T>) returns (order: seq<T>, counts: map<T, nat>)
    ensures counts == Counts(seqList)
    ensures order == Keys(seqList, Id)
    ensures forall x :: x in counts <==> x in order
  {
    order, counts := [], map[];
    for i := 0 to |seqList|
      invariant counts == Counts(seqList[..i])
      invariant order == Keys(seqList[..i], Id)
    {
      var s := seqList[i];
      CountStep(seqList, i);
      // `counts` is a `defaultdict(int)`: a new element starts from 0 and joins the key order.
      var n := if s in counts then counts[s] else 0;
      if s !in counts {
        order := order + [s];
      }
      counts := counts[s := n + 1];
    }
    assert seqList[..|seqList|] == seqList;
    CountsKeys(seqList);
  }

  /** The counted elements are exactly the dict's keys. */
  lemma CountsKeys<T>(xs: seq<T>)
    ensures forall x :: x in Counts(xs) <==> x in Keys(xs, Id)
  {
    forall x | x in Keys(xs, Id)
      ensures x in Counts(xs)
    {
      var j :| 0 <= j < |Keys(xs, Id)| && Keys(xs, Id)[j] == x;
      var i :| 0 <= i < |xs| && Id(xs[i]) == x;
    }
  }

  lemma CountStep<T>(xs: seq<T>, i: nat)
    requires i < |xs|
    ensures var s, m := xs[i], Counts(xs[..i]);
      && Counts(xs[..i + 1]) == m[s := if s in m then m[s] + 1 else 1]
      && Keys(xs[..i + 1], Id) == if s in m then Keys(xs[..i], Id) else Keys(xs[..i], Id) + [s]
  {
    assert xs[..i + 1] == xs[..i] + [xs[i]];
    CountSnocStep(xs[..i], xs[i]);
  }

  /** One more element: its count goes up by one, and a new element joins the key order. */
  lemma CountSnocStep<T>(xs: seq<T>, s: T)
    ensures var m := Counts(xs);
      && Counts(xs + [s]) == m[s := if s in m then m[s] + 1 else 1]
      && Keys(xs + [s], Id) == if s in m then Keys(xs, Id) else Keys(xs, Id) + [s]
  {
    assert Init(xs + [s]) == xs && Last(xs + [s]) == s;
    CountsSnoc(xs, s);
    CountsKeys(xs);
  }

  /** The sum of `m`'s values over the keys `ks` (absent keys count 0). */
  function SumAt<T>(m: map<T, nat>, ks: seq<T>): nat {
    if ks == [] then 0 else (if ks[0] in m then m[ks[0]] else 0) + SumAt(m, ks[1..])
  }

  lemma {:induction false} SumAtIncrement<T>(m: map<T, nat>, ks: seq<T>, x: T)
    requires NoDup(ks)
    ensures SumAt(m[x := if x in m then m[x] + 1 else 1], ks) == SumAt(m, ks) + (if x in ks then 1 else 0)
  {
    if ks != [] {
      assert NoDup(ks[1..]);
      SumAtIncrement(m, ks[1..], x);
    }
  }

  lemma {:induction false} SumAtSnoc<T>(m: map<T, nat>, ks: seq<T>, k: T)
    ensures SumAt(m, ks + [k]) == SumAt(m, ks) + (if k in m then m[k] else 0)
  {
    if ks != [] {
      assert (ks + [k])[1..] == ks[1..] + [k];
      SumAtSnoc(m, ks[1..], k);
    }
  }

  lemma {:induction false} SumAtIgnoresAbsent<T>(m: map<T, nat>, ks: seq<T>, x: T, v: nat)
    requires x !in ks
    ensures SumAt(m[x := v], ks) == SumAt(m, ks)
  {
    if ks != [] {
      SumAtIgnoresAbsent(m, ks[1..], x, v);
    }
  }

  lemma CountsSnoc<T>(xs: seq<T>, x: T)
    ensures Counts(xs + [x]) == Counts(xs)[x := if x in Counts(xs) then Counts(xs)[x] + 1 else 1]
  {
    assert multiset(xs + [x]) == multiset(xs) + multiset{x};
  }

  /**
   * The counts, read in the dict's own key order (first appearance), add up
   * to the number of input elements.
   */
  lemma {:induction false} CountsSumToLength<T>(xs: seq<T>)
    ensures SumAt(Counts(xs), Keys(xs, Id)) == |xs|
  {
    if xs != [] {
      var xs', x := Init(xs), Last(xs);
      assert xs == xs' + [x];
      CountsSumToLength(xs');
      var m' := Counts(xs');
      var ks' := Keys(xs', Id);
      var m := m'[x := if x in m' then m'[x] + 1 else 1];
      CountsSnoc(xs', x);
      SumAtIncrement(m', ks', x);
      assert Keys(xs, Id) == if x in ks' then ks' else ks' + [x];
      if x !in ks' {
        assert x !in m';
        SumAtSnoc(m, ks', x);
        SumAtIgnoresAbsent(m', ks', x, 1);
      }
    }
  }
}
