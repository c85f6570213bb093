/**
 * The `defaultdict(lambda: defaultdict(list))` that `AlignmentIndex`
 * (minute/se_dedup.py) files summaries into: reference name, then start
 * position, then the list of summaries at that locus. Python dicts iterate in
 * insertion order, and the duplicate search walks them in that order, so the
 * order of the keys is part of the value.
 */
module PositionTables {
  import opened Grouping
  import opened SegmentSummary

  type Summary = AlignedSegmentSummary

  datatype PositionTable = PositionTable(
    refs: seq<string>,                      // outer keys, in insertion order
    positions: map<string, seq<int>>,       // inner keys of each reference, in insertion order
    buckets: map<string, map<int, seq<Summary>>>)

  const Empty := PositionTable([], map[], map[])

  /** The two key orders list exactly the keys present, once each, and no bucket is empty. */
  ghost predicate Valid(t: PositionTable) {
    && NoDup(t.refs)
    && (forall r :: r in t.buckets <==> r in t.refs)
    && t.positions.Keys == t.buckets.Keys
    && (forall r :: r in t.buckets ==> NoDup(t.positions[r]))
    && (forall r, p :: r in t.buckets ==> (p in t.buckets[r] <==> p in t.positions[r]))
    && (forall r, p :: r in t.buckets && p in t.buckets[r] ==> t.buckets[r][p] != [])
  }

  /** `table[ref][pos]` as a `defaultdict` read: an absent locus holds the empty list. */
  function Bucket(t: PositionTable, ref: string, pos: int): seq<Summary> {
    if ref in t.buckets && pos in t.buckets[ref] then t.buckets[ref][pos] else []
  }

  /** `table[ref][pos].append(a)`: creates the missing keys at the end of their dicts. */
  function Append(t: PositionTable, ref: string, pos: int, a: Summary): (t': PositionTable)
    ensures ref in t'.buckets
  {
    if ref in t.buckets then
      var inner := t.buckets[ref];
      if pos in inner then
        PositionTable(t.refs, t.positions, t.buckets[ref := inner[pos := inner[pos] + [a]]])
      else
        PositionTable(t.refs, t.positions[ref := (if ref in t.positions then t.positions[ref] else []) + [pos]], t.buckets[ref := inner[pos := [a]]])
    else
      PositionTable(t.refs + [ref], t.positions[ref := [pos]], t.buckets[ref := map[pos := [a]]])
  }

  /** Appending grows the one bucket at the locus by the summary, and keeps every reference. */
  lemma AppendBuckets(t: PositionTable, ref: string, pos: int, a: Summary)
    ensures forall r, p :: Bucket(Append(t, ref, pos, a), r, p) == Bucket(t, r, p) + (if r == ref && p == pos then [a] else [])
    ensures forall r :: r in t.buckets ==> r in Append(t, ref, pos, a).buckets
  {
  }

  lemma AppendValid(t: PositionTable, ref: string, pos: int, a: Summary)
    requires Valid(t)
    ensures Valid(Append(t, ref, pos, a))
  {
    if ref !in t.buckets {
      AppendNewRefValid(t, ref, pos, a);
    } else if pos !in t.buckets[ref] {
      AppendNewPosValid(t, ref, pos, a);
    } else {
      var t' := Append(t, ref, pos, a);
      assert t'.refs == t.refs && t'.positions == t.positions && t'.buckets.Keys == t.buckets.Keys;
      assert forall r :: r in t.buckets ==> t'.buckets[r].Keys == t.buckets[r].Keys;
    }
  }

  lemma AppendNewRefValid(t: PositionTable, ref: string, pos: int, a: Summary)
    requires Valid(t) && ref !in t.buckets
    ensures Valid(Append(t, ref, pos, a))
  {
    var t' := PositionTable(t.refs + [ref], t.positions[ref := [pos]], t.buckets[ref := map[pos := [a]]]);
    assert Append(t, ref, pos, a) == t';
    assert ref !in t.refs;
    NoDupSnoc(t.refs, ref);
    forall r, p | r in t'.buckets
      ensures NoDup(t'.positions[r])
      ensures p in t'.buckets[r] <==> p in t'.positions[r]
      ensures p in t'.buckets[r] ==> t'.buckets[r][p] != []
    {
      if r != ref {
        assert t'.buckets[r] == t.buckets[r] && t'.positions[r] == t.positions[r];
      }
    }
  }

  lemma AppendNewPosValid(t: PositionTable, ref: string, pos: int, a: Summary)
    requires Valid(t) && ref in t.buckets && pos !in t.buckets[ref]
    ensures Valid(Append(t, ref, pos, a))
  {
    var inner := t.buckets[ref];
    var ps := t.positions[ref] + [pos];
    var t' := PositionTable(t.refs, t.positions[ref := ps], t.buckets[ref := inner[pos := [a]]]);
    assert Append(t, ref, pos, a) == t';
    assert pos !in t.positions[ref];
    NoDupSnoc(t.positions[ref], pos);
    assert t'.buckets.Keys == t.buckets.Keys;
    forall r, p | r in t'.buckets
      ensures NoDup(t'.positions[r])
      ensures p in t'.buckets[r] <==> p in t'.positions[r]
      ensures p in t'.buckets[r] ==> t'.buckets[r][p] != []
    {
      if r != ref {
        assert t'.buckets[r] == t.buckets[r] && t'.positions[r] == t.positions[r];
      }
    }
  }

  lemma NoDupSnoc<T>(s: seq<T>, x: T)
    requires NoDup(s) && x !in s
    ensures NoDup(s + [x])
  {
  }

  /** A position listed for a reference of a valid table has a bucket. */
  lemma ListedPositionsPresent(t: PositionTable, ref: string, pos: int)
    requires Valid(t) && ref in t.buckets && pos in t.positions[ref]
    ensures pos in t.buckets[ref]
  {
  }

  /** The locus a summary is filed under. */
  function LocusOf(a: Summary): (string, int) {
    (a.reference, a.start)
  }

  /** The table after appending each summary of `xs`, in order, at its own locus. */
  function AppendAll(t: PositionTable, xs: seq<Summary>): PositionTable {
    if xs == [] then t else Append(AppendAll(t, Init(xs)), Last(xs).reference, Last(xs).start, Last(xs))
  }

  lemma {:induction false} AppendAllValid(t: PositionTable, xs: seq<Summary>)
    requires Valid(t)
    ensures Valid(AppendAll(t, xs))
  {
    if xs != [] {
      AppendAllValid(t, Init(xs));
      AppendValid(AppendAll(t, Init(xs)), Last(xs).reference, Last(xs).start, Last(xs));
    }
  }

  /** The table filled from `xs` alone. */
  function TableOf(xs: seq<Summary>): PositionTable {
    AppendAll(Empty, xs)
  }

  /** Appending `xs` extends each bucket by the summaries of `xs` at that locus, in input order. */
  lemma {:induction false} AppendAllBuckets(t: PositionTable, xs: seq<Summary>, ref: string, pos: int)
    ensures Bucket(AppendAll(t, xs), ref, pos) == Bucket(t, ref, pos) + WithKey(xs, LocusOf, (ref, pos))
  {
    if xs != [] {
      AppendAllBuckets(t, Init(xs), ref, pos);
      AppendBuckets(AppendAll(t, Init(xs)), Last(xs).reference, Last(xs).start, Last(xs));
    }
  }

  /** One summary more appends it to the table. */
  lemma AppendAllSnoc(t: PositionTable, xs: seq<Summary>, a: Summary)
    ensures AppendAll(t, xs + [a]) == Append(AppendAll(t, xs), a.reference, a.start, a)
  {
    assert Init(xs + [a]) == xs;
  }

  /** Each bucket of `TableOf(xs)` holds exactly the summaries of `xs` at that locus, in input order. */
  lemma TableOfBuckets(xs: seq<Summary>, ref: string, pos: int)
    ensures Valid(TableOf(xs))
    ensures Bucket(TableOf(xs), ref, pos) == WithKey(xs, LocusOf, (ref, pos))
  {
    AppendAllValid(Empty, xs);
    AppendAllBuckets(Empty, xs, ref, pos);
  }

  /** Every summary in a bucket of `TableOf(xs)` comes from `xs` and sits at the bucket's locus, and conversely. */
  lemma TableOfMembers(xs: seq<Summary>, ref: string, pos: int)
    ensures forall a :: a in Bucket(TableOf(xs), ref, pos) <==> a in xs && a.reference == ref && a.start == pos
  {
    TableOfBuckets(xs, ref, pos);
    WithKeyMembers(xs, LocusOf, (ref, pos));
  }

  /** The loci of a table: its (reference, start) keys. */
  ghost function Loci(t: PositionTable): set<(string, int)> {
    set r, p | r in t.buckets && p in t.buckets[r] :: (r, p)
  }

  /** The loci whose reference is one of `rs`. */
  ghost function LociOf(t: PositionTable, rs: seq<string>): set<(string, int)> {
    set r, p | r in t.buckets && p in t.buckets[r] && r in rs :: (r, p)
  }

  /** A duplicate-free list has as many elements as its set. */
  lemma {:induction false} DistinctCard<T>(s: seq<T>)
    requires NoDup(s)
    ensures |set x | x in s| == |s|
  {
    if s == [] {
      assert (set x | x in s) == {};
    } else {
      var s', l := Init(s), Last(s);
      assert s == s' + [l];
      assert NoDup(s') && l !in s';
      DistinctCard(s');
      assert (set x | x in s) == (set x | x in s') + {l};
    }
  }

  /** A duplicate-free list of positions of one reference gives as many loci. */
  lemma {:induction false} LociCard(r: string, s: seq<int>)
    requires NoDup(s)
    ensures |set x | x in s :: (r, x)| == |s|
  {
    if s == [] {
      assert (set x | x in s :: (r, x)) == {};
    } else {
      var s', l := Init(s), Last(s);
      assert s == s' + [l];
      assert NoDup(s') && l !in s';
      LociCard(r, s');
      assert (r, l) !in (set x | x in s' :: (r, x));
      assert (set x | x in s :: (r, x)) == (set x | x in s' :: (r, x)) + {(r, l)};
    }
  }

  lemma LociOfSnoc(t: PositionTable, rs: seq<string>, r: string)
    requires Valid(t) && r in t.buckets && r !in rs
    ensures |LociOf(t, rs + [r])| == |LociOf(t, rs)| + |t.buckets[r]|
  {
    var here := set x | x in t.positions[r] :: (r, x);
    assert forall x :: x in t.buckets[r] <==> x in t.positions[r];
    assert t.buckets[r].Keys == set x | x in t.positions[r];
    assert LociOf(t, rs + [r]) == LociOf(t, rs) + here;
    assert LociOf(t, rs) !! here;
    DistinctCard(t.positions[r]);
    LociCard(r, t.positions[r]);
  }

  lemma LociOfAll(t: PositionTable)
    requires Valid(t)
    ensures LociOf(t, t.refs) == Loci(t)
  {
  }

  /** `count_loci`: adds up the number of positions of each reference. */
  method CountLoci(t: PositionTable) returns (n: nat)
    requires Valid(t)
    ensures n == |Loci(t)|
  {
    n := 0;
    for i := 0 to |t.refs|
      invariant n == |LociOf(t, t.refs[..i])|
    {
      var r := t.refs[i];
      assert t.refs[..i + 1] == t.refs[..i] + [r];
      LociOfSnoc(t, t.refs[..i], r);
      n := n + |t.buckets[r]|;
    }
    assert t.refs[..|t.refs|] == t.refs;
    LociOfAll(t);
  }
}
