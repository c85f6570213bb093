/**
 * `FirstMateDeduplicator` and `DedupSummary` (minute/se_dedup.py): at every
 * locus holding more than one read, the reads are clustered by UMI and all
 * but one read per cluster are reported as duplicates.
 *
 * The UMI clusterer (umi_tools' `UMIClusterer`) is a parameter: it receives
 * the distinct UMIs of a locus in first-appearance order, their counts and
 * the mismatch threshold, and returns clusters whose first element is the
 * cluster's representative UMI.
 */
module Deduplication {
  import opened Wrappers
  import opened Grouping
  import opened Counting
  import opened SegmentSummary
  import opened PositionTables
  import opened AlignmentIndexing

  /** The exceptions the modelled code can raise. */
  datatype DedupError = IndexError

  /** There is one kind of failure, so all failures are equal. */
  lemma ErrIsIndexError<T>(r: Result<T, DedupError>)
    requires r.Err?
    ensures r == Err(IndexError)
  {
    match r
    case Err(e) => assert e == IndexError;
  }

  type Clusterer = (seq<string>, map<string, nat>, int) -> seq<seq<string>>

  /** A clusterer that only returns non-empty clusters headed by one of the UMIs it was given. */
  ghost predicate HonestClusterer(clusterer: Clusterer) {
    forall order, counts, threshold, c :: c in clusterer(order, counts, threshold) ==> c != [] && c[0] in order
  }

  // ---------------------------------------------------------------------
  // cluster_sequences, filter_by_attribute, pick_best
  // ---------------------------------------------------------------------

  /** The clusters `cluster_sequences` returns: none for no UMIs, otherwise the clusterer's answer on their counts. */
  function Clusters(seqList: seq<string>, mismatches: int, clusterer: Clusterer): seq<seq<string>> {
    if |seqList| > 0 then clusterer(CountFold(seqList).0, CountFold(seqList).1, mismatches) else []
  }

  /** `cluster_sequences`. */
  method ClusterSequences(seqList: seq<string>, mismatches: int, clusterer: Clusterer) returns (clusters: seq<seq<string>>)
    ensures clusters == Clusters(seqList, mismatches, clusterer)
    ensures seqList == [] ==> clusters == []
  {
    clusters := [];
    if |seqList| > 0 {
      var order, counts := CountSequences(seqList);
      CountFoldIsCounts(seqList);
      clusters := clusterer(order, counts, mismatches);
    }
  }

  /** Under an honest clusterer every cluster is headed by a UMI of the input. */
  lemma HonestClustersHeadedByInput(seqList: seq<string>, mismatches: int, clusterer: Clusterer)
    requires HonestClusterer(clusterer)
    ensures forall c :: c in Clusters(seqList, mismatches, clusterer) ==> c != [] && c[0] in seqList
  {
    forall c | c in Clusters(seqList, mismatches, clusterer)
      ensures c != [] && c[0] in seqList
    {
      CountFoldIsCounts(seqList);
      assert c in clusterer(Keys(seqList, Id), Counts(seqList), mismatches);
      var j :| 0 <= j < |Keys(seqList, Id)| && Keys(seqList, Id)[j] == c[0];
      var i :| 0 <= i < |seqList| && Id(seqList[i]) == c[0];
    }
  }

  /** Python's `x in y` on byte strings: `x` occurs as a contiguous part of `y`. */
  predicate IsSubstring(x: string, y: string) {
    (|x| <= |y| && y[..|x|] == x) || (y != [] && IsSubstring(x, y[1..]))
  }

  lemma {:induction false} SubstringNoLonger(x: string, y: string)
    requires IsSubstring(x, y)
    ensures |x| <= |y|
  {
    if !(|x| <= |y| && y[..|x|] == x) {
      SubstringNoLonger(x, y[1..]);
    }
  }

  /** Between strings of equal length, the substring test is equality; a string is a substring of itself. */
  lemma SubstringOfSameLength(x: string, y: string)
    requires |x| == |y|
    ensures IsSubstring(x, y) <==> x == y
  {
    if IsSubstring(x, y) && !(|x| <= |y| && y[..|x|] == x) {
      SubstringNoLonger(x, y[1..]);
    }
  }

  function UmiOf(a: Summary): string {
    a.umi
  }

  /** `filter_by_attribute(reads, allowed, attribute)`: the reads whose attribute occurs in `allowed`, in order. */
  function FilterByAttribute(readList: seq<Summary>, allowed: string, attribute: Summary -> string): (r: seq<Summary>)
    ensures |r| <= |readList|
    ensures forall a :: a in r <==> a in readList && IsSubstring(attribute(a), allowed)
  {
    if readList == [] then []
    else
      var rest := FilterByAttribute(readList[1..], allowed, attribute);
      assert forall a :: a in readList <==> a == readList[0] || a in readList[1..];
      if IsSubstring(attribute(readList[0]), allowed) then [readList[0]] + rest else rest
  }

  /** The filter keeps input order and one entry per read: filtering a concatenation filters each part. */
  lemma {:induction false} FilterByAttributeAppend(xs: seq<Summary>, ys: seq<Summary>, allowed: string, attribute: Summary -> string)
    ensures FilterByAttribute(xs + ys, allowed, attribute) == FilterByAttribute(xs, allowed, attribute) + FilterByAttribute(ys, allowed, attribute)
  {
    if xs == [] {
      assert xs + ys == ys;
    } else {
      assert (xs + ys)[0] == xs[0] && (xs + ys)[1..] == xs[1..] + ys;
      FilterByAttributeAppend(xs[1..], ys, allowed, attribute);
    }
  }

  /**
   * The `k`-th kept read is some `readList[j]` whose attribute occurs in
   * `allowed`, and the reads kept before it are exactly those kept from `readList[..j]`.
   */
  lemma {:induction false} FilterByAttributeIndex(readList: seq<Summary>, allowed: string, attribute: Summary -> string, k: nat)
    requires k < |FilterByAttribute(readList, allowed, attribute)|
    ensures exists j :: (0 <= j < |readList| && readList[j] == FilterByAttribute(readList, allowed, attribute)[k]
      && IsSubstring(attribute(readList[j]), allowed)
      && FilterByAttribute(readList[..j], allowed, attribute) == FilterByAttribute(readList, allowed, attribute)[..k])
  {
    if IsSubstring(attribute(readList[0]), allowed) && k == 0 {
      assert readList[..0] == [];
    } else {
      var k' := if IsSubstring(attribute(readList[0]), allowed) then k - 1 else k;
      FilterByAttributeIndex(readList[1..], allowed, attribute, k');
      var rest := FilterByAttribute(readList[1..], allowed, attribute);
      var j' :| (0 <= j' < |readList[1..]| && readList[1..][j'] == rest[k']
        && IsSubstring(attribute(readList[1..][j']), allowed)
        && FilterByAttribute(readList[1..][..j'], allowed, attribute) == rest[..k']);
      FilterByAttributeIndexStep(readList, allowed, attribute, k, j');
    }
  }

  /** The step of FilterByAttributeIndex: a match found in the tail, one place further on. */
  lemma FilterByAttributeIndexStep(readList: seq<Summary>, allowed: string, attribute: Summary -> string, k: nat, j': nat)
    requires readList != []
    requires var keep := IsSubstring(attribute(readList[0]), allowed);
      var rest := FilterByAttribute(readList[1..], allowed, attribute);
      && (keep ==> k > 0)
      && var k' := if keep then k - 1 else k;
      && k' < |rest| && j' < |readList| - 1 && readList[1..][j'] == rest[k']
      && FilterByAttribute(readList[1..][..j'], allowed, attribute) == rest[..k']
    ensures k < |FilterByAttribute(readList, allowed, attribute)|
    ensures readList[j' + 1] == FilterByAttribute(readList, allowed, attribute)[k]
    ensures FilterByAttribute(readList[..j' + 1], allowed, attribute) == FilterByAttribute(readList, allowed, attribute)[..k]
  {
    var keep := IsSubstring(attribute(readList[0]), allowed);
    var f := FilterByAttribute(readList, allowed, attribute);
    var rest := FilterByAttribute(readList[1..], allowed, attribute);
    var k' := if keep then k - 1 else k;
    PrefixOfTail(readList, j' + 1);
    FilterByAttributeAppend([readList[0]], readList[1..][..j'], allowed, attribute);
    assert FilterByAttribute([readList[0]], allowed, attribute) == if keep then [readList[0]] else [] by {
      assert [readList[0]][1..] == [];
    }
    if keep {
      assert f == [readList[0]] + rest;
      ConsPrefix(readList[0], rest, k);
    } else {
      assert f == rest;
    }
  }

  lemma PrefixOfTail<T>(s: seq<T>, j: nat)
    requires 1 <= j <= |s|
    ensures s[..j] == [s[0]] + s[1..][..j - 1]
  {
  }

  lemma ConsPrefix<T>(x: T, s: seq<T>, k: nat)
    requires 1 <= k <= |s|
    ensures ([x] + s)[..k] == [x] + s[..k - 1] && ([x] + s)[k] == s[k - 1]
  {
  }

  /** The read `pick_best` settles on after scanning `l[i..]` holding `best`: a later read replaces it only with a strictly higher score. */
  function BestFrom(l: seq<Summary>, i: nat, best: Summary): Summary
    requires i <= |l|
    decreases |l| - i
  {
    if i == |l| then best else BestFrom(l, i + 1, if l[i].score > best.score then l[i] else best)
  }

  function FirstBest(l: seq<Summary>): Summary
    requires l != []
  {
    BestFrom(l, 1, l[0])
  }

  lemma {:induction false} BestFromIsFirstMaximum(l: seq<Summary>, i: nat, k: nat)
    requires 0 <= k < i <= |l|
    requires forall j :: 0 <= j < i ==> l[j].score <= l[k].score
    requires forall j :: 0 <= j < k ==> l[j].score < l[k].score
    ensures exists k' :: (0 <= k' < |l| && BestFrom(l, i, l[k]) == l[k']
      && (forall j :: 0 <= j < |l| ==> l[j].score <= l[k'].score)
      && (forall j :: 0 <= j < k' ==> l[j].score < l[k'].score))
    decreases |l| - i
  {
    if i == |l| {
      assert BestFrom(l, i, l[k]) == l[k];
    } else if l[i].score > l[k].score {
      BestFromIsFirstMaximum(l, i + 1, i);
    } else {
      BestFromIsFirstMaximum(l, i + 1, k);
    }
  }

  /** `pick_best` returns the first read of highest score. */
  lemma FirstBestIsFirstMaximum(l: seq<Summary>)
    requires l != []
    ensures FirstBest(l) in l
    ensures forall j :: 0 <= j < |l| ==> l[j].score <= FirstBest(l).score
    ensures exists k :: 0 <= k < |l| && FirstBest(l) == l[k] && forall j :: 0 <= j < k ==> l[j].score < l[k].score
  {
    BestFromIsFirstMaximum(l, 1, 0);
  }

  /** `pick_best`. */
  method PickBest(readlist: seq<Summary>) returns (best: Summary)
    requires readlist != []
    ensures best == FirstBest(readlist)
    ensures best in readlist
    ensures forall j :: 0 <= j < |readlist| ==> readlist[j].score <= best.score
  {
    best := readlist[0];
    for i := 1 to |readlist|
      invariant BestFrom(readlist, i, best) == FirstBest(readlist)
    {
      if readlist[i].score > best.score {
        best := readlist[i];
      }
    }
    FirstBestIsFirstMaximum(readlist);
  }

  // ---------------------------------------------------------------------
  // mark_duplicates_by_umi
  // ---------------------------------------------------------------------

  function Umis(readList: seq<Summary>): (us: seq<string>)
    ensures |us| == |readList|
    ensures forall i {:trigger us[i]} :: 0 <= i < |readList| ==> us[i] == readList[i].umi
  {
    if readList == [] then [] else Umis(Init(readList)) + [Last(readList).umi]
  }

  /** The read kept for cluster `c`: the best of the reads whose UMI occurs in the cluster's head. */
  function SurvivorOf(readList: seq<Summary>, c: seq<string>): Result<Summary, DedupError> {
    if c == [] then Err(IndexError)
    else
      var candidates := FilterByAttribute(readList, c[0], UmiOf);
      if candidates == [] then Err(IndexError) else Ok(FirstBest(candidates))
  }

  /** The reads kept for `clusters`, in cluster order; the first failing cluster fails it all. */
  function Survivors(readList: seq<Summary>, clusters: seq<seq<string>>): Result<seq<Summary>, DedupError> {
    if clusters == [] then Ok([])
    else
      var kept :- Survivors(readList, Init(clusters));
      var s :- SurvivorOf(readList, Last(clusters));
      Ok(kept + [s])
  }

  /** `[r.name for r in reads if r.name not in names]`. */
  function NamesNotIn(readList: seq<Summary>, names: set<string>): (r: seq<string>)
    ensures |r| <= |readList|
    ensures forall n :: n in r <==> n !in names && exists a :: a in readList && a.name == n
  {
    if readList == [] then []
    else
      var rest := NamesNotIn(readList[1..], names);
      assert forall a :: a in readList <==> a == readList[0] || a in readList[1..];
      if readList[0].name !in names then [readList[0].name] + rest else rest
  }

  /** The names come in input order, one entry per read outside `names`: a concatenation lists each part's names in turn. */
  lemma {:induction false} NamesNotInAppend(xs: seq<Summary>, ys: seq<Summary>, names: set<string>)
    ensures NamesNotIn(xs + ys, names) == NamesNotIn(xs, names) + NamesNotIn(ys, names)
  {
    if xs == [] {
      assert xs + ys == ys;
    } else {
      assert (xs + ys)[0] == xs[0] && (xs + ys)[1..] == xs[1..] + ys;
      NamesNotInAppend(xs[1..], ys, names);
    }
  }

  /** A single read contributes its name exactly when the name is outside `names`. */
  lemma NamesNotInSingle(a: Summary, names: set<string>)
    ensures NamesNotIn([a], names) == if a.name in names then [] else [a.name]
  {
    assert [a][1..] == [];
  }

  function NameSet(xs: seq<Summary>): set<string> {
    set a | a in xs :: a.name
  }

  /** What `mark_duplicates_by_umi(read_list, umi_mismatches)` returns. */
  function MarkDuplicates(readList: seq<Summary>, umiMismatches: int, clusterer: Clusterer): Result<seq<string>, DedupError> {
    var kept :- Survivors(readList, Clusters(Umis(readList), umiMismatches, clusterer));
    Ok(NamesNotIn(readList, NameSet(kept)))
  }

  lemma MarkDuplicatesBySurvivors(readList: seq<Summary>, umiMismatches: int, clusterer: Clusterer)
    ensures var clusters := Clusters(Umis(readList), umiMismatches, clusterer);
      MarkDuplicates(readList, umiMismatches, clusterer) ==
        if Survivors(readList, clusters).Err? then Err(IndexError)
        else Ok(NamesNotIn(readList, NameSet(Survivors(readList, clusters).value)))
  {
    var clusters := Clusters(Umis(readList), umiMismatches, clusterer);
    match Survivors(readList, clusters)
    case Err(e) =>
      assert e == IndexError;
    case Ok(kept) =>
  }

  lemma SurvivorsSnoc(readList: seq<Summary>, clusters: seq<seq<string>>, i: nat)
    requires i < |clusters|
    ensures Survivors(readList, clusters[..i + 1]) ==
      match Survivors(readList, clusters[..i])
      case Err(e) => Err(e)
      case Ok(kept) => (match SurvivorOf(readList, clusters[i]) case Err(e) => Err(e) case Ok(s) => Ok(kept + [s]))
  {
    assert Init(clusters[..i + 1]) == clusters[..i];
  }

  lemma SurvivorsStep(readList: seq<Summary>, clusters: seq<seq<string>>, i: nat, kept: seq<Summary>)
    requires i < |clusters| && Survivors(readList, clusters[..i]) == Ok(kept)
    ensures SurvivorOf(readList, clusters[i]).Err? ==> Survivors(readList, clusters[..i + 1]).Err?
    ensures SurvivorOf(readList, clusters[i]).Ok? ==>
      Survivors(readList, clusters[..i + 1]) == Ok(kept + [SurvivorOf(readList, clusters[i]).value])
  {
    SurvivorsSnoc(readList, clusters, i);
  }

  /** Once a prefix of the clusters fails, so does every longer prefix. */
  lemma {:induction false} SurvivorsErrExtends(readList: seq<Summary>, clusters: seq<seq<string>>, i: nat)
    requires i <= |clusters|
    requires Survivors(readList, clusters[..i]).Err?
    ensures Survivors(readList, clusters).Err?
    decreases |clusters| - i
  {
    if i < |clusters| {
      SurvivorsSnoc(readList, clusters, i);
      SurvivorsErrExtends(readList, clusters, i + 1);
    } else {
      assert clusters[..i] == clusters;
    }
  }

  // ---------------------------------------------------------------------
  // What the deduplication guarantees.
  // ---------------------------------------------------------------------

  /** `s` is some `readList[j]`, and every earlier read whose UMI occurs in `allowed` scores strictly less. */
  ghost predicate FirstOfBestAt(readList: seq<Summary>, allowed: string, s: Summary) {
    exists j :: 0 <= j < |readList| && readList[j] == s
      && forall i :: 0 <= i < j && IsSubstring(readList[i].umi, allowed) ==> readList[i].score < s.score
  }

  /** The read `pick_best` picks among the candidates is the earliest read of highest score in the bucket itself. */
  lemma FirstBestInBucketOrder(readList: seq<Summary>, allowed: string)
    requires FilterByAttribute(readList, allowed, UmiOf) != []
    ensures FirstOfBestAt(readList, allowed, FirstBest(FilterByAttribute(readList, allowed, UmiOf)))
  {
    var candidates := FilterByAttribute(readList, allowed, UmiOf);
    var best := FirstBest(candidates);
    FirstBestIsFirstMaximum(candidates);
    var k :| 0 <= k < |candidates| && best == candidates[k] && forall j :: 0 <= j < k ==> candidates[j].score < candidates[k].score;
    FilterByAttributeIndex(readList, allowed, UmiOf, k);
    var j :| (0 <= j < |readList| && readList[j] == candidates[k]
      && IsSubstring(UmiOf(readList[j]), allowed)
      && FilterByAttribute(readList[..j], allowed, UmiOf) == candidates[..k]);
    forall i | 0 <= i < j && IsSubstring(readList[i].umi, allowed)
      ensures readList[i].score < best.score
    {
      assert readList[i] in readList[..j];
      assert readList[i] in candidates[..k];
      var i' :| 0 <= i' < k && candidates[..k][i'] == readList[i];
      assert candidates[i'] == readList[i];
    }
  }

  /**
   * Every kept read sits in the bucket, has a UMI occurring in its cluster's
   * head, and scores highest among those; on a tie it is the earliest such
   * read of the bucket.
   */
  lemma {:induction false} SurvivorsShape(readList: seq<Summary>, clusters: seq<seq<string>>)
    requires Survivors(readList, clusters).Ok?
    ensures var kept := Survivors(readList, clusters).value;
      && |kept| == |clusters|
      && forall k :: 0 <= k < |kept| ==>
        && clusters[k] != []
        && kept[k] in readList
        && IsSubstring(kept[k].umi, clusters[k][0])
        && (forall b :: b in readList && IsSubstring(b.umi, clusters[k][0]) ==> b.score <= kept[k].score)
        && FirstOfBestAt(readList, clusters[k][0], kept[k])
  {
    if clusters != [] {
      var cs, c := Init(clusters), Last(clusters);
      SurvivorsShape(readList, cs);
      var kept' := Survivors(readList, cs).value;
      var candidates := FilterByAttribute(readList, c[0], UmiOf);
      var best := FirstBest(candidates);
      var kept := kept' + [best];
      assert Survivors(readList, clusters).value == kept;
      FirstBestIsFirstMaximum(candidates);
      FirstBestInBucketOrder(readList, c[0]);
      forall b | b in readList && IsSubstring(b.umi, c[0])
        ensures b.score <= best.score
      {
        assert b in candidates;
        var j :| 0 <= j < |candidates| && candidates[j] == b;
      }
      forall k | 0 <= k < |kept|
        ensures && clusters[k] != []
                && kept[k] in readList
                && IsSubstring(kept[k].umi, clusters[k][0])
                && (forall b :: b in readList && IsSubstring(b.umi, clusters[k][0]) ==> b.score <= kept[k].score)
                && FirstOfBestAt(readList, clusters[k][0], kept[k])
      {
        if k < |kept'| {
          assert kept[k] == kept'[k] && clusters[k] == cs[k];
        } else {
          assert kept[k] == best && clusters[k] == c;
        }
      }
    }
  }

  /** With clusters headed by UMIs of the bucket, no cluster fails. */
  lemma {:induction false} SurvivorsOk(readList: seq<Summary>, clusters: seq<seq<string>>)
    requires forall c :: c in clusters ==> c != [] && c[0] in Umis(readList)
    ensures Survivors(readList, clusters).Ok?
  {
    if clusters != [] {
      assert forall c :: c in Init(clusters) ==> c in clusters;
      SurvivorsOk(readList, Init(clusters));
      var c := Last(clusters);
      assert c in clusters;
      assert c != [] && c[0] in Umis(readList);
      var i :| 0 <= i < |readList| && Umis(readList)[i] == c[0];
      assert IsSubstring(readList[i].umi, c[0]) by {
        assert c[0][..|readList[i].umi|] == readList[i].umi;
      }
      assert readList[i] in FilterByAttribute(readList, c[0], UmiOf);
    }
  }

  lemma {:induction false} UmisMembers(readList: seq<Summary>, u: string)
    ensures u in Umis(readList) <==> exists a :: a in readList && a.umi == u
  {
    if u in Umis(readList) {
      var i :| 0 <= i < |readList| && Umis(readList)[i] == u;
      assert readList[i] in readList;
    }
    if exists a :: a in readList && a.umi == u {
      var a :| a in readList && a.umi == u;
      var i :| 0 <= i < |readList| && readList[i] == a;
      assert Umis(readList)[i] == u;
    }
  }

  /** With an honest clusterer `mark_duplicates_by_umi` raises nothing. */
  lemma MarkDuplicatesOk(readList: seq<Summary>, umiMismatches: int, clusterer: Clusterer)
    requires HonestClusterer(clusterer)
    ensures MarkDuplicates(readList, umiMismatches, clusterer).Ok?
  {
    var clusters := Clusters(Umis(readList), umiMismatches, clusterer);
    HonestClustersHeadedByInput(Umis(readList), umiMismatches, clusterer);
    SurvivorsOk(readList, clusters);
  }

  /**
   * A name is reported exactly when it belongs to a read of the bucket and no
   * kept read carries it: reads sharing a kept read's name are never reported.
   */
  lemma MarkDuplicatesMembers(readList: seq<Summary>, umiMismatches: int, clusterer: Clusterer)
    requires MarkDuplicates(readList, umiMismatches, clusterer).Ok?
    ensures var kept := Survivors(readList, Clusters(Umis(readList), umiMismatches, clusterer)).value;
      forall n :: n in MarkDuplicates(readList, umiMismatches, clusterer).value <==>
        (exists a :: a in readList && a.name == n) && forall s :: s in kept ==> s.name != n
  {
  }

  /** Every reported name is the name of a read of the bucket. */
  lemma MarkDuplicatesFromBucket(readList: seq<Summary>, umiMismatches: int, clusterer: Clusterer)
    requires MarkDuplicates(readList, umiMismatches, clusterer).Ok?
    ensures forall n :: n in MarkDuplicates(readList, umiMismatches, clusterer).value ==> n in NameSet(readList)
  {
    forall n | n in MarkDuplicates(readList, umiMismatches, clusterer).value
      ensures n in NameSet(readList)
    {
      var a :| a in readList && a.name == n;
    }
  }

  // ---------------------------------------------------------------------
  // _find_duplicate_ids
  // ---------------------------------------------------------------------

  /** The duplicates of one bucket: buckets of a single read are not looked at. */
  function BucketDuplicates(bucket: seq<Summary>, umiMismatches: int, clusterer: Clusterer): Result<seq<string>, DedupError> {
    if |bucket| > 1 then MarkDuplicates(bucket, umiMismatches, clusterer) else Ok([])
  }

  /** The duplicates found at positions `ps` of reference `ref`, in order. */
  function PositionsDuplicates(t: PositionTable, ref: string, ps: seq<int>, umiMismatches: int, clusterer: Clusterer): Result<seq<string>, DedupError> {
    if ps == [] then Ok([])
    else
      var before :- PositionsDuplicates(t, ref, Init(ps), umiMismatches, clusterer);
      var here :- BucketDuplicates(Bucket(t, ref, Last(ps)), umiMismatches, clusterer);
      Ok(before + here)
  }

  /** The duplicates found under references `rs`, each walked in its own position order. */
  function RefsDuplicates(t: PositionTable, rs: seq<string>, umiMismatches: int, clusterer: Clusterer): Result<seq<string>, DedupError>
    requires forall r :: r in rs ==> r in t.positions
  {
    if rs == [] then Ok([])
    else
      var before :- RefsDuplicates(t, Init(rs), umiMismatches, clusterer);
      var here :- PositionsDuplicates(t, Last(rs), t.positions[Last(rs)], umiMismatches, clusterer);
      Ok(before + here)
  }

  /** What `_find_duplicate_ids(aln_index)` returns. */
  function TableDuplicates(t: PositionTable, umiMismatches: int, clusterer: Clusterer): Result<seq<string>, DedupError>
    requires Valid(t)
  {
    RefsDuplicates(t, t.refs, umiMismatches, clusterer)
  }

  lemma {:induction false} PositionsDuplicatesOk(t: PositionTable, ref: string, ps: seq<int>, umiMismatches: int, clusterer: Clusterer)
    requires HonestClusterer(clusterer)
    ensures PositionsDuplicates(t, ref, ps, umiMismatches, clusterer).Ok?
    ensures forall n :: n in PositionsDuplicates(t, ref, ps, umiMismatches, clusterer).value ==>
      exists p :: p in ps && |Bucket(t, ref, p)| > 1 && n in NameSet(Bucket(t, ref, p))
  {
    if ps != [] {
      PositionsDuplicatesOk(t, ref, Init(ps), umiMismatches, clusterer);
      var p := Last(ps);
      var bucket := Bucket(t, ref, p);
      if |bucket| > 1 {
        MarkDuplicatesOk(bucket, umiMismatches, clusterer);
        MarkDuplicatesFromBucket(bucket, umiMismatches, clusterer);
      }
      forall n | n in PositionsDuplicates(t, ref, ps, umiMismatches, clusterer).value
        ensures exists p :: p in ps && |Bucket(t, ref, p)| > 1 && n in NameSet(Bucket(t, ref, p))
      {
        if n !in BucketDuplicates(bucket, umiMismatches, clusterer).value {
          var p' :| p' in Init(ps) && |Bucket(t, ref, p')| > 1 && n in NameSet(Bucket(t, ref, p'));
          assert p' in ps;
        }
      }
    }
  }

  lemma {:induction false} RefsDuplicatesOk(t: PositionTable, rs: seq<string>, umiMismatches: int, clusterer: Clusterer)
    requires HonestClusterer(clusterer)
    requires forall r :: r in rs ==> r in t.positions
    ensures RefsDuplicates(t, rs, umiMismatches, clusterer).Ok?
    ensures forall n :: n in RefsDuplicates(t, rs, umiMismatches, clusterer).value ==>
      exists r, p :: r in rs && |Bucket(t, r, p)| > 1 && n in NameSet(Bucket(t, r, p))
  {
    if rs != [] {
      RefsDuplicatesOk(t, Init(rs), umiMismatches, clusterer);
      var r := Last(rs);
      PositionsDuplicatesOk(t, r, t.positions[r], umiMismatches, clusterer);
      forall n | n in RefsDuplicates(t, rs, umiMismatches, clusterer).value
        ensures exists r, p :: r in rs && |Bucket(t, r, p)| > 1 && n in NameSet(Bucket(t, r, p))
      {
        if n in PositionsDuplicates(t, r, t.positions[r], umiMismatches, clusterer).value {
          var p :| p in t.positions[r] && |Bucket(t, r, p)| > 1 && n in NameSet(Bucket(t, r, p));
        } else {
          var r', p' :| r' in Init(rs) && |Bucket(t, r', p')| > 1 && n in NameSet(Bucket(t, r', p'));
          assert r' in rs;
        }
      }
    }
  }

  /**
   * With an honest clusterer `_find_duplicate_ids` raises nothing, and every
   * name it reports belongs to a read of a bucket holding more than one read.
   */
  lemma TableDuplicatesOk(t: PositionTable, umiMismatches: int, clusterer: Clusterer)
    requires Valid(t) && HonestClusterer(clusterer)
    ensures TableDuplicates(t, umiMismatches, clusterer).Ok?
    ensures forall n :: n in TableDuplicates(t, umiMismatches, clusterer).value ==>
      exists r, p :: |Bucket(t, r, p)| > 1 && n in NameSet(Bucket(t, r, p))
  {
    RefsDuplicatesOk(t, t.refs, umiMismatches, clusterer);
  }

  datatype DedupSummary = DedupSummary(total: int, totalDups: int, r1Dups: int, r2OnlyDups: int, multiDups: int)

  /** The deduplication settings; `FirstMateDeduplicator()` uses 6, 5, 20, 1 and 2. */
  datatype FirstMateDeduplicator = FirstMateDeduplicator(
    umiLength: nat, multimapCutoff: int, stubLength: nat, umiMismatches: int, seqMismatches: int)
  {
    function Params(): SummaryParams {
      SummaryParams(umiLength, multimapCutoff, stubLength)
    }

    /** `mark_duplicates_by_umi(read_list, umi_mismatches)`. */
    method MarkDuplicatesByUmi(readList: seq<Summary>, umiMismatches: int, clusterer: Clusterer)
      returns (dups: Result<seq<string>, DedupError>)
      ensures dups == MarkDuplicates(readList, umiMismatches, clusterer)
    {
      var seqs := Umis(readList);
      var clusters := ClusterSequences(seqs, umiMismatches, clusterer);
      var uniqueReads: seq<Summary> := [];
      for i := 0 to |clusters|
        invariant Survivors(readList, clusters[..i]) == Ok(uniqueReads)
      {
        SurvivorsStep(readList, clusters, i, uniqueReads);
        var survivor := KeepOne(readList, clusters[i]);
        if survivor.Err? {
          SurvivorsErrExtends(readList, clusters, i + 1);
          MarkDuplicatesBySurvivors(readList, umiMismatches, clusterer);
          return Err(survivor.error);
        }
        uniqueReads := uniqueReads + [survivor.value];
      }
      assert clusters[..|clusters|] == clusters;
      var uniqueReadsSet := NameSet(uniqueReads);
      MarkDuplicatesBySurvivors(readList, umiMismatches, clusterer);
      dups := Ok(NamesNotIn(readList, uniqueReadsSet));
    }

    /** One turn of the loop of `mark_duplicates_by_umi`: the read kept for cluster `c`. */
    method KeepOne(readList: seq<Summary>, c: seq<string>) returns (survivor: Result<Summary, DedupError>)
      ensures survivor == SurvivorOf(readList, c)
    {
      if c == [] {
        return Err(IndexError);
      }
      var uniqueCandidates := FilterByAttribute(readList, c[0], UmiOf);
      if |uniqueCandidates| > 1 {
        var best := PickBest(uniqueCandidates);
        survivor := Ok(best);
      } else if |uniqueCandidates| == 1 {
        assert uniqueCandidates[0] == FirstBest(uniqueCandidates);
        survivor := Ok(uniqueCandidates[0]);
      } else {
        survivor := Err(IndexError);
      }
    }

    /** `_find_duplicate_ids(aln_index)`: walks references and positions in insertion order. */
    method FindDuplicateIds(alnIndex: PositionTable, clusterer: Clusterer) returns (duplicates: Result<seq<string>, DedupError>)
      requires Valid(alnIndex)
      ensures duplicates == TableDuplicates(alnIndex, umiMismatches, clusterer)
    {
      var found: seq<string> := [];
      for k := 0 to |alnIndex.refs|
        invariant RefsDuplicates(alnIndex, alnIndex.refs[..k], umiMismatches, clusterer) == Ok(found)
      {
        var ref := alnIndex.refs[k];
        RefsStep(alnIndex, alnIndex.refs, k, found, umiMismatches, clusterer);
        var atRef := DuplicateIdsAt(alnIndex, ref, clusterer);
        if atRef.Err? {
          RefsErrExtends(alnIndex, alnIndex.refs, k + 1, umiMismatches, clusterer);
          assert alnIndex.refs[..|alnIndex.refs|] == alnIndex.refs;
          ErrIsIndexError(atRef);
          ErrIsIndexError(TableDuplicates(alnIndex, umiMismatches, clusterer));
          return Err(atRef.error);
        }
        found := found + atRef.value;
      }
      assert alnIndex.refs[..|alnIndex.refs|] == alnIndex.refs;
      duplicates := Ok(found);
    }

    /** The inner loop of `_find_duplicate_ids`: the duplicates under one reference. */
    method DuplicateIdsAt(alnIndex: PositionTable, ref: string, clusterer: Clusterer) returns (duplicates: Result<seq<string>, DedupError>)
      requires Valid(alnIndex) && ref in alnIndex.buckets
      ensures duplicates == PositionsDuplicates(alnIndex, ref, alnIndex.positions[ref], umiMismatches, clusterer)
    {
      var positions := alnIndex.positions[ref];
      var found: seq<string> := [];
      for j := 0 to |positions|
        invariant PositionsDuplicates(alnIndex, ref, positions[..j], umiMismatches, clusterer) == Ok(found)
      {
        ListedPositionsPresent(alnIndex, ref, positions[j]);
        var dupCandidates := alnIndex.buckets[ref][positions[j]];
        PositionsStep(alnIndex, ref, positions, j, found, umiMismatches, clusterer);
        if |dupCandidates| > 1 {
          var dupIds := MarkDuplicatesByUmi(dupCandidates, umiMismatches, clusterer);
          if dupIds.Err? {
            PositionsErrExtends(alnIndex, ref, positions, j + 1, umiMismatches, clusterer);
            ErrIsIndexError(dupIds);
            ErrIsIndexError(PositionsDuplicates(alnIndex, ref, positions, umiMismatches, clusterer));
            return Err(dupIds.error);
          }
          found := found + dupIds.value;
        }
      }
      assert positions[..|positions|] == positions;
      duplicates := Ok(found);
    }

    /** The end of `deduplicate`: counts the duplicates, or passes on the failure of either search. */
    static method BuildSummary(total: int, r1: Result<seq<string>, DedupError>, r2: Result<seq<string>, DedupError>)
      returns (summary: Result<DedupSummary, DedupError>)
      ensures summary == SummaryOf(total, r1, r2)
    {
      var r1Dups :- r1;
      var r2Dups :- r2;
      var allDups := set n | n in r1Dups + r2Dups;
      return Ok(DedupSummary(total, |allDups|, |r1Dups|, |r2Dups|, 0));
    }

    /** `deduplicate(src_bam)`: `records` are the mapped records of the file. */
    method Deduplicate(records: seq<MappedSegment>, clusterer: Clusterer) returns (summary: Result<DedupSummary, DedupError>)
      ensures summary == DeduplicateSpec(this, records, clusterer)
    {
      var index := new AlignmentIndex(records, umiLength, multimapCutoff, stubLength);
      ghost var xs := Summaries(records, Params());
      var r1Table, r2Table, total := index.r1ReadsByPosition, index.r2OnlyReadsByPosition, index.total;
      assert r1Table == TableOf(R1Reads(xs)) && r2Table == TableOf(R2OnlyReads(xs));
      assert total == |FirstSeen(xs)| + |SecondSeen(xs)|;
      AppendAllValid(Empty, R1Reads(xs));
      AppendAllValid(Empty, R2OnlyReads(xs));
      var r1 := FindDuplicateIds(r1Table, clusterer);
      var r2 := FindDuplicateIds(r2Table, clusterer);
      summary := BuildSummary(total, r1, r2);
    }
  }

  lemma PositionsStep(t: PositionTable, ref: string, ps: seq<int>, j: nat, found: seq<string>, umiMismatches: int, clusterer: Clusterer)
    requires j < |ps| && PositionsDuplicates(t, ref, ps[..j], umiMismatches, clusterer) == Ok(found)
    ensures var here := BucketDuplicates(Bucket(t, ref, ps[j]), umiMismatches, clusterer);
      && (|Bucket(t, ref, ps[j])| <= 1 ==> PositionsDuplicates(t, ref, ps[..j + 1], umiMismatches, clusterer) == Ok(found))
      && (here.Err? ==> PositionsDuplicates(t, ref, ps[..j + 1], umiMismatches, clusterer).Err?)
      && (here.Ok? ==> PositionsDuplicates(t, ref, ps[..j + 1], umiMismatches, clusterer) == Ok(found + here.value))
  {
    assert Init(ps[..j + 1]) == ps[..j];
    assert found + [] == found;
  }

  lemma RefsStep(t: PositionTable, rs: seq<string>, k: nat, found: seq<string>, umiMismatches: int, clusterer: Clusterer)
    requires k < |rs| && (forall r :: r in rs ==> r in t.positions)
    requires RefsDuplicates(t, rs[..k], umiMismatches, clusterer) == Ok(found)
    ensures var here := PositionsDuplicates(t, rs[k], t.positions[rs[k]], umiMismatches, clusterer);
      && (here.Err? ==> RefsDuplicates(t, rs[..k + 1], umiMismatches, clusterer).Err?)
      && (here.Ok? ==> RefsDuplicates(t, rs[..k + 1], umiMismatches, clusterer) == Ok(found + here.value))
  {
    assert Init(rs[..k + 1]) == rs[..k];
  }

  lemma {:induction false} PositionsErrExtends(t: PositionTable, ref: string, ps: seq<int>, j: nat, umiMismatches: int, clusterer: Clusterer)
    requires j <= |ps|
    requires PositionsDuplicates(t, ref, ps[..j], umiMismatches, clusterer).Err?
    ensures PositionsDuplicates(t, ref, ps, umiMismatches, clusterer) == PositionsDuplicates(t, ref, ps[..j], umiMismatches, clusterer)
    decreases |ps| - j
  {
    if j < |ps| {
      assert Init(ps[..j + 1]) == ps[..j];
      PositionsErrExtends(t, ref, ps, j + 1, umiMismatches, clusterer);
    } else {
      assert ps[..j] == ps;
    }
  }

  lemma {:induction false} RefsErrExtends(t: PositionTable, rs: seq<string>, k: nat, umiMismatches: int, clusterer: Clusterer)
    requires k <= |rs|
    requires forall r :: r in rs ==> r in t.positions
    requires RefsDuplicates(t, rs[..k], umiMismatches, clusterer).Err?
    ensures RefsDuplicates(t, rs, umiMismatches, clusterer) == RefsDuplicates(t, rs[..k], umiMismatches, clusterer)
    decreases |rs| - k
  {
    if k < |rs| {
      assert Init(rs[..k + 1]) == rs[..k];
      RefsErrExtends(t, rs, k + 1, umiMismatches, clusterer);
    } else {
      assert rs[..k] == rs;
    }
  }

  /** What `deduplicate` returns. */
  function DeduplicateSpec(d: FirstMateDeduplicator, records: seq<MappedSegment>, clusterer: Clusterer): Result<DedupSummary, DedupError> {
    var xs := Summaries(records, d.Params());
    AppendAllValid(Empty, R1Reads(xs));
    AppendAllValid(Empty, R2OnlyReads(xs));
    SummaryOf(
      |FirstSeen(xs)| + |SecondSeen(xs)|,
      TableDuplicates(TableOf(R1Reads(xs)), d.umiMismatches, clusterer),
      TableDuplicates(TableOf(R2OnlyReads(xs)), d.umiMismatches, clusterer))
  }

  /** The summary `deduplicate` builds from the read count and the duplicates found in the two tables. */
  function SummaryOf(total: int, r1: Result<seq<string>, DedupError>, r2: Result<seq<string>, DedupError>): Result<DedupSummary, DedupError> {
    var r1Dups :- r1;
    var r2Dups :- r2;
    Ok(DedupSummary(total, |set n | n in r1Dups + r2Dups|, |r1Dups|, |r2Dups|, 0))
  }

  // ---------------------------------------------------------------------
  // What `deduplicate` reports.
  // ---------------------------------------------------------------------

  lemma {:induction false} DistinctNamesAtMostLength(s: seq<string>)
    ensures |set n | n in s| <= |s|
  {
    if s != [] {
      DistinctNamesAtMostLength(Init(s));
      assert s == Init(s) + [Last(s)];
      assert (set n | n in s) == (set n | n in Init(s)) + {Last(s)};
    }
  }

  lemma SubsetNoLarger(a: set<string>, b: set<string>)
    requires a <= b
    ensures |a| <= |b|
  {
    assert b == a + (b - a);
  }

  /**
   * Every name reported from the first-mate table belongs to a uniquely mapped
   * first mate, and every name reported from the second-mate table to a
   * uniquely mapped second mate whose name no first mate carries.
   */
  lemma {:induction false} DuplicatesComeFromTheirTable(d: FirstMateDeduplicator, records: seq<MappedSegment>, clusterer: Clusterer)
    requires HonestClusterer(clusterer)
    ensures var xs := Summaries(records, d.Params());
      && Valid(TableOf(R1Reads(xs))) && Valid(TableOf(R2OnlyReads(xs)))
      && TableDuplicates(TableOf(R1Reads(xs)), d.umiMismatches, clusterer).Ok?
      && TableDuplicates(TableOf(R2OnlyReads(xs)), d.umiMismatches, clusterer).Ok?
      && (forall n :: n in TableDuplicates(TableOf(R1Reads(xs)), d.umiMismatches, clusterer).value ==>
            exists a :: a in xs && a.mate == 1 && a.alignmentType == Single && a.name == n)
      && (forall n :: n in TableDuplicates(TableOf(R2OnlyReads(xs)), d.umiMismatches, clusterer).value ==>
            exists a :: (a in xs && a.mate == 2 && a.alignmentType == Single && a.name == n
              && forall b :: b in xs && b.mate == 1 ==> b.name != n))
  {
    var xs := Summaries(records, d.Params());
    var t1, t2 := TableOf(R1Reads(xs)), TableOf(R2OnlyReads(xs));
    AppendAllValid(Empty, R1Reads(xs));
    AppendAllValid(Empty, R2OnlyReads(xs));
    TableDuplicatesOk(t1, d.umiMismatches, clusterer);
    TableDuplicatesOk(t2, d.umiMismatches, clusterer);
    forall n | n in TableDuplicates(t1, d.umiMismatches, clusterer).value
      ensures exists a :: a in xs && a.mate == 1 && a.alignmentType == Single && a.name == n
    {
      var r, p :| |Bucket(t1, r, p)| > 1 && n in NameSet(Bucket(t1, r, p));
      var a :| a in Bucket(t1, r, p) && a.name == n;
      R1Buckets(xs, r, p);
    }
    forall n | n in TableDuplicates(t2, d.umiMismatches, clusterer).value
      ensures exists a :: (a in xs && a.mate == 2 && a.alignmentType == Single && a.name == n
        && forall b :: b in xs && b.mate == 1 ==> b.name != n)
    {
      var r, p :| |Bucket(t2, r, p)| > 1 && n in NameSet(Bucket(t2, r, p));
      var a :| a in Bucket(t2, r, p) && a.name == n;
      R2OnlyBuckets(xs, r, p);
    }
  }

  /**
   * With an honest clusterer `deduplicate` succeeds; no multimapper is ever
   * reported, and the distinct duplicates number at most the two lists
   * together and at most the counted reads, so the duplication fraction is
   * at most one.
   */
  lemma {:induction false} DeduplicateBounds(d: FirstMateDeduplicator, records: seq<MappedSegment>, clusterer: Clusterer)
    requires HonestClusterer(clusterer)
    ensures DeduplicateSpec(d, records, clusterer).Ok?
    ensures var s := DeduplicateSpec(d, records, clusterer).value;
      && s.multiDups == 0
      && s.totalDups <= s.r1Dups + s.r2OnlyDups
      && s.totalDups <= s.total
  {
    var xs := Summaries(records, d.Params());
    DuplicatesComeFromTheirTable(d, records, clusterer);
    var r1 := TableDuplicates(TableOf(R1Reads(xs)), d.umiMismatches, clusterer).value;
    var r2 := TableDuplicates(TableOf(R2OnlyReads(xs)), d.umiMismatches, clusterer).value;
    DistinctNamesAtMostLength(r1 + r2);
    FirstSeenMembers(xs);
    SecondSeenMembers(xs);
    CountsAreDisjoint(xs);
    var all := set n | n in r1 + r2;
    forall n | n in all
      ensures n in FirstSeen(xs) + SecondSeen(xs)
    {
      if n in r1 {
        var a :| a in xs && a.mate == 1 && a.alignmentType == Single && a.name == n;
      } else {
        assert n in r2;
        var a :| (a in xs && a.mate == 2 && a.alignmentType == Single && a.name == n
          && forall b :: b in xs && b.mate == 1 ==> b.name != n);
      }
    }
    SubsetNoLarger(all, FirstSeen(xs) + SecondSeen(xs));
  }

  // ---------------------------------------------------------------------
  // Two small cases, with clusterers of known behaviour.
  // ---------------------------------------------------------------------

  function EachAlone(order: seq<string>): seq<seq<string>> {
    if order == [] then [] else [[order[0]]] + EachAlone(order[1..])
  }

  /** Every UMI forms its own cluster, as with a threshold no two UMIs are within. */
  const SeparateClusters: Clusterer :=
    (order: seq<string>, counts: map<string, nat>, threshold: int) => EachAlone(order)

  /** All UMIs form one cluster headed by the first one seen. */
  const SingleCluster: Clusterer :=
    (order: seq<string>, counts: map<string, nat>, threshold: int) => if order == [] then [] else [order]

  lemma SameUmiClusters(a: Summary, b: Summary)
    requires a.umi == b.umi == "AC"
    ensures Clusters(Umis([a, b]), 1, SeparateClusters) == [["AC"]]
  {
    assert Umis([a, b]) == ["AC", "AC"];
    assert CountFold(["AC", "AC"]).0 == ["AC"];
  }

  lemma SurvivorOfSameUmi(a: Summary, b: Summary)
    requires a.umi == b.umi == "AC" && a.score == 30 && b.score == 45
    ensures Survivors([a, b], Clusters(Umis([a, b]), 1, SeparateClusters)) == Ok([b])
  {
    SameUmiClusters(a, b);
    var clusters := [["AC"]];
    assert IsSubstring("AC", "AC");
    assert FilterByAttribute([a, b], "AC", UmiOf) == [a, b];
    assert BestFrom([a, b], 2, b) == b;
    assert BestFrom([a, b], 1, a) == BestFrom([a, b], 2, b);
    assert SurvivorOf([a, b], ["AC"]) == Ok(b);
    assert Init(clusters) == [] && Last(clusters) == ["AC"];
    assert Survivors([a, b], []) == Ok([]);
    EmptyAppend([b]);
  }

  /** Two reads at one locus with the same UMI: the one of lower score is the duplicate. */
  lemma LowerScoreIsDuplicate()
    ensures
      var a := AlignedSegmentSummary("a", "AC", 1, "chr1", 100, 0, 60, "", 30, Single);
      var b := AlignedSegmentSummary("b", "AC", 1, "chr1", 100, 0, 60, "", 45, Single);
      MarkDuplicates([a, b], 1, SeparateClusters) == Ok(["a"])
  {
    var a := AlignedSegmentSummary("a", "AC", 1, "chr1", 100, 0, 60, "", 30, Single);
    var b := AlignedSegmentSummary("b", "AC", 1, "chr1", 100, 0, 60, "", 45, Single);
    SurvivorOfSameUmi(a, b);
    MarkDuplicatesBySurvivors([a, b], 1, SeparateClusters);
    assert NameSet([b]) == {"b"};
    assert NamesNotIn([a, b], {"b"}) == ["a"];
  }

  /** Two reads at one locus with the same UMI and the same score: the first one is kept, the second reported. */
  lemma TiedScoreKeepsFirst()
    ensures
      var a := AlignedSegmentSummary("a", "AC", 1, "chr1", 100, 0, 60, "", 30, Single);
      var b := AlignedSegmentSummary("b", "AC", 1, "chr1", 100, 0, 60, "", 30, Single);
      MarkDuplicates([a, b], 1, SeparateClusters) == Ok(["b"])
  {
    var a := AlignedSegmentSummary("a", "AC", 1, "chr1", 100, 0, 60, "", 30, Single);
    var b := AlignedSegmentSummary("b", "AC", 1, "chr1", 100, 0, 60, "", 30, Single);
    SameUmiClusters(a, b);
    var clusters := [["AC"]];
    assert IsSubstring("AC", "AC");
    assert FilterByAttribute([a, b], "AC", UmiOf) == [a, b];
    assert BestFrom([a, b], 2, a) == a;
    assert SurvivorOf([a, b], ["AC"]) == Ok(a);
    assert Init(clusters) == [] && Last(clusters) == ["AC"];
    assert Survivors([a, b], []) == Ok([]);
    EmptyAppend([a]);
    MarkDuplicatesBySurvivors([a, b], 1, SeparateClusters);
    assert NameSet([a]) == {"a"};
    assert NamesNotIn([a, b], {"a"}) == ["b"];
  }

  lemma HeadUmiClusters(x: Summary, y: Summary)
    requires x.umi == "AC" && y.umi == "AG"
    ensures Clusters(Umis([x, y]), 1, SingleCluster) == [["AC", "AG"]]
  {
    assert Umis([x, y]) == ["AC", "AG"];
    assert CountFold(["AC", "AG"]).0 == ["AC", "AG"];
  }

  lemma SurvivorOfHeadUmi(x: Summary, y: Summary)
    requires x.umi == "AC" && y.umi == "AG"
    ensures Survivors([x, y], Clusters(Umis([x, y]), 1, SingleCluster)) == Ok([x])
  {
    HeadUmiClusters(x, y);
    var clusters := [["AC", "AG"]];
    assert IsSubstring("AC", "AC");
    assert !IsSubstring("AG", "C") && !IsSubstring("AG", "");
    assert !IsSubstring("AG", "AC");
    assert FilterByAttribute([x, y], "AC", UmiOf) == [x];
    assert SurvivorOf([x, y], ["AC", "AG"]) == Ok(x);
    assert Init(clusters) == [] && Last(clusters) == ["AC", "AG"];
    assert Survivors([x, y], []) == Ok([]);
    EmptyAppend([x]);
  }

  /**
   * Within a cluster, only the reads carrying the head UMI compete: a read
   * clustered under another UMI is a duplicate even with a higher score.
   */
  lemma ClusteredUmiIsDuplicate()
    ensures
      var x := AlignedSegmentSummary("x", "AC", 1, "chr1", 100, 0, 60, "", 10, Single);
      var y := AlignedSegmentSummary("y", "AG", 1, "chr1", 100, 0, 60, "", 50, Single);
      MarkDuplicates([x, y], 1, SingleCluster) == Ok(["y"])
  {
    var x := AlignedSegmentSummary("x", "AC", 1, "chr1", 100, 0, 60, "", 10, Single);
    var y := AlignedSegmentSummary("y", "AG", 1, "chr1", 100, 0, 60, "", 50, Single);
    SurvivorOfHeadUmi(x, y);
    MarkDuplicatesBySurvivors([x, y], 1, SingleCluster);
    assert NameSet([x]) == {"x"};
    assert NamesNotIn([x, y], {"x"}) == ["y"];
  }
}
