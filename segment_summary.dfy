/**
 * `AlignedSegmentSummary` (minute/se_dedup.py): the per-record summary of a
 * mapped alignment that the deduplication works on.
 */
module SegmentSummary {

  datatype AlignmentType = Single | Multi

  /** The fields of a mapped `pysam.AlignedSegment` that the summary reads. */
  datatype MappedSegment = MappedSegment(
    queryName: string,
    referenceName: string,
    referenceStart: int,
    nextReferenceStart: int,
    mappingQuality: int,
    isRead1: bool,
    isRead2: bool,
    querySequence: string,
    queryAlignmentQualities: seq<int>)

  datatype AlignedSegmentSummary = AlignedSegmentSummary(
    name: string,
    umi: string,
    mate: int,
    reference: string,
    start: int,
    mateStart: int,
    mappingQuality: int,
    stub: string,
    score: int,
    alignmentType: AlignmentType)

  /** The three settings the summary depends on. */
  datatype SummaryParams = SummaryParams(umiLength: nat, multimapCutoff: int, stubLength: nat)

  /** Where a Python slice bound `i` falls in a sequence of length `n` (negative counts from the end). */
  function PyBound(i: int, n: nat): (b: nat)
    ensures b <= n
    ensures i >= 0 ==> b == if i <= n then i else n
    ensures i < 0 ==> b == if n + i >= 0 then n + i else 0
  {
    if i < 0 then (if n + i < 0 then 0 else n + i) else if i > n then n else i
  }

  /** Python's `s[:stop]`. */
  function PySliceTo<T>(s: seq<T>, stop: int): seq<T> {
    s[..PyBound(stop, |s|)]
  }

  /** Python's `s[start:]`. */
  function PySliceFrom<T>(s: seq<T>, start: int): seq<T> {
    s[PyBound(start, |s|)..]
  }

  /** `s[:i] + s[i:] == s` for every bound, negative or out of range. */
  lemma PySliceSplit<T>(s: seq<T>, i: int)
    ensures PySliceTo(s, i) + PySliceFrom(s, i) == s
  {
  }

  /** `s[-k:]` keeps the last `k` elements; `-0` is `0`, and a `k` beyond the length keeps everything. */
  lemma PySliceFromEnd<T>(s: seq<T>, k: nat)
    ensures |PySliceFrom(s, -(k as int))| == if k == 0 || k > |s| then |s| else k
    ensures PySliceFrom(s, -(k as int)) == s[|s| - |PySliceFrom(s, -(k as int))|..]
  {
  }

  /** `get_type`: MULTI exactly when the mapping quality is below the cutoff. */
  function GetType(read: MappedSegment, multimapCutoff: int): (t: AlignmentType)
    ensures t == Multi <==> read.mappingQuality < multimapCutoff
  {
    if read.mappingQuality < multimapCutoff then Multi else Single
  }

  /** `get_name`: `query_name[:-umi_length - 1]`. */
  function GetName(read: MappedSegment, umiLength: nat): (name: string)
    ensures |name| <= |read.queryName| && name == read.queryName[..|name|]
    ensures |name| == if |read.queryName| > umiLength then |read.queryName| - umiLength - 1 else 0
  {
    PySliceTo(read.queryName, -(umiLength as int) - 1)
  }

  /** `get_umi`: `query_name[-umi_length:]`; note that `-0` is `0`, so a zero length keeps the whole name. */
  function GetUmi(read: MappedSegment, umiLength: nat): (umi: string)
    ensures |umi| <= |read.queryName| && umi == read.queryName[|read.queryName| - |umi|..]
    ensures |umi| == if umiLength == 0 || umiLength > |read.queryName| then |read.queryName| else umiLength
  {
    PySliceFrom(read.queryName, -(umiLength as int))
  }

  /** `get_mate`: 1 for a first mate (even if also flagged second), 2 for a second mate, -1 otherwise. */
  function GetMate(read: MappedSegment): (mate: int)
    ensures mate == 1 || mate == 2 || mate == -1
    ensures mate == 1 <==> read.isRead1
    ensures mate == 2 <==> !read.isRead1 && read.isRead2
  {
    if read.isRead1 then 1 else if read.isRead2 then 2 else -1
  }

  /** `get_stub`: a prefix of the query sequence for multimappers, empty otherwise. */
  function GetStub(read: MappedSegment, multimapCutoff: int, length: nat): (stub: string)
    ensures |stub| <= |read.querySequence| && stub == read.querySequence[..|stub|]
    ensures read.mappingQuality >= multimapCutoff ==> stub == []
    ensures read.mappingQuality < multimapCutoff ==>
      |stub| == if length <= |read.querySequence| then length else |read.querySequence|
  {
    if read.mappingQuality < multimapCutoff then PySliceTo(read.querySequence, length) else []
  }

  function Sum(qs: seq<int>): int {
    if qs == [] then 0 else qs[0] + Sum(qs[1..])
  }

  lemma {:induction false} SumAppend(a: seq<int>, b: seq<int>)
    ensures Sum(a + b) == Sum(a) + Sum(b)
  {
    if a != [] {
      assert (a + b)[1..] == a[1..] + b;
      SumAppend(a[1..], b);
      assert Sum(a + b) == (a + b)[0] + Sum((a + b)[1..]);
    } else {
      assert a + b == b;
    }
  }

  lemma {:induction false} SumBounds(qs: seq<int>, hi: int)
    requires forall i :: 0 <= i < |qs| ==> 0 <= qs[i] <= hi
    ensures 0 <= Sum(qs) <= |qs| * hi
  {
    if qs != [] {
      SumBounds(qs[1..], hi);
    }
  }

  /** `get_score`: the sum of the per-base alignment qualities. */
  function GetScore(read: MappedSegment): int {
    Sum(read.queryAlignmentQualities)
  }

  /** `AlignedSegmentSummary.__init__`. */
  function Summarize(read: MappedSegment, p: SummaryParams): (a: AlignedSegmentSummary)
    ensures a.reference == read.referenceName && a.start == read.referenceStart
    ensures a.mateStart == read.nextReferenceStart && a.mappingQuality == read.mappingQuality
  {
    AlignedSegmentSummary(
      GetName(read, p.umiLength),
      GetUmi(read, p.umiLength),
      GetMate(read),
      read.referenceName,
      read.referenceStart,
      read.nextReferenceStart,
      read.mappingQuality,
      GetStub(read, p.multimapCutoff, p.stubLength),
      GetScore(read),
      GetType(read, p.multimapCutoff))
  }

  /**
   * For a UMI length between 1 and one less than the query name's length,
   * the name is what precedes the separator and the UMI what follows it.
   */
  lemma NameUmiSplit(read: MappedSegment, umiLength: nat)
    requires 1 <= umiLength < |read.queryName|
    ensures var q, name, umi := read.queryName, GetName(read, umiLength), GetUmi(read, umiLength);
      && |umi| == umiLength
      && name == q[..|q| - umiLength - 1]
      && umi == q[|q| - umiLength..]
      && name + [q[|q| - umiLength - 1]] + umi == q
  {
    var q := read.queryName;
    assert q == q[..|q| - umiLength - 1] + [q[|q| - umiLength - 1]] + q[|q| - umiLength..];
  }

  /** A summary's type and stub agree: both follow from the mapping quality against the cutoff. */
  lemma TypeDecidesStub(read: MappedSegment, p: SummaryParams)
    ensures var a := Summarize(read, p);
      && (a.alignmentType == Multi <==> read.mappingQuality < p.multimapCutoff)
      && (a.alignmentType == Single ==> a.stub == [])
      && (a.alignmentType == Multi ==>
            a.stub == read.querySequence[..if p.stubLength <= |read.querySequence| then p.stubLength else |read.querySequence|])
  {
  }

  /** Two records on the same side of the cutoff, with the same sequence, get the same type and stub. */
  lemma TypeAndStubDependOnlyOnCutoffSide(r1: MappedSegment, r2: MappedSegment, p: SummaryParams)
    requires (r1.mappingQuality < p.multimapCutoff) == (r2.mappingQuality < p.multimapCutoff)
    requires r1.querySequence == r2.querySequence
    ensures Summarize(r1, p).alignmentType == Summarize(r2, p).alignmentType
    ensures Summarize(r1, p).stub == Summarize(r2, p).stub
  {
  }

  /** With every quality in `0..hi`, the score lies between 0 and `hi` per quality. */
  lemma ScoreBounds(read: MappedSegment, hi: int)
    requires forall i :: 0 <= i < |read.queryAlignmentQualities| ==> 0 <= read.queryAlignmentQualities[i] <= hi
    ensures 0 <= GetScore(read) <= |read.queryAlignmentQualities| * hi
  {
    SumBounds(read.queryAlignmentQualities, hi);
  }
}
