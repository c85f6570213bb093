/**
 * `AlignmentIndex` (minute/se_dedup.py): two passes over the mapped records
 * of a BAM file sort each record's summary into the first-mate table, the
 * second-mate-only table or the list of multimappers.
 */
module AlignmentIndexing {
  import opened Grouping
  import opened SegmentSummary
  import opened PositionTables

  /** The summaries of the mapped records, in file order. */
  function Summaries(records: seq<MappedSegment>, p: SummaryParams): (xs: seq<Summary>)
    ensures |xs| == |records|
  {
    if records == [] then [] else Summaries(Init(records), p) + [Summarize(Last(records), p)]
  }

  /** Each summary is that of the record at the same index. */
  lemma {:induction false} SummariesAt(records: seq<MappedSegment>, p: SummaryParams, i: nat)
    requires i < |records|
    ensures Summaries(records, p)[i] == Summarize(records[i], p)
    decreases |records|
  {
    if i < |records| - 1 {
      SummariesAt(Init(records), p, i);
    }
  }

  function MateOf(a: Summary): int {
    a.mate
  }

  function TypeOf(a: Summary): AlignmentType {
    a.alignmentType
  }

  /** Selects the second mates whose name is not in `seen`. */
  function SecondOnlyKey(seen: set<string>): Summary -> bool {
    (a: Summary) => a.mate == 2 && a.name !in seen
  }

  function FirstMates(xs: seq<Summary>): seq<Summary> {
    WithKey(xs, MateOf, 1)
  }

  function SecondOnly(xs: seq<Summary>, seen: set<string>): seq<Summary> {
    WithKey(xs, SecondOnlyKey(seen), true)
  }

  function Singles(xs: seq<Summary>): seq<Summary> {
    WithKey(xs, TypeOf, Single)
  }

  function Multis(xs: seq<Summary>): seq<Summary> {
    WithKey(xs, TypeOf, Multi)
  }

  function Names(xs: seq<Summary>): (ns: seq<string>)
    ensures |ns| == |xs|
    ensures forall i :: 0 <= i < |xs| ==> ns[i] == xs[i].name
  {
    if xs == [] then [] else Names(Init(xs)) + [Last(xs).name]
  }

  /** The names the first pass returns: those of every first mate. */
  function FirstSeen(xs: seq<Summary>): set<string> {
    set n | n in Names(FirstMates(xs))
  }

  /** The names the second pass returns: those of the second mates whose first mate was not seen. */
  function SecondSeen(xs: seq<Summary>): set<string> {
    set n | n in Names(SecondOnly(xs, FirstSeen(xs)))
  }

  /** What the first-mate table is filled from. */
  function R1Reads(xs: seq<Summary>): seq<Summary> {
    Singles(FirstMates(xs))
  }

  /** What the second-mate-only table is filled from. */
  function R2OnlyReads(xs: seq<Summary>): seq<Summary> {
    Singles(SecondOnly(xs, FirstSeen(xs)))
  }

  /** The multimapper list: those of the first pass, then those of the second. */
  function Multimappers(xs: seq<Summary>): seq<Summary> {
    Multis(FirstMates(xs)) + Multis(SecondOnly(xs, FirstSeen(xs)))
  }

  lemma SummariesSnoc(records: seq<MappedSegment>, i: nat, p: SummaryParams)
    requires i < |records|
    ensures Summaries(records[..i + 1], p) == Summaries(records[..i], p) + [Summarize(records[i], p)]
  {
    assert Init(records[..i + 1]) == records[..i];
  }

  lemma NamesSnoc(xs: seq<Summary>, a: Summary)
    ensures Names(xs + [a]) == Names(xs) + [a.name]
  {
    assert Init(xs + [a]) == xs;
  }

  /** What a pass has collected so far: its table, the multimappers and the names it returns. */
  datatype PassState = PassState(table: PositionTable, multis: seq<Summary>, names: seq<string>)

  /** One loop iteration of `_index_first_mates`. */
  function FirstMateAdd(st: PassState, a: Summary): PassState {
    if a.mate == 1 then
      if a.alignmentType == Single then
        PassState(Append(st.table, a.reference, a.start, a), st.multis, st.names + [a.name])
      else
        PassState(st.table, st.multis + [a], st.names + [a.name])
    else st
  }

  /** One loop iteration of `_index_second_mates`. */
  function SecondMateAdd(st: PassState, a: Summary, seen: set<string>): PassState {
    if a.mate == 2 && a.name !in seen then
      if a.alignmentType == Single then
        PassState(Append(st.table, a.reference, a.start, a), st.multis, st.names + [a.name])
      else
        PassState(st.table, st.multis + [a], st.names + [a.name])
    else st
  }

  /** A pass files each single read it takes, and lists each multimapping one. */
  lemma FirstMateAddParts(st: PassState, a: Summary)
    ensures FirstMateAdd(st, a).table == if a.mate == 1 && a.alignmentType == Single then Append(st.table, a.reference, a.start, a) else st.table
    ensures FirstMateAdd(st, a).multis == if a.mate == 1 && a.alignmentType == Multi then st.multis + [a] else st.multis
  {
  }

  lemma SecondMateAddParts(st: PassState, a: Summary, seen: set<string>)
    ensures var takes := a.mate == 2 && a.name !in seen;
      && SecondMateAdd(st, a, seen).table == (if takes && a.alignmentType == Single then Append(st.table, a.reference, a.start, a) else st.table)
      && SecondMateAdd(st, a, seen).multis == (if takes && a.alignmentType == Multi then st.multis + [a] else st.multis)
  {
  }

  /** A pass records the name of each read it takes. */
  lemma FirstMateAddNames(st: PassState, a: Summary)
    ensures FirstMateAdd(st, a).names == if a.mate == 1 then st.names + [a.name] else st.names
  {
  }

  lemma SecondMateAddNames(st: PassState, a: Summary, seen: set<string>)
    ensures SecondMateAdd(st, a, seen).names == if a.mate == 2 && a.name !in seen then st.names + [a.name] else st.names
  {
  }

  function FirstPassOver(st: PassState, xs: seq<Summary>): PassState {
    if xs == [] then st else FirstMateAdd(FirstPassOver(st, Init(xs)), Last(xs))
  }

  function SecondPassOver(st: PassState, xs: seq<Summary>, seen: set<string>): PassState {
    if xs == [] then st else SecondMateAdd(SecondPassOver(st, Init(xs), seen), Last(xs), seen)
  }

  lemma FirstPassOverSnoc(st: PassState, xs: seq<Summary>, i: nat)
    requires i < |xs|
    ensures FirstPassOver(st, xs[..i + 1]) == FirstMateAdd(FirstPassOver(st, xs[..i]), xs[i])
  {
    assert Init(xs[..i + 1]) == xs[..i];
  }

  lemma SecondPassOverSnoc(st: PassState, xs: seq<Summary>, i: nat, seen: set<string>)
    requires i < |xs|
    ensures SecondPassOver(st, xs[..i + 1], seen) == SecondMateAdd(SecondPassOver(st, xs[..i], seen), xs[i], seen)
  {
    assert Init(xs[..i + 1]) == xs[..i];
  }

  lemma {:induction false} FirstPassTable(st: PassState, xs: seq<Summary>)
    ensures FirstPassOver(st, xs).table == AppendAll(st.table, Singles(FirstMates(xs)))
  {
    if xs != [] {
      var xs', a := Init(xs), Last(xs);
      FirstPassTable(st, xs');
      WithKeySnoc(xs', a, MateOf, 1);
      assert xs == xs' + [a];
      FirstMateAddParts(FirstPassOver(st, xs'), a);
      if a.mate == 1 {
        WithKeySnoc(FirstMates(xs'), a, TypeOf, Single);
        AppendAllSnoc(st.table, Singles(FirstMates(xs')), a);
      }
    }
  }

  lemma {:induction false} FirstPassMultis(st: PassState, xs: seq<Summary>)
    ensures FirstPassOver(st, xs).multis == st.multis + Multis(FirstMates(xs))
  {
    if xs == [] {
      assert st.multis + [] == st.multis;
    } else {
      var xs', a := Init(xs), Last(xs);
      FirstPassMultis(st, xs');
      WithKeySnoc(xs', a, MateOf, 1);
      assert xs == xs' + [a];
      FirstMateAddParts(FirstPassOver(st, xs'), a);
      if a.mate == 1 {
        WithKeySnoc(FirstMates(xs'), a, TypeOf, Multi);
        if a.alignmentType == Multi {
          SnocAssoc(st.multis, Multis(FirstMates(xs')), a);
        }
      }
    }
  }

  lemma {:induction false} FirstPassNames(st: PassState, xs: seq<Summary>)
    ensures FirstPassOver(st, xs).names == st.names + Names(FirstMates(xs))
  {
    if xs == [] {
      assert st.names + [] == st.names;
    } else {
      var xs', a := Init(xs), Last(xs);
      FirstPassNames(st, xs');
      WithKeySnoc(xs', a, MateOf, 1);
      assert xs == xs' + [a];
      FirstMateAddNames(FirstPassOver(st, xs'), a);
      if a.mate == 1 {
        NamesSnoc(FirstMates(xs'), a);
        SnocAssoc(st.names, Names(FirstMates(xs')), a.name);
      }
    }
  }

  lemma {:induction false} SecondPassTable(st: PassState, xs: seq<Summary>, seen: set<string>)
    ensures SecondPassOver(st, xs, seen).table == AppendAll(st.table, Singles(SecondOnly(xs, seen)))
  {
    if xs != [] {
      var xs', a := Init(xs), Last(xs);
      SecondPassTable(st, xs', seen);
      WithKeySnoc(xs', a, SecondOnlyKey(seen), true);
      assert xs == xs' + [a];
      SecondMateAddParts(SecondPassOver(st, xs', seen), a, seen);
      if a.mate == 2 && a.name !in seen {
        WithKeySnoc(SecondOnly(xs', seen), a, TypeOf, Single);
        AppendAllSnoc(st.table, Singles(SecondOnly(xs', seen)), a);
      }
    }
  }

  lemma {:induction false} SecondPassMultis(st: PassState, xs: seq<Summary>, seen: set<string>)
    ensures SecondPassOver(st, xs, seen).multis == st.multis + Multis(SecondOnly(xs, seen))
  {
    if xs == [] {
      assert st.multis + [] == st.multis;
    } else {
      var xs', a := Init(xs), Last(xs);
      SecondPassMultis(st, xs', seen);
      WithKeySnoc(xs', a, SecondOnlyKey(seen), true);
      assert xs == xs' + [a];
      SecondMateAddParts(SecondPassOver(st, xs', seen), a, seen);
      if a.mate == 2 && a.name !in seen {
        WithKeySnoc(SecondOnly(xs', seen), a, TypeOf, Multi);
        if a.alignmentType == Multi {
          SnocAssoc(st.multis, Multis(SecondOnly(xs', seen)), a);
        }
      }
    }
  }

  lemma {:induction false} SecondPassNames(st: PassState, xs: seq<Summary>, seen: set<string>)
    ensures SecondPassOver(st, xs, seen).names == st.names + Names(SecondOnly(xs, seen))
  {
    if xs == [] {
      assert st.names + [] == st.names;
    } else {
      var xs', a := Init(xs), Last(xs);
      SecondPassNames(st, xs', seen);
      WithKeySnoc(xs', a, SecondOnlyKey(seen), true);
      assert xs == xs' + [a];
      SecondMateAddNames(SecondPassOver(st, xs', seen), a, seen);
      if a.mate == 2 && a.name !in seen {
        NamesSnoc(SecondOnly(xs', seen), a);
        SnocAssoc(st.names, Names(SecondOnly(xs', seen)), a.name);
      }
    }
  }

  lemma FirstMatesMembers(xs: seq<Summary>)
    ensures forall a :: a in FirstMates(xs) <==> a in xs && a.mate == 1
  {
    WithKeyMembers(xs, MateOf, 1);
  }

  lemma SecondOnlyMembers(xs: seq<Summary>, seen: set<string>)
    ensures forall a :: a in SecondOnly(xs, seen) <==> a in xs && a.mate == 2 && a.name !in seen
  {
    WithKeyMembers(xs, SecondOnlyKey(seen), true);
  }

  lemma NamesMembers(xs: seq<Summary>)
    ensures forall n :: n in Names(xs) <==> exists a :: a in xs && a.name == n
  {
    forall n | n in Names(xs)
      ensures exists a :: a in xs && a.name == n
    {
      var i :| 0 <= i < |xs| && Names(xs)[i] == n;
      assert xs[i] in xs;
    }
    forall n | exists a :: a in xs && a.name == n
      ensures n in Names(xs)
    {
      var a :| a in xs && a.name == n;
      var i :| 0 <= i < |xs| && xs[i] == a;
      assert Names(xs)[i] == n;
    }
  }

  /** A name is returned by the first pass exactly when some first mate carries it. */
  lemma FirstSeenMembers(xs: seq<Summary>)
    ensures forall n :: n in FirstSeen(xs) <==> exists a :: a in xs && a.mate == 1 && a.name == n
  {
    FirstMatesMembers(xs);
    NamesMembers(FirstMates(xs));
  }

  /** A name is returned by the second pass exactly when a second mate carries it and no first mate does. */
  lemma SecondSeenMembers(xs: seq<Summary>)
    ensures forall n :: n in SecondSeen(xs) <==>
      (exists a :: a in xs && a.mate == 2 && a.name == n) && n !in FirstSeen(xs)
  {
    SecondOnlyMembers(xs, FirstSeen(xs));
    NamesMembers(SecondOnly(xs, FirstSeen(xs)));
  }

  /**
   * The first-mate table holds, at each locus, exactly the uniquely mapped
   * first mates that start there.
   */
  lemma R1Buckets(xs: seq<Summary>, ref: string, pos: int)
    ensures Valid(TableOf(R1Reads(xs)))
    ensures forall a :: a in Bucket(TableOf(R1Reads(xs)), ref, pos) <==>
      a in xs && a.mate == 1 && a.alignmentType == Single && a.reference == ref && a.start == pos
  {
    TableOfBuckets(R1Reads(xs), ref, pos);
    TableOfMembers(R1Reads(xs), ref, pos);
    FirstMatesMembers(xs);
    WithKeyMembers(FirstMates(xs), TypeOf, Single);
  }

  /**
   * The second-mate-only table holds, at each locus, exactly the uniquely
   * mapped second mates that start there and whose name no first mate carries.
   */
  lemma R2OnlyBuckets(xs: seq<Summary>, ref: string, pos: int)
    ensures Valid(TableOf(R2OnlyReads(xs)))
    ensures forall a :: a in Bucket(TableOf(R2OnlyReads(xs)), ref, pos) <==>
      && a in xs && a.mate == 2 && a.alignmentType == Single && a.reference == ref && a.start == pos
      && forall b :: b in xs && b.mate == 1 ==> b.name != a.name
  {
    TableOfBuckets(R2OnlyReads(xs), ref, pos);
    TableOfMembers(R2OnlyReads(xs), ref, pos);
    SecondOnlyMembers(xs, FirstSeen(xs));
    WithKeyMembers(SecondOnly(xs, FirstSeen(xs)), TypeOf, Single);
    FirstSeenMembers(xs);
  }

  /** The multimappers are the multimapping first mates and the multimapping second mates without a first mate. */
  lemma MultimapperMembers(xs: seq<Summary>)
    ensures forall a :: a in Multimappers(xs) <==>
      && a in xs && a.alignmentType == Multi
      && (a.mate == 1 || (a.mate == 2 && forall b :: b in xs && b.mate == 1 ==> b.name != a.name))
  {
    FirstMatesMembers(xs);
    SecondOnlyMembers(xs, FirstSeen(xs));
    WithKeyMembers(FirstMates(xs), TypeOf, Multi);
    WithKeyMembers(SecondOnly(xs, FirstSeen(xs)), TypeOf, Multi);
    FirstSeenMembers(xs);
  }

  /** No name is counted by both passes, so `total` counts distinct names. */
  lemma CountsAreDisjoint(xs: seq<Summary>)
    ensures FirstSeen(xs) !! SecondSeen(xs)
    ensures |FirstSeen(xs) + SecondSeen(xs)| == |FirstSeen(xs)| + |SecondSeen(xs)|
  {
    SecondSeenMembers(xs);
  }

  /** `total` counts the distinct names carried by a first or a second mate. */
  lemma TotalCountsAssignedNames(xs: seq<Summary>)
    ensures forall n :: n in FirstSeen(xs) + SecondSeen(xs) <==>
      exists a :: a in xs && (a.mate == 1 || a.mate == 2) && a.name == n
  {
    FirstSeenMembers(xs);
    SecondSeenMembers(xs);
  }

  /** No pair is indexed under both tables: a second-mate-only read never shares its name with a first-mate read. */
  lemma TablesShareNoName(xs: seq<Summary>)
    ensures forall a, b :: a in R1Reads(xs) && b in R2OnlyReads(xs) ==> a.name != b.name
  {
    FirstMatesMembers(xs);
    WithKeyMembers(FirstMates(xs), TypeOf, Single);
    SecondOnlyMembers(xs, FirstSeen(xs));
    WithKeyMembers(SecondOnly(xs, FirstSeen(xs)), TypeOf, Single);
    FirstSeenMembers(xs);
  }

  function IsAssigned(a: Summary): bool {
    a.mate == 1 || a.mate == 2
  }

  /** The summaries of records flagged as a first or a second mate. */
  function Assigned(xs: seq<Summary>): seq<Summary> {
    WithKey(xs, IsAssigned, true)
  }

  /** Records flagged as neither mate (mate -1) take part in neither pass: removing them changes nothing. */
  lemma UnassignedIgnored(xs: seq<Summary>)
    ensures R1Reads(Assigned(xs)) == R1Reads(xs)
    ensures R2OnlyReads(Assigned(xs)) == R2OnlyReads(xs)
    ensures Multimappers(Assigned(xs)) == Multimappers(xs)
    ensures FirstSeen(Assigned(xs)) == FirstSeen(xs) && SecondSeen(Assigned(xs)) == SecondSeen(xs)
  {
    WithKeyNarrow(xs, IsAssigned, true, MateOf, 1);
    WithKeyNarrow(xs, IsAssigned, true, SecondOnlyKey(FirstSeen(xs)), true);
  }

  class AlignmentIndex {
    var r1ReadsByPosition: PositionTable
    var r2OnlyReadsByPosition: PositionTable
    var multimappers: seq<Summary>
    const umiLength: nat
    const multimapCutoff: int
    const stubLength: nat
    var r1Counts: nat
    var r2Counts: nat
    var total: nat

    function Params(): SummaryParams {
      SummaryParams(umiLength, multimapCutoff, stubLength)
    }

    /** Indexes `records` (the mapped records of the file, read once per pass). */
    constructor (records: seq<MappedSegment>, umiLength: nat, multimapCutoff: int, stubLength: nat)
      ensures this.umiLength == umiLength && this.multimapCutoff == multimapCutoff && this.stubLength == stubLength
      ensures var xs := Summaries(records, SummaryParams(umiLength, multimapCutoff, stubLength));
        && r1ReadsByPosition == TableOf(R1Reads(xs))
        && r2OnlyReadsByPosition == TableOf(R2OnlyReads(xs))
        && multimappers == Multimappers(xs)
        && r1Counts == |FirstSeen(xs)|
        && r2Counts == |SecondSeen(xs)|
        && total == r1Counts + r2Counts
    {
      r1ReadsByPosition := Empty;
      r2OnlyReadsByPosition := Empty;
      multimappers := [];
      this.umiLength := umiLength;
      this.multimapCutoff := multimapCutoff;
      this.stubLength := stubLength;
      new;
      ghost var xs := Summaries(records, SummaryParams(umiLength, multimapCutoff, stubLength));
      var seen1st := IndexFirstMates(records);
      var seen2nd := IndexSecondMates(records, seen1st);
      EmptyAppend(Multis(FirstMates(xs)));
      r1Counts, r2Counts, total := |seen1st|, |seen2nd|, |seen1st| + |seen2nd|;
    }

    /** `_index_first_mates`: files single first mates by position and keeps multimapping ones apart. */
    method IndexFirstMates(records: seq<MappedSegment>) returns (seen: set<string>)
      modifies this`r1ReadsByPosition, this`multimappers
      ensures var xs := Summaries(records, Params());
        && r1ReadsByPosition == AppendAll(old(r1ReadsByPosition), Singles(FirstMates(xs)))
        && multimappers == old(multimappers) + Multis(FirstMates(xs))
        && seen == FirstSeen(xs)
    {
      ghost var xs := Summaries(records, Params());
      ghost var st0 := PassState(r1ReadsByPosition, multimappers, []);
      var p := Params();
      var table, multis := r1ReadsByPosition, multimappers;
      var seenList: seq<string> := [];
      for i := 0 to |records|
        invariant PassState(table, multis, seenList) == FirstPassOver(st0, xs[..i])
        invariant unchanged(this)
      {
        var read := records[i];
        var aln := Summarize(read, p);
        SummariesAt(records, p, i);
        FirstPassOverSnoc(st0, xs, i);
        if aln.mate == 1 {
          if aln.alignmentType == Single {
            var refname := read.referenceName;
            var pos := read.referenceStart;
            table := Append(table, refname, pos, aln);
            seenList := seenList + [aln.name];
          } else {
            multis := multis + [aln];
            seenList := seenList + [aln.name];
          }
        }
      }
      assert xs[..|records|] == xs;
      FirstPassTable(st0, xs);
      FirstPassMultis(st0, xs);
      FirstPassNames(st0, xs);
      r1ReadsByPosition, multimappers := table, multis;
      seen := set n | n in seenList;
    }

    /** `_index_second_mates`: the same for the second mates whose name is not in `seen`. */
    method IndexSecondMates(records: seq<MappedSegment>, seen: set<string>) returns (secondIds: set<string>)
      modifies this`r2OnlyReadsByPosition, this`multimappers
      ensures var xs := Summaries(records, Params());
        && r2OnlyReadsByPosition == AppendAll(old(r2OnlyReadsByPosition), Singles(SecondOnly(xs, seen)))
        && multimappers == old(multimappers) + Multis(SecondOnly(xs, seen))
        && secondIds == set n | n in Names(SecondOnly(xs, seen))
    {
      ghost var xs := Summaries(records, Params());
      ghost var st0 := PassState(r2OnlyReadsByPosition, multimappers, []);
      var p := Params();
      var table, multis := r2OnlyReadsByPosition, multimappers;
      var secondList: seq<string> := [];
      for i := 0 to |records|
        invariant PassState(table, multis, secondList) == SecondPassOver(st0, xs[..i], seen)
        invariant unchanged(this)
      {
        var read := records[i];
        var aln := Summarize(read, p);
        SummariesAt(records, p, i);
        SecondPassOverSnoc(st0, xs, i, seen);
        if aln.mate == 2 && aln.name !in seen {
          if aln.alignmentType == Single {
            var refname := read.referenceName;
            var pos := read.referenceStart;
            table := Append(table, refname, pos, aln);
            secondList := secondList + [aln.name];
          } else {
            multis := multis + [aln];
            secondList := secondList + [aln.name];
          }
        }
      }
      assert xs[..|records|] == xs;
      SecondPassTable(st0, xs, seen);
      SecondPassMultis(st0, xs, seen);
      SecondPassNames(st0, xs, seen);
      r2OnlyReadsByPosition, multimappers := table, multis;
      secondIds := set n | n in secondList;
    }
  }
}
