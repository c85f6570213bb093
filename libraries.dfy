/**
 * The sequencing libraries of utils.py: FASTQ libraries, the pools that
 * merge a sample's replicates, and the lookups built over them.
 */
module Libraries {
  import opened Wrappers
  import opened Grouping

  /** One row of `libraries.tsv`: a replicate of a sample, with its barcode and FASTQ base name. */
  datatype FastqLibrary = FastqLibrary(sample: string, replicate: string, barcode: string, fastqbase: string) {

    /** `FastqLibrary.name`: `<sample>_rep<replicate>`. */
    function Name(): (n: string)
      ensures |n| == |sample| + 4 + |replicate|
      ensures n[..|sample|] == sample && n[|sample|..|sample| + 4] == "_rep" && n[|sample| + 4..] == replicate
    {
      sample + "_rep" + replicate
    }
  }

  /** All replicates of one sample, merged. */
  datatype PooledLibrary = PooledLibrary(sample: string, replicates: seq<FastqLibrary>) {

    /** `PooledLibrary.name`: `<sample>_pooled`. */
    function Name(): (n: string)
      ensures |n| == |sample| + 7
      ensures n[..|sample|] == sample && n[|sample|..] == "_pooled"
    {
      sample + "_pooled"
    }
  }

  /** A `Library` of either kind, as `library_map` holds them. */
  datatype Library = Fastq(fastq: FastqLibrary) | Pooled(pool: PooledLibrary)

  function SampleOf(library: FastqLibrary): string {
    library.sample
  }

  function ReplicateOf(library: FastqLibrary): string {
    library.replicate
  }

  function FastqBaseOf(library: FastqLibrary): string {
    library.fastqbase
  }

  /** For one sample, the replicate name determines the library name and back. */
  lemma ReplicateNamesDistinct(a: FastqLibrary, b: FastqLibrary)
    requires a.sample == b.sample
    ensures a.Name() == b.Name() <==> a.replicate == b.replicate
  {
    if a.Name() == b.Name() {
      assert a.replicate == a.Name()[|a.sample| + 4..];
    }
  }

  /** A pool's name is never the name of one of its sample's replicates. */
  lemma PoolNameIsNoReplicateName(l: FastqLibrary, p: PooledLibrary)
    requires l.sample == p.sample
    ensures l.Name() != p.Name()
  {
    var k := |l.sample| + 1;
    if |l.Name()| == |p.Name()| {
      assert l.Name()[k] == 'r';
      assert p.Name()[k] == 'p';
    }
  }

  // ---------------------------------------------------------------------
  // group_libraries_by_sample
  // ---------------------------------------------------------------------

  /** The pool of each sample of `ks`: that sample's libraries, in input order. */
  function PoolsAt(ks: seq<string>, libraries: seq<FastqLibrary>): (pools: seq<PooledLibrary>)
    ensures |pools| == |ks|
    ensures forall j :: 0 <= j < |ks| ==> pools[j] == PooledLibrary(ks[j], WithKey(libraries, SampleOf, ks[j]))
  {
    if ks == [] then [] else PoolsAt(Init(ks), libraries) + [PooledLibrary(Last(ks), WithKey(libraries, SampleOf, Last(ks)))]
  }

  /** What `group_libraries_by_sample` yields: one pool per sample, samples in first-appearance order. */
  function PoolsOf(libraries: seq<FastqLibrary>): seq<PooledLibrary> {
    PoolsAt(Keys(libraries, SampleOf), libraries)
  }

  /** `group_libraries_by_sample(libraries)`: fills a `defaultdict(list)` keyed by sample, then yields a pool per key. */
  method GroupLibrariesBySample(libraries: seq<FastqLibrary>) returns (pools: seq<PooledLibrary>)
    ensures pools == PoolsOf(libraries)
  {
    var order, samples := LibrariesBySample(libraries);
    pools := [];
    for j := 0 to |order|
      invariant pools == PoolsAt(order[..j], libraries)
    {
      assert Init(order[..j + 1]) == order[..j] && Last(order[..j + 1]) == order[j];
      assert order[j] in order;
      pools := pools + [PooledLibrary(order[j], samples[order[j]])];
    }
    assert order[..|order|] == order;
  }

  /** The `samples` dict of `group_libraries_by_sample`, with its key order. */
  method LibrariesBySample(libraries: seq<FastqLibrary>) returns (order: seq<string>, samples: map<string, seq<FastqLibrary>>)
    ensures order == Keys(libraries, SampleOf)
    ensures forall k :: k in samples <==> k in order
    ensures forall k :: k in samples ==> samples[k] == WithKey(libraries, SampleOf, k)
  {
    order, samples := [], map[];
    for i := 0 to |libraries|
      invariant order == Keys(libraries[..i], SampleOf)
      invariant forall k :: k in samples <==> k in order
      invariant forall k :: k in samples ==> samples[k] == WithKey(libraries[..i], SampleOf, k)
    {
      var library := libraries[i];
      SamplesMapStep(libraries, i, order, samples);
      // `samples` is a `defaultdict(list)`: a new sample starts from `[]` and joins the key order.
      var replicates := if library.sample in samples then samples[library.sample] else [];
      if library.sample !in samples {
        order := order + [library.sample];
      }
      samples := samples[library.sample := replicates + [library]];
    }
    assert libraries[..|libraries|] == libraries;
  }

  /** The loop invariants of `LibrariesBySample` survive one more library. */
  lemma SamplesMapStep(libraries: seq<FastqLibrary>, i: nat, order: seq<string>, samples: map<string, seq<FastqLibrary>>)
    requires i < |libraries|
    requires order == Keys(libraries[..i], SampleOf)
    requires forall k :: k in samples <==> k in order
    requires forall k :: k in samples ==> samples[k] == WithKey(libraries[..i], SampleOf, k)
    ensures var x := libraries[i];
      var order' := if x.sample in samples then order else order + [x.sample];
      var samples' := samples[x.sample := (if x.sample in samples then samples[x.sample] else []) + [x]];
      && order' == Keys(libraries[..i + 1], SampleOf)
      && (forall k :: k in samples' <==> k in order')
      && (forall k :: k in samples' ==> samples'[k] == WithKey(libraries[..i + 1], SampleOf, k))
  {
    var x := libraries[i];
    var order' := if x.sample in samples then order else order + [x.sample];
    var samples' := samples[x.sample := (if x.sample in samples then samples[x.sample] else []) + [x]];
    SampleStep(libraries, i);
    forall k | k in samples'
      ensures samples'[k] == WithKey(libraries[..i + 1], SampleOf, k)
    {
      if k != x.sample {
        assert samples'[k] == samples[k];
      }
    }
  }

  /** One more library: its sample's group grows by it, a new sample is appended to the key order. */
  lemma SampleStep(libraries: seq<FastqLibrary>, i: nat)
    requires i < |libraries|
    ensures var xs, x := libraries[..i], libraries[i];
      && Keys(libraries[..i + 1], SampleOf) == (if x.sample in Keys(xs, SampleOf) then Keys(xs, SampleOf) else Keys(xs, SampleOf) + [x.sample])
      && (forall k :: WithKey(libraries[..i + 1], SampleOf, k) == WithKey(xs, SampleOf, k) + (if k == x.sample then [x] else []))
      && (x.sample !in Keys(xs, SampleOf) ==> WithKey(xs, SampleOf, x.sample) == [])
  {
    var xs, x := libraries[..i], libraries[i];
    assert libraries[..i + 1] == xs + [x];
    assert Init(xs + [x]) == xs && Last(xs + [x]) == x;
    forall k ensures WithKey(libraries[..i + 1], SampleOf, k) == WithKey(xs, SampleOf, k) + (if k == x.sample then [x] else []) {
      WithKeySnoc(xs, x, SampleOf, k);
    }
    if x.sample !in Keys(xs, SampleOf) {
      WithKeyAbsent(xs, SampleOf, x.sample);
    }
  }

  /** The replicates of each pool, in pool order. */
  function ReplicateLists(pools: seq<PooledLibrary>): (rs: seq<seq<FastqLibrary>>)
    ensures |rs| == |pools|
    ensures forall j :: 0 <= j < |pools| ==> rs[j] == pools[j].replicates
  {
    if pools == [] then [] else [pools[0].replicates] + ReplicateLists(pools[1..])
  }

  /**
   * The pools partition the libraries: their samples are distinct, each pool
   * is non-empty and holds only its own sample, and concatenating all
   * replicates gives a permutation of the input.
   */
  lemma PoolsPartition(libraries: seq<FastqLibrary>)
    ensures var pools := PoolsOf(libraries);
      && (forall j, m :: 0 <= j < m < |pools| ==> pools[j].sample != pools[m].sample)
      && (forall j :: 0 <= j < |pools| ==> pools[j].replicates != [])
      && (forall j, l :: 0 <= j < |pools| && l in pools[j].replicates ==> l.sample == pools[j].sample)
      && multiset(Flatten(ReplicateLists(pools))) == multiset(libraries)
  {
    var ks := Keys(libraries, SampleOf);
    var pools := PoolsOf(libraries);
    PointwiseEqual(ReplicateLists(pools), GroupsOf(libraries, SampleOf));
    GroupsArePermutation(libraries, SampleOf);
    forall j | 0 <= j < |pools|
      ensures pools[j].replicates != []
      ensures forall l :: l in pools[j].replicates ==> l.sample == pools[j].sample
    {
      PoolMembers(libraries, ks[j]);
    }
  }

  /** The group of a sample that occurs is non-empty and holds only that sample. */
  lemma PoolMembers(libraries: seq<FastqLibrary>, sample: string)
    requires sample in Keys(libraries, SampleOf)
    ensures WithKey(libraries, SampleOf, sample) != []
    ensures forall l :: l in WithKey(libraries, SampleOf, sample) ==> l.sample == sample
  {
    WithKeyMembers(libraries, SampleOf, sample);
    var ks := Keys(libraries, SampleOf);
    var j :| 0 <= j < |ks| && ks[j] == sample;
    var i :| 0 <= i < |libraries| && SampleOf(libraries[i]) == sample;
    assert libraries[i] in WithKey(libraries, SampleOf, sample);
  }

  // ---------------------------------------------------------------------
  // get_replicates
  // ---------------------------------------------------------------------

  /** `get_replicates(libraries, sample)`: the replicate names of the sample's libraries, in input order. */
  function GetReplicates(libraries: seq<FastqLibrary>, sample: string): (replicates: seq<string>)
    ensures |replicates| <= |libraries|
  {
    if libraries == [] then []
    else GetReplicates(Init(libraries), sample) + (if Last(libraries).sample == sample then [Last(libraries).replicate] else [])
  }

  /** The replicate names of some libraries. */
  function ReplicateNames(libraries: seq<FastqLibrary>): (names: seq<string>)
    ensures |names| == |libraries|
    ensures forall i :: 0 <= i < |libraries| ==> names[i] == libraries[i].replicate
  {
    if libraries == [] then [] else [libraries[0].replicate] + ReplicateNames(libraries[1..])
  }

  lemma ReplicateNamesSnoc(libraries: seq<FastqLibrary>, l: FastqLibrary)
    ensures ReplicateNames(libraries + [l]) == ReplicateNames(libraries) + [l.replicate]
  {
  }

  /** `get_replicates` lists exactly the replicates of the sample's pool, in the same order. */
  lemma {:induction false} GetReplicatesOfPool(libraries: seq<FastqLibrary>, sample: string)
    ensures GetReplicates(libraries, sample) == ReplicateNames(WithKey(libraries, SampleOf, sample))
  {
    if libraries != [] {
      GetReplicatesOfPool(Init(libraries), sample);
      if Last(libraries).sample == sample {
        ReplicateNamesSnoc(WithKey(Init(libraries), SampleOf, sample), Last(libraries));
      }
    }
  }

  /** A name is listed exactly when a library of the sample carries it. */
  lemma GetReplicatesMembers(libraries: seq<FastqLibrary>, sample: string)
    ensures forall r :: r in GetReplicates(libraries, sample) <==>
      exists i :: 0 <= i < |libraries| && libraries[i].sample == sample && libraries[i].replicate == r
  {
    GetReplicatesOfPool(libraries, sample);
    var group := WithKey(libraries, SampleOf, sample);
    WithKeyMembers(libraries, SampleOf, sample);
    forall r | r in GetReplicates(libraries, sample)
      ensures exists i :: 0 <= i < |libraries| && libraries[i].sample == sample && libraries[i].replicate == r
    {
      var m :| 0 <= m < |group| && group[m].replicate == r;
      assert group[m] in group;
      var i :| 0 <= i < |libraries| && libraries[i] == group[m];
    }
    forall i | 0 <= i < |libraries| && libraries[i].sample == sample
      ensures libraries[i].replicate in GetReplicates(libraries, sample)
    {
      assert libraries[i] in group;
      var m :| 0 <= m < |group| && group[m] == libraries[i];
      assert ReplicateNames(group)[m] == libraries[i].replicate;
    }
  }

  // ---------------------------------------------------------------------
  // map_fastq_prefix_to_list_of_libraries
  // ---------------------------------------------------------------------

  /** `map_fastq_prefix_to_list_of_libraries`: `groupby` over the libraries sorted by FASTQ base. */
  function MapFastqPrefixToListOfLibraries(libraries: seq<FastqLibrary>): map<string, seq<FastqLibrary>> {
    var sorted := SortByKey(libraries, FastqBaseOf);
    PairsToMap(ConsecutiveGroups(sorted, FastqBaseOf))
  }

  /**
   * The keys are exactly the FASTQ bases that occur, and each maps to all
   * the libraries with that base, in their input order (the sort is stable).
   */
  lemma MapFastqPrefixGroups(libraries: seq<FastqLibrary>)
    ensures var m := MapFastqPrefixToListOfLibraries(libraries);
      && (forall base :: base in m <==> exists i :: 0 <= i < |libraries| && libraries[i].fastqbase == base)
      && (forall base :: base in m ==> m[base] == WithKey(libraries, FastqBaseOf, base))
  {
    var sorted := SortByKey(libraries, FastqBaseOf);
    var m := MapFastqPrefixToListOfLibraries(libraries);
    SortByKeySorted(libraries, FastqBaseOf);
    GroupSortedRuns(sorted, FastqBaseOf);
    forall base
      ensures (base in m <==> exists i :: 0 <= i < |libraries| && libraries[i].fastqbase == base)
      ensures base in m ==> m[base] == WithKey(libraries, FastqBaseOf, base)
    {
      SortByKeyStable(libraries, FastqBaseOf, base);
      WithKeyMembers(libraries, FastqBaseOf, base);
      if WithKey(libraries, FastqBaseOf, base) != [] {
        var l := WithKey(libraries, FastqBaseOf, base)[0];
        assert l in WithKey(libraries, FastqBaseOf, base);
      }
    }
  }

  // ---------------------------------------------------------------------
  // read_scaling_groups and get_normalization_pairs
  // ---------------------------------------------------------------------

  datatype TreatmentControlPair = TreatmentControlPair(treatment: Library, control: Library)

  datatype ScalingGroup = ScalingGroup(normalizationPairs: seq<TreatmentControlPair>, name: string)

  /** One row of `groups.tsv`, its four fields named: treatment sample, replicate, control sample, group. */
  datatype GroupRow = GroupRow(treatment: string, replicate: string, control: string, group: string)

  /** The row `read_tsv(..., columns=4)` yields, with its fields in order. */
  function GroupRowOf(fields: seq<string>): (row: GroupRow)
    requires |fields| == 4
    ensures [row.treatment, row.replicate, row.control, row.group] == fields
  {
    GroupRow(fields[0], fields[1], fields[2], fields[3])
  }

  /** The `KeyError` raised for a `(sample, replicate)` key missing from `library_map`. */
  datatype KeyError = KeyError(sample: string, replicate: string)

  type LibraryMap = map<(string, string), Library>

  function SampleReplicateOf(library: FastqLibrary): (string, string) {
    (library.sample, library.replicate)
  }

  function GroupOf(row: GroupRow): string {
    row.group
  }

  /** The dict comprehension over the libraries: a later library with the same key replaces an earlier one. */
  function FastqEntries(libraries: seq<FastqLibrary>): LibraryMap {
    if libraries == [] then map[]
    else FastqEntries(Init(libraries))[SampleReplicateOf(Last(libraries)) := Fastq(Last(libraries))]
  }

  /** `m` with the pool of each sample of `ks` entered under `(sample, "pooled")`. */
  function PoolEntries(m: LibraryMap, ks: seq<string>, libraries: seq<FastqLibrary>): LibraryMap {
    if ks == [] then m
    else PoolEntries(m, Init(ks), libraries)[(Last(ks), "pooled") := Pooled(PooledLibrary(Last(ks), WithKey(libraries, SampleOf, Last(ks))))]
  }

  /** The `library_map` of `read_scaling_groups`. */
  function LibraryMapOf(libraries: seq<FastqLibrary>): LibraryMap {
    PoolEntries(FastqEntries(libraries), Keys(libraries, SampleOf), libraries)
  }

  /** A FASTQ library is found under its (sample, replicate) key; the last one listed wins. */
  lemma {:induction false} FastqEntriesLastWins(libraries: seq<FastqLibrary>, key: (string, string))
    ensures var same := WithKey(libraries, SampleReplicateOf, key);
      && (key in FastqEntries(libraries) <==> same != [])
      && (key in FastqEntries(libraries) ==> FastqEntries(libraries)[key] == Fastq(Last(same)))
  {
    if libraries != [] {
      FastqEntriesLastWins(Init(libraries), key);
    }
  }

  lemma {:induction false} PoolEntriesAt(m: LibraryMap, ks: seq<string>, libraries: seq<FastqLibrary>, key: (string, string))
    ensures var pooled := key.1 == "pooled" && key.0 in ks;
      && (key in PoolEntries(m, ks, libraries) <==> key in m || pooled)
      && (pooled ==> PoolEntries(m, ks, libraries)[key] == Pooled(PooledLibrary(key.0, WithKey(libraries, SampleOf, key.0))))
      && (key in m && !pooled ==> PoolEntries(m, ks, libraries)[key] == m[key])
  {
    if ks != [] {
      PoolEntriesAt(m, Init(ks), libraries, key);
      assert ks == Init(ks) + [Last(ks)];
    }
  }

  /**
   * `library_map`: under `(sample, "pooled")` the pool of every sample that
   * occurs; under any other `(sample, replicate)` the last library with that
   * key, if there is one.
   */
  lemma LibraryMapEntries(libraries: seq<FastqLibrary>, sample: string, replicate: string)
    ensures var m, key := LibraryMapOf(libraries), (sample, replicate);
      var same := WithKey(libraries, SampleReplicateOf, key);
      && (replicate == "pooled" ==>
            && (key in m <==> sample in Keys(libraries, SampleOf))
            && (key in m ==> m[key] == Pooled(PooledLibrary(sample, WithKey(libraries, SampleOf, sample)))))
      && (replicate != "pooled" ==>
            && (key in m <==> same != [])
            && (key in m ==> m[key] == Fastq(Last(same))))
  {
    var key := (sample, replicate);
    var ks := Keys(libraries, SampleOf);
    var same := WithKey(libraries, SampleReplicateOf, key);
    FastqEntriesLastWins(libraries, key);
    PoolEntriesAt(FastqEntries(libraries), ks, libraries, key);
    if same != [] {
      WithKeyMembers(libraries, SampleReplicateOf, key);
      assert same[0] in same;
      var i :| 0 <= i < |libraries| && libraries[i] == same[0];
      assert SampleOf(libraries[i]) in ks;
    }
  }

  function Lookup(m: LibraryMap, sample: string, replicate: string): (r: Result<Library, KeyError>)
    ensures r.Ok? <==> (sample, replicate) in m
    ensures r.Ok? ==> r.value == m[(sample, replicate)]
    ensures r.Err? ==> r.error == KeyError(sample, replicate)
  {
    if (sample, replicate) in m then Ok(m[(sample, replicate)]) else Err(KeyError(sample, replicate))
  }

  /**
   * `library_map[(sample, replicate)]`: a pooled key finds the pool of a
   * sample that occurs, any other key the last library listed with it, and
   * a key that finds nothing raises `KeyError` with that key.
   */
  lemma LookupInLibraryMap(libraries: seq<FastqLibrary>, sample: string, replicate: string)
    ensures var r := Lookup(LibraryMapOf(libraries), sample, replicate);
      var same := WithKey(libraries, SampleReplicateOf, (sample, replicate));
      && (replicate == "pooled" ==>
           && (r.Ok? <==> sample in Keys(libraries, SampleOf))
           && (r.Ok? ==> r.value == Pooled(PooledLibrary(sample, WithKey(libraries, SampleOf, sample)))))
      && (replicate != "pooled" ==>
           && (r.Ok? <==> same != [])
           && (r.Ok? ==> r.value == Fastq(Last(same))))
      && (r.Err? ==> r.error == KeyError(sample, replicate))
  {
    LibraryMapEntries(libraries, sample, replicate);
  }

  /** A row whose treatment and control keys are both in the map. */
  predicate Resolvable(m: LibraryMap, row: GroupRow) {
    (row.treatment, row.replicate) in m && (row.control, row.replicate) in m
  }

  /** The key a row that does not resolve fails on: the treatment key is looked up first. */
  function MissingKey(m: LibraryMap, row: GroupRow): KeyError {
    if (row.treatment, row.replicate) !in m then KeyError(row.treatment, row.replicate)
    else KeyError(row.control, row.replicate)
  }

  /** The pair for one row; the treatment key is looked up first. */
  function PairFor(m: LibraryMap, row: GroupRow): Result<TreatmentControlPair, KeyError> {
    var treatment :- Lookup(m, row.treatment, row.replicate);
    var control :- Lookup(m, row.control, row.replicate);
    Ok(TreatmentControlPair(treatment, control))
  }

  /** The pairs of the rows in order, or the error of the first row with a missing key. */
  function PairsFor(m: LibraryMap, rows: seq<GroupRow>): Result<seq<TreatmentControlPair>, KeyError> {
    if rows == [] then Ok([])
    else
      var pairs :- PairsFor(m, Init(rows));
      var pair :- PairFor(m, Last(rows));
      Ok(pairs + [pair])
  }

  /** Each row's pair with the row's group name, or the error of the first row with a missing key. */
  function NamedPairs(m: LibraryMap, rows: seq<GroupRow>): Result<seq<(string, TreatmentControlPair)>, KeyError> {
    if rows == [] then Ok([])
    else
      var named :- NamedPairs(m, Init(rows));
      var pair :- PairFor(m, Last(rows));
      Ok(named + [(Last(rows).group, pair)])
  }

  function NameOf(named: (string, TreatmentControlPair)): string {
    named.0
  }

  /** The pairs of some named pairs, names dropped. */
  function Seconds(named: seq<(string, TreatmentControlPair)>): (pairs: seq<TreatmentControlPair>)
    ensures |pairs| == |named|
  {
    if named == [] then [] else Seconds(Init(named)) + [Last(named).1]
  }

  /** The group of each name of `ks`: the pairs filed under it, in row order. */
  function ScalingGroupsAt(ks: seq<string>, named: seq<(string, TreatmentControlPair)>): (groups: seq<ScalingGroup>)
    ensures |groups| == |ks|
  {
    if ks == [] then []
    else ScalingGroupsAt(Init(ks), named) + [ScalingGroup(Seconds(WithKey(named, NameOf, Last(ks))), Last(ks))]
  }

  /** What `read_scaling_groups` yields: the rows are resolved in order, then one group per name in first-appearance order. */
  function ScalingGroupsOf(libraries: seq<FastqLibrary>, rows: seq<GroupRow>): Result<seq<ScalingGroup>, KeyError> {
    var named :- NamedPairs(LibraryMapOf(libraries), rows);
    Ok(ScalingGroupsAt(Keys(named, NameOf), named))
  }

  /** `read_scaling_groups(libraries)`, fed the rows of `groups.tsv`. */
  method ReadScalingGroups(libraries: seq<FastqLibrary>, rows: seq<GroupRow>) returns (r: Result<seq<ScalingGroup>, KeyError>)
    ensures r == ScalingGroupsOf(libraries, rows)
  {
    var libraryMap := BuildLibraryMap(libraries);
    var filled, named := FillScalingMap(libraryMap, rows);
    if filled.Err? {
      return Err(filled.error);
    }
    var order, scalingMap := filled.value.0, filled.value.1;
    var groups := YieldScalingGroups(order, scalingMap, named);
    return Ok(groups);
  }

  /** The closing loop of `read_scaling_groups`: a group per name of the dict, in key order. */
  method YieldScalingGroups(order: seq<string>, scalingMap: map<string, seq<TreatmentControlPair>>, ghost named: seq<(string, TreatmentControlPair)>)
    returns (groups: seq<ScalingGroup>)
    requires forall k :: k in order ==> k in scalingMap && scalingMap[k] == Seconds(WithKey(named, NameOf, k))
    ensures groups == ScalingGroupsAt(order, named)
  {
    groups := [];
    for j := 0 to |order|
      invariant groups == ScalingGroupsAt(order[..j], named)
    {
      var name := order[j];
      assert Init(order[..j + 1]) == order[..j] && Last(order[..j + 1]) == name;
      assert name in order;
      groups := groups + [ScalingGroup(scalingMap[name], name)];
    }
    assert order[..|order|] == order;
  }

  /**
   * The row loop of `read_scaling_groups`: the `scaling_map` dict from group
   * name to pairs, with its key order, or the `KeyError` of the first row
   * with a missing key.
   */
  method FillScalingMap(libraryMap: LibraryMap, rows: seq<GroupRow>)
    returns (r: Result<(seq<string>, map<string, seq<TreatmentControlPair>>), KeyError>, ghost named: seq<(string, TreatmentControlPair)>)
    ensures r.Err? ==> NamedPairs(libraryMap, rows) == Err(r.error)
    ensures r.Ok? ==> NamedPairs(libraryMap, rows) == Ok(named)
    ensures r.Ok? ==> var (order, scalingMap) := r.value;
      && order == Keys(named, NameOf)
      && (forall k :: k in scalingMap <==> k in order)
      && (forall k :: k in scalingMap ==> scalingMap[k] == Seconds(WithKey(named, NameOf, k)))
  {
    var order: seq<string> := [];
    var scalingMap: map<string, seq<TreatmentControlPair>> := map[];
    named := [];
    for i := 0 to |rows|
      invariant NamedPairs(libraryMap, rows[..i]) == Ok(named)
      invariant order == Keys(named, NameOf)
      invariant forall k :: k in scalingMap <==> k in order
      invariant forall k :: k in scalingMap ==> scalingMap[k] == Seconds(WithKey(named, NameOf, k))
    {
      var row := rows[i];
      if (row.treatment, row.replicate) !in libraryMap {
        RowError(libraryMap, rows, i);
        return Err(KeyError(row.treatment, row.replicate)), named;
      }
      var treatment := libraryMap[(row.treatment, row.replicate)];
      if (row.control, row.replicate) !in libraryMap {
        RowError(libraryMap, rows, i);
        return Err(KeyError(row.control, row.replicate)), named;
      }
      var control := libraryMap[(row.control, row.replicate)];
      var pair := TreatmentControlPair(treatment, control);
      ScalingMapStep(libraryMap, rows, i, named, order, scalingMap);
      // `scaling_map` is a `defaultdict(list)`: a new name starts from `[]` and joins the key order.
      var pairs := if row.group in scalingMap then scalingMap[row.group] else [];
      if row.group !in scalingMap {
        order := order + [row.group];
      }
      scalingMap := scalingMap[row.group := pairs + [pair]];
      named := named + [(row.group, pair)];
    }
    assert rows[..|rows|] == rows;
    return Ok((order, scalingMap)), named;
  }

  /** The `library_map` dict: every library under its key, then every pool under `(sample, "pooled")`. */
  method BuildLibraryMap(libraries: seq<FastqLibrary>) returns (libraryMap: LibraryMap)
    ensures libraryMap == LibraryMapOf(libraries)
  {
    libraryMap := map[];
    for i := 0 to |libraries|
      invariant libraryMap == FastqEntries(libraries[..i])
    {
      assert Init(libraries[..i + 1]) == libraries[..i] && Last(libraries[..i + 1]) == libraries[i];
      libraryMap := libraryMap[(libraries[i].sample, libraries[i].replicate) := Fastq(libraries[i])];
    }
    assert libraries[..|libraries|] == libraries;
    var pools := GroupLibrariesBySample(libraries);
    ghost var ks := Keys(libraries, SampleOf);
    for j := 0 to |pools|
      invariant libraryMap == PoolEntries(FastqEntries(libraries), ks[..j], libraries)
    {
      assert Init(ks[..j + 1]) == ks[..j] && Last(ks[..j + 1]) == ks[j];
      libraryMap := libraryMap[(pools[j].sample, "pooled") := Pooled(pools[j])];
    }
    assert ks[..|ks|] == ks;
  }

  /** One more resolved row: its named pair is appended. */
  lemma NamedStep(m: LibraryMap, rows: seq<GroupRow>, i: nat, named: seq<(string, TreatmentControlPair)>)
    requires i < |rows| && Resolvable(m, rows[i])
    requires NamedPairs(m, rows[..i]) == Ok(named)
    ensures var x := rows[i];
      NamedPairs(m, rows[..i + 1]) == Ok(named + [(x.group, TreatmentControlPair(m[(x.treatment, x.replicate)], m[(x.control, x.replicate)]))])
  {
    var xs, x := rows[..i], rows[i];
    assert rows[..i + 1] == xs + [x];
    assert Init(xs + [x]) == xs && Last(xs + [x]) == x;
  }

  /** One more named pair: its name joins the key order if new, and its group's pairs grow by it. */
  lemma NamedSnoc(named: seq<(string, TreatmentControlPair)>, np: (string, TreatmentControlPair))
    ensures Keys(named + [np], NameOf) == (if np.0 in Keys(named, NameOf) then Keys(named, NameOf) else Keys(named, NameOf) + [np.0])
    ensures forall k :: Seconds(WithKey(named + [np], NameOf, k)) == Seconds(WithKey(named, NameOf, k)) + (if k == np.0 then [np.1] else [])
    ensures np.0 !in Keys(named, NameOf) ==> WithKey(named, NameOf, np.0) == []
  {
    assert Init(named + [np]) == named && Last(named + [np]) == np;
    forall k ensures Seconds(WithKey(named + [np], NameOf, k)) == Seconds(WithKey(named, NameOf, k)) + (if k == np.0 then [np.1] else []) {
      WithKeySnoc(named, np, NameOf, k);
      var ws := WithKey(named, NameOf, k);
      if k == np.0 {
        assert Init(ws + [np]) == ws && Last(ws + [np]) == np;
      } else {
        assert ws + [] == ws;
      }
    }
    if np.0 !in Keys(named, NameOf) {
      WithKeyAbsent(named, NameOf, np.0);
    }
  }

  /** The loop body of `FillScalingMap` keeps its invariant. */
  lemma ScalingMapStep(m: LibraryMap, rows: seq<GroupRow>, i: nat, named: seq<(string, TreatmentControlPair)>,
                       order: seq<string>, scalingMap: map<string, seq<TreatmentControlPair>>)
    requires i < |rows| && Resolvable(m, rows[i])
    requires NamedPairs(m, rows[..i]) == Ok(named)
    requires order == Keys(named, NameOf)
    requires forall k :: k in scalingMap <==> k in order
    requires forall k :: k in scalingMap ==> scalingMap[k] == Seconds(WithKey(named, NameOf, k))
    ensures var x := rows[i];
      var p := TreatmentControlPair(m[(x.treatment, x.replicate)], m[(x.control, x.replicate)]);
      var named' := named + [(x.group, p)];
      var order' := if x.group in scalingMap then order else order + [x.group];
      var map' := scalingMap[x.group := (if x.group in scalingMap then scalingMap[x.group] else []) + [p]];
      && NamedPairs(m, rows[..i + 1]) == Ok(named')
      && order' == Keys(named', NameOf)
      && (forall k :: k in map' <==> k in order')
      && (forall k :: k in map' ==> map'[k] == Seconds(WithKey(named', NameOf, k)))
  {
    var x := rows[i];
    var p := TreatmentControlPair(m[(x.treatment, x.replicate)], m[(x.control, x.replicate)]);
    var named' := named + [(x.group, p)];
    var old' := if x.group in scalingMap then scalingMap[x.group] else [];
    var map' := scalingMap[x.group := old' + [p]];
    NamedStep(m, rows, i, named);
    NamedSnoc(named, (x.group, p));
    assert old' == Seconds(WithKey(named, NameOf, x.group)) by {
      if x.group !in scalingMap {
        assert Seconds([]) == [];
      }
    }
    forall k | k in map'
      ensures map'[k] == Seconds(WithKey(named', NameOf, k))
    {
      if k != x.group {
        assert map'[k] == scalingMap[k];
      }
    }
  }

  /** The first row with a missing key decides the error: the treatment key is tried first. */
  lemma RowError(m: LibraryMap, rows: seq<GroupRow>, i: nat)
    requires i < |rows| && NamedPairs(m, rows[..i]).Ok? && !Resolvable(m, rows[i])
    ensures NamedPairs(m, rows) == Err(MissingKey(m, rows[i]))
  {
    var xs, x := rows[..i], rows[i];
    assert rows[..i + 1] == xs + [x];
    assert Init(xs + [x]) == xs && Last(xs + [x]) == x;
    NamedPairsErrExtends(m, rows, i + 1);
  }

  /** An error on a prefix of the rows is the error of all of them. */
  lemma {:induction false} NamedPairsErrExtends(m: LibraryMap, rows: seq<GroupRow>, n: nat)
    requires n <= |rows| && NamedPairs(m, rows[..n]).Err?
    ensures NamedPairs(m, rows) == NamedPairs(m, rows[..n])
    decreases |rows| - n
  {
    if n < |rows| {
      var init := Init(rows);
      assert init[..n] == rows[..n];
      NamedPairsErrExtends(m, init, n);
    } else {
      assert rows[..n] == rows;
    }
  }

  /**
   * The rows resolve exactly when both keys of every row are in the map;
   * then each row gives its group name and its (treatment, control) pair.
   */
  lemma {:induction false} NamedPairsOk(m: LibraryMap, rows: seq<GroupRow>)
    ensures NamedPairs(m, rows).Ok? <==> forall i :: 0 <= i < |rows| ==> Resolvable(m, rows[i])
    ensures NamedPairs(m, rows).Ok? ==> var named := NamedPairs(m, rows).value;
      && |named| == |rows|
      && forall i :: 0 <= i < |rows| ==>
           named[i] == (rows[i].group, TreatmentControlPair(m[(rows[i].treatment, rows[i].replicate)], m[(rows[i].control, rows[i].replicate)]))
  {
    if rows != [] {
      var init, x := Init(rows), Last(rows);
      NamedPairsOk(m, init);
      assert forall i :: 0 <= i < |init| ==> init[i] == rows[i];
      if NamedPairs(m, init).Ok? && Resolvable(m, x) {
        var named0 := NamedPairs(m, init).value;
        var np := (x.group, TreatmentControlPair(m[(x.treatment, x.replicate)], m[(x.control, x.replicate)]));
        assert NamedPairs(m, rows).value == named0 + [np];
      }
    }
  }

  /** The first row with a missing key decides the error, and the rows before it all resolve. */
  lemma {:induction false} NamedPairsFirstError(m: LibraryMap, rows: seq<GroupRow>)
    requires NamedPairs(m, rows).Err?
    ensures exists i ::
      && 0 <= i < |rows|
      && (forall j :: 0 <= j < i ==> Resolvable(m, rows[j]))
      && !Resolvable(m, rows[i])
      && NamedPairs(m, rows).error == MissingKey(m, rows[i])
  {
    var init := Init(rows);
    assert forall j :: 0 <= j < |rows| - 1 ==> init[j] == rows[j];
    if NamedPairs(m, init).Err? {
      NamedPairsFirstError(m, init);
      var i :|
        && 0 <= i < |init|
        && (forall j :: 0 <= j < i ==> Resolvable(m, init[j]))
        && !Resolvable(m, init[i])
        && NamedPairs(m, init).error == MissingKey(m, init[i]);
      assert rows[i] == init[i];
    } else {
      NamedPairsOk(m, init);
      assert !Resolvable(m, rows[|rows| - 1]);
    }
  }

  /** The names of the named pairs are the group names of the rows, in first-appearance order. */
  lemma {:induction false} NamedPairsKeys(m: LibraryMap, rows: seq<GroupRow>)
    requires NamedPairs(m, rows).Ok?
    ensures Keys(NamedPairs(m, rows).value, NameOf) == Keys(rows, GroupOf)
  {
    if rows != [] {
      var init := Init(rows);
      NamedPairsKeys(m, init);
      var named := NamedPairs(m, rows).value;
      assert Init(named) == NamedPairs(m, init).value && NameOf(Last(named)) == GroupOf(Last(rows));
    }
  }

  /** The pairs filed under a name are the pairs of the rows of that group, in row order. */
  lemma {:induction false} NamedPairsGroup(m: LibraryMap, rows: seq<GroupRow>, g: string)
    requires NamedPairs(m, rows).Ok?
    ensures PairsFor(m, WithKey(rows, GroupOf, g)) == Ok(Seconds(WithKey(NamedPairs(m, rows).value, NameOf, g)))
  {
    if rows != [] {
      var init, x := Init(rows), Last(rows);
      NamedPairsGroup(m, init, g);
      var named0 := NamedPairs(m, init).value;
      var np := (x.group, PairFor(m, x).value);
      assert NamedPairs(m, rows).value == named0 + [np];
      assert rows == init + [x];
      WithKeySnoc(init, x, GroupOf, g);
      WithKeySnoc(named0, np, NameOf, g);
      if x.group == g {
        var rs, ns := WithKey(init, GroupOf, g), WithKey(named0, NameOf, g);
        assert Init(rs + [x]) == rs && Last(rs + [x]) == x;
        assert Init(ns + [np]) == ns && Last(ns + [np]) == np;
      }
    }
  }

  /** All the pairs in row order, as the names are dropped. */
  lemma {:induction false} NamedPairsSeconds(m: LibraryMap, rows: seq<GroupRow>)
    requires NamedPairs(m, rows).Ok?
    ensures PairsFor(m, rows) == Ok(Seconds(NamedPairs(m, rows).value))
  {
    if rows != [] {
      var init := Init(rows);
      NamedPairsSeconds(m, init);
      var named := NamedPairs(m, rows).value;
      assert Init(named) == NamedPairs(m, init).value;
    }
  }

  lemma {:induction false} ScalingGroupsAtEach(ks: seq<string>, named: seq<(string, TreatmentControlPair)>)
    ensures forall j :: 0 <= j < |ks| ==> ScalingGroupsAt(ks, named)[j] == ScalingGroup(Seconds(WithKey(named, NameOf, ks[j])), ks[j])
  {
    if ks != [] {
      ScalingGroupsAtEach(Init(ks), named);
      assert forall j :: 0 <= j < |ks| - 1 ==> Init(ks)[j] == ks[j];
    }
  }

  /** `read_scaling_groups` succeeds exactly when every row's treatment and control keys are in `library_map`. */
  lemma ScalingGroupsOk(libraries: seq<FastqLibrary>, rows: seq<GroupRow>)
    ensures ScalingGroupsOf(libraries, rows).Ok? <==> forall i :: 0 <= i < |rows| ==> Resolvable(LibraryMapOf(libraries), rows[i])
  {
    NamedPairsOk(LibraryMapOf(libraries), rows);
  }

  /**
   * Otherwise it raises the `KeyError` of the first row with a missing key,
   * the treatment key being tried before the control key.
   */
  lemma ScalingGroupsFirstError(libraries: seq<FastqLibrary>, rows: seq<GroupRow>)
    requires ScalingGroupsOf(libraries, rows).Err?
    ensures var m := LibraryMapOf(libraries);
      exists i ::
        && 0 <= i < |rows|
        && (forall j :: 0 <= j < i ==> Resolvable(m, rows[j]))
        && !Resolvable(m, rows[i])
        && ScalingGroupsOf(libraries, rows).error == MissingKey(m, rows[i])
  {
    NamedPairsFirstError(LibraryMapOf(libraries), rows);
  }

  /**
   * One scaling group per group name, in order of first appearance in the
   * rows, each holding the pairs of its rows in row order.
   */
  lemma ScalingGroupsShape(libraries: seq<FastqLibrary>, rows: seq<GroupRow>)
    requires ScalingGroupsOf(libraries, rows).Ok?
    ensures var m, groups, names := LibraryMapOf(libraries), ScalingGroupsOf(libraries, rows).value, Keys(rows, GroupOf);
      && |groups| == |names|
      && forall j :: 0 <= j < |groups| ==>
           && groups[j].name == names[j]
           && PairsFor(m, WithKey(rows, GroupOf, names[j])) == Ok(groups[j].normalizationPairs)
  {
    var m := LibraryMapOf(libraries);
    var named := NamedPairs(m, rows).value;
    NamedPairsKeys(m, rows);
    ScalingGroupsAtEach(Keys(named, NameOf), named);
    forall g {
      NamedPairsGroup(m, rows, g);
    }
  }

  /** `get_normalization_pairs`: the pairs of all groups, group after group. */
  function GetNormalizationPairs(groups: seq<ScalingGroup>): seq<TreatmentControlPair> {
    if groups == [] then [] else GetNormalizationPairs(Init(groups)) + Last(groups).normalizationPairs
  }

  /** A pair is listed exactly when some group holds it. */
  lemma {:induction false} NormalizationPairsMembers(groups: seq<ScalingGroup>, p: TreatmentControlPair)
    ensures p in GetNormalizationPairs(groups) <==> exists j :: 0 <= j < |groups| && p in groups[j].normalizationPairs
  {
    if groups != [] {
      var init := Init(groups);
      NormalizationPairsMembers(init, p);
      assert forall j :: 0 <= j < |init| ==> init[j] == groups[j];
    }
  }

  lemma {:induction false} SecondsAppend(a: seq<(string, TreatmentControlPair)>, b: seq<(string, TreatmentControlPair)>)
    ensures Seconds(a + b) == Seconds(a) + Seconds(b)
  {
    if b != [] {
      SecondsAppend(a, Init(b));
      assert Init(a + b) == a + Init(b) && Last(a + b) == Last(b);
    } else {
      assert a + b == a;
    }
  }

  /** Taking out the element at `j` takes its pair out of the pairs. */
  lemma SecondsRemove(b: seq<(string, TreatmentControlPair)>, j: nat)
    requires j < |b|
    ensures multiset(Seconds(b)) == multiset(Seconds(b[..j] + b[j + 1..])) + multiset{b[j].1}
  {
    var before, after := b[..j], b[j + 1..];
    var rest := [b[j]] + after;
    SplitAround(b, j);
    var sb, sa := Seconds(before), Seconds(after);
    assert Seconds(b) == sb + Seconds(rest) by {
      SecondsAppend(before, rest);
    }
    assert Seconds(rest) == [b[j].1] + sa by {
      SecondsAppend([b[j]], after);
      assert Init([b[j]]) == [];
    }
    assert Seconds(before + after) == sb + sa by {
      SecondsAppend(before, after);
    }
    MultisetInsert(sb, b[j].1, sa);
  }

  lemma SplitAround<T>(b: seq<T>, j: nat)
    requires j < |b|
    ensures b == b[..j] + ([b[j]] + b[j + 1..])
  {
    assert b[j..] == [b[j]] + b[j + 1..];
    assert b == b[..j] + b[j..];
  }

  lemma MultisetInsert<T>(x: seq<T>, e: T, y: seq<T>)
    ensures multiset(x + ([e] + y)) == multiset(x + y) + multiset{e}
  {
    assert multiset(x + ([e] + y)) == multiset(x) + multiset([e] + y);
    assert multiset([e] + y) == multiset{e} + multiset(y);
    assert multiset(x + y) == multiset(x) + multiset(y);
  }

  lemma MultisetRemove<T>(a: seq<T>, b: seq<T>, j: nat)
    requires a != [] && j < |b| && b[j] == Last(a) && multiset(a) == multiset(b)
    ensures multiset(Init(a)) == multiset(b[..j] + b[j + 1..])
  {
    var before, after := b[..j], b[j + 1..];
    assert a == Init(a) + [Last(a)];
    assert b == before + [b[j]] + after;
    assert multiset(b) == multiset(before) + multiset{b[j]} + multiset(after);
    assert multiset(before + after) == multiset(before) + multiset(after);
    assert multiset(a) == multiset(Init(a)) + multiset{Last(a)};
    assert multiset(Init(a)) == multiset(a) - multiset{Last(a)};
    assert multiset(b) - multiset{b[j]} == multiset(before + after);
  }

  /** Dropping the names of a permutation gives a permutation. */
  lemma {:induction false} SecondsPermutation(a: seq<(string, TreatmentControlPair)>, b: seq<(string, TreatmentControlPair)>)
    requires multiset(a) == multiset(b)
    ensures multiset(Seconds(a)) == multiset(Seconds(b))
    decreases |a|
  {
    if a == [] {
      assert |multiset(b)| == 0;
    } else {
      var l := Last(a);
      assert l in multiset(a) by {
        assert a[|a| - 1] == l;
      }
      var j :| 0 <= j < |b| && b[j] == l;
      MultisetRemove(a, b, j);
      SecondsPermutation(Init(a), b[..j] + b[j + 1..]);
      SecondsRemove(b, j);
    }
  }

  lemma {:induction false} NormalizationPairsOfGroups(ks: seq<string>, named: seq<(string, TreatmentControlPair)>)
    ensures GetNormalizationPairs(ScalingGroupsAt(ks, named)) == Seconds(Flatten(GroupsAt(ks, named, NameOf)))
  {
    if ks != [] {
      var init, k := Init(ks), Last(ks);
      NormalizationPairsOfGroups(init, named);
      var gs := ScalingGroupsAt(ks, named);
      assert Init(gs) == ScalingGroupsAt(init, named);
      assert ks == init + [k];
      GroupsAtSnoc(init, k, named, NameOf);
      FlattenSnoc(GroupsAt(init, named, NameOf), WithKey(named, NameOf, k));
      SecondsAppend(Flatten(GroupsAt(init, named, NameOf)), WithKey(named, NameOf, k));
    } else {
      assert Seconds([]) == [];
    }
  }

  /**
   * `get_normalization_pairs` of the scaling groups lists every row's pair
   * exactly once: it is a permutation of the pairs in row order.
   */
  lemma NormalizationPairsArePermutation(libraries: seq<FastqLibrary>, rows: seq<GroupRow>)
    requires ScalingGroupsOf(libraries, rows).Ok?
    ensures PairsFor(LibraryMapOf(libraries), rows).Ok?
    ensures var pairs := GetNormalizationPairs(ScalingGroupsOf(libraries, rows).value);
      && multiset(pairs) == multiset(PairsFor(LibraryMapOf(libraries), rows).value)
      && |pairs| == |rows|
  {
    var m := LibraryMapOf(libraries);
    var named := NamedPairs(m, rows).value;
    NamedPairsSeconds(m, rows);
    NamedPairsOk(m, rows);
    NormalizationPairsOfGroups(Keys(named, NameOf), named);
    GroupsArePermutation(named, NameOf);
    SecondsPermutation(Flatten(GroupsOf(named, NameOf)), named);
    var pairs := GetNormalizationPairs(ScalingGroupsOf(libraries, rows).value);
    assert |multiset(pairs)| == |pairs|;
  }
}
