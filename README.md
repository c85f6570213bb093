# Minute: UMI deduplication and pipeline metadata, in Dafny

This project models two parts of Minute, a pipeline for MINUTE-ChIP sequencing data.

**Deduplication (`minute/se_dedup.py`).** Duplicates are found from the position of the first mate, or of the second mate when only that one is mapped.
- Each mapped record is summarised as an `AlignedSegmentSummary`: its name without the UMI, the UMI, the mate, the locus, a sequence stub, a score and single/multi mapping type.
- `AlignmentIndex` files the uniquely mapped first mates by (reference, start) in one pass. In a second pass it files the uniquely mapped second mates whose name no first mate carries. Multimapping reads go to a separate list. Python's nested `defaultdict`s, with their insertion order, are the `PositionTable` datatype.
- `FirstMateDeduplicator` clusters the UMIs of every locus holding more than one read. For each cluster it keeps the best read whose UMI occurs in the cluster's head. All other names at the locus are reported as duplicates, and the counts go into a `DedupSummary`.
- The UMI clusterer from umi_tools is a function parameter. The properties that need it to behave assume only that each cluster is non-empty and headed by one of the UMIs it was given (`HonestClusterer`). The method returns the clusterer's answer whatever it is.

**Metadata (`utils.py`).**
- `read_tsv`: reading a tab-separated file.
- The `FastqLibrary` and `PooledLibrary` names.
- `group_libraries_by_sample`, `read_scaling_groups`, `get_replicates`, `get_normalization_pairs` and `map_fastq_prefix_to_list_of_libraries`.
- `compute_genome_size`: counting the bases of a FASTA file.
- `detect_bowtie_index_name`: the candidate list of Bowtie2 index names and the search over it.

**Form.** Code that loops and updates state is modelled as methods with loop invariants:
- `count_sequences`, the two indexing passes, `count_loci`, `_find_duplicate_ids`, `mark_duplicates_by_umi` and `pick_best`;
- the dictionary-filling loops of `utils.py`, `read_tsv`, `compute_genome_size` and the candidate list of `detect_bowtie_index_name`.

Each of these methods is proved equal to a specification function. Lemmas then state what the source promises about that function. `AlignmentIndex` is a class whose constructor runs both passes over its fields. Expression-level code is modelled as functions: the summary getters, the library names, `filter_by_attribute`, `get_replicates`, `get_normalization_pairs` and `map_fastq_prefix_to_list_of_libraries`.

**Files.** One module per component:
- `wrappers.dfy`: the `Result` type;
- `text.dfy`: Python `strip`/`split`/`join`/`upper`;
- `grouping.dfy`: first-appearance grouping, Python string order, stable sort, `groupby`;
- `counting.dfy`, `segment_summary.dfy`, `position_table.dfy`, `alignment_index.dfy`, `deduplication.dfy`;
- `tsv.dfy`, `libraries.dfy`, `genome_size.dfy`, `bowtie_index.dfy`.

## Model

| member | source | states |
|---|---|---|
| Counting.Counts | minute/se_dedup.py:10-14 | every element is a key, and each key maps to its (positive) multiplicity in the input |
| Counting.CountSequences | minute/se_dedup.py:10-14 | the loop builds exactly `Counts`, and its key order is first appearance (`Keys`); keys and order agree |
| Counting.CountFoldIsCounts | minute/se_dedup.py:10-14 | the element-by-element dict fold yields first-appearance key order and the multiplicities |
| Counting.CountsKeys | minute/se_dedup.py:10-14 | the counted elements are exactly the keys in the key order |
| Counting.CountSnocStep | minute/se_dedup.py:12-13 | one more element raises its count by one (new keys start at 1) and appends a new key to the order |
| Counting.CountsSumToLength | minute/se_dedup.py:10-14 | the counts, summed in key order, add up to the input length |
| SegmentSummary.PySliceSplit | minute/se_dedup.py:60-66 | for every bound, negative or out of range, `s[:i] + s[i:]` is `s` |
| SegmentSummary.PySliceFromEnd | minute/se_dedup.py:64-66 | `s[-k:]` is the suffix of length `k`, or all of `s` when `k` is 0 or exceeds the length |
| SegmentSummary.GetType | minute/se_dedup.py:53-58 | MULTI exactly when the mapping quality is below the cutoff |
| SegmentSummary.GetName | minute/se_dedup.py:60-62 | the name is a prefix of the query name, `umi_length + 1` characters shorter (empty when the name is not longer than the UMI) |
| SegmentSummary.GetUmi | minute/se_dedup.py:64-66 | the UMI is a suffix of the query name of length `umi_length`, or the whole name when `umi_length` is 0 or exceeds it |
| SegmentSummary.GetMate | minute/se_dedup.py:68-78 | 1 exactly when flagged read 1, 2 exactly when flagged read 2 but not read 1, otherwise -1 |
| SegmentSummary.GetStub | minute/se_dedup.py:80-86 | a prefix of the query sequence of length `min(length, len)` for multimappers, empty for others |
| SegmentSummary.Summarize | minute/se_dedup.py:36-51 | the summary copies reference, start, mate start and mapping quality from the record |
| SegmentSummary.NameUmiSplit | minute/se_dedup.py:60-66 | for `1 <= umi_length < len(query_name)` the name, one separator character and the UMI concatenate to the query name |
| SegmentSummary.TypeDecidesStub | minute/se_dedup.py:53-86 | type and stub agree: single reads have an empty stub, multimappers the sequence prefix |
| SegmentSummary.TypeAndStubDependOnlyOnCutoffSide | minute/se_dedup.py:53-86 | records on the same side of the cutoff with the same sequence get the same type and stub |
| SegmentSummary.SumAppend | minute/se_dedup.py:88-90 | the score of two runs of qualities is the sum of their scores |
| SegmentSummary.ScoreBounds | minute/se_dedup.py:88-90 | with qualities in `0..hi` the score lies between 0 and `len * hi` |
| PositionTables.Append | minute/se_dedup.py:148-150 | appending at a locus creates the reference if missing |
| PositionTables.AppendBuckets | minute/se_dedup.py:148-150 | appending grows exactly the one bucket at the locus by the summary and keeps all references |
| PositionTables.AppendValid | minute/se_dedup.py:148-150 | appending keeps the table's invariant: key orders list the present keys once each, no bucket empty |
| PositionTables.AppendAllValid | minute/se_dedup.py:139-155 | filing any sequence of summaries keeps the invariant |
| PositionTables.AppendAllBuckets | minute/se_dedup.py:139-155 | after filing, each bucket is the old bucket plus the filed summaries at that locus, in input order |
| PositionTables.TableOfBuckets | minute/se_dedup.py:139-155 | each bucket of a table filled from scratch holds exactly the summaries at that locus, in order |
| PositionTables.TableOfMembers | minute/se_dedup.py:139-155 | a summary is in a bucket if and only if it was filed and sits at that locus |
| PositionTables.ListedPositionsPresent | minute/se_dedup.py:222-223 | every position listed for a reference has a bucket |
| PositionTables.LociOfAll | minute/se_dedup.py:123-128 | the loci of all references in key order are all the loci of the table |
| PositionTables.CountLoci | minute/se_dedup.py:123-128 | `count_loci` returns the number of distinct (reference, position) loci |
| AlignmentIndexing.Summaries | minute/se_dedup.py:141-145 | one summary per mapped record |
| AlignmentIndexing.SummariesAt | minute/se_dedup.py:141-145 | the i-th summary is that of the i-th record |
| AlignmentIndexing.FirstMateAddParts | minute/se_dedup.py:146-153 | one iteration of the first pass files a single first mate and lists a multimapping one; others are ignored |
| AlignmentIndexing.FirstMateAddNames | minute/se_dedup.py:146-154 | one iteration of the first pass records the name of every first mate |
| AlignmentIndexing.SecondMateAddParts | minute/se_dedup.py:165-172 | one iteration of the second pass does the same only for second mates whose name was not seen |
| AlignmentIndexing.SecondMateAddNames | minute/se_dedup.py:165-173 | one iteration of the second pass records the name of every second mate it takes |
| AlignmentIndexing.FirstPassTable | minute/se_dedup.py:139-155 | the first pass files exactly the single first mates, in record order |
| AlignmentIndexing.FirstPassMultis | minute/se_dedup.py:139-155 | the first pass appends exactly the multimapping first mates, in order |
| AlignmentIndexing.FirstPassNames | minute/se_dedup.py:139-155 | the first pass records the names of exactly the first mates, in order |
| AlignmentIndexing.SecondPassTable | minute/se_dedup.py:157-174 | the second pass files exactly the single second mates whose name is not in `seen` |
| AlignmentIndexing.SecondPassMultis | minute/se_dedup.py:157-174 | the second pass appends exactly the multimapping second mates whose name is not in `seen` |
| AlignmentIndexing.SecondPassNames | minute/se_dedup.py:157-174 | the second pass records the names of exactly those second mates |
| AlignmentIndexing.FirstMatesMembers | minute/se_dedup.py:146 | the first pass considers exactly the records with mate 1 |
| AlignmentIndexing.SecondOnlyMembers | minute/se_dedup.py:165 | the second pass considers exactly the mate-2 records whose name is not in `seen` |
| AlignmentIndexing.FirstSeenMembers | minute/se_dedup.py:139-155 | a name is returned by the first pass if and only if some first mate carries it |
| AlignmentIndexing.SecondSeenMembers | minute/se_dedup.py:157-174 | a name is returned by the second pass if and only if a second mate carries it and no first mate does |
| AlignmentIndexing.R1Buckets | minute/se_dedup.py:93-106 | the R1 table holds at each locus exactly the uniquely mapped first mates starting there |
| AlignmentIndexing.R2OnlyBuckets | minute/se_dedup.py:93-106 | the R2-only table holds at each locus exactly the uniquely mapped second mates starting there whose R1 is absent |
| AlignmentIndexing.MultimapperMembers | minute/se_dedup.py:93-106 | the multimappers are the multimapping first mates and the multimapping second mates without a first mate |
| AlignmentIndexing.CountsAreDisjoint | minute/se_dedup.py:116-121 | no name is counted by both passes, so `total` is the number of distinct names counted |
| AlignmentIndexing.TotalCountsAssignedNames | minute/se_dedup.py:116-121 | the names counted in `total` are exactly those carried by a record flagged as mate 1 or 2 |
| AlignmentIndexing.TablesShareNoName | minute/se_dedup.py:157-174 | no R2-only read shares its name with an R1 read |
| AlignmentIndexing.UnassignedIgnored | minute/se_dedup.py:68-78 | removing the records with mate -1 changes neither table, the multimappers nor the counts |
| AlignmentIndexing.AlignmentIndex.constructor | minute/se_dedup.py:107-121 | the index holds the R1 table, the R2-only table and the multimappers of the records, with `r1_counts`, `r2_counts` and `total` |
| AlignmentIndexing.AlignmentIndex.IndexFirstMates | minute/se_dedup.py:139-155 | the loop extends the R1 table and the multimappers as the first pass does, and returns the first-mate names |
| AlignmentIndexing.AlignmentIndex.IndexSecondMates | minute/se_dedup.py:157-174 | the loop extends the R2-only table and the multimappers as the second pass does, and returns the names it took |
| Deduplication.ClusterSequences | minute/se_dedup.py:246-253 | no clusters for no UMIs, otherwise the clusterer's answer on the first-appearance counts |
| Deduplication.HonestClustersHeadedByInput | minute/se_dedup.py:234-236 | under an honest clusterer every cluster is non-empty and headed by an input UMI |
| Deduplication.SubstringNoLonger | minute/se_dedup.py:255-257 | a substring is no longer than the string it occurs in |
| Deduplication.SubstringOfSameLength | minute/se_dedup.py:255-257 | between equal-length UMIs the `in` test is equality |
| Deduplication.FilterByAttribute | minute/se_dedup.py:255-257 | a read is kept if and only if it is in the input and its attribute occurs in `allowed` |
| Deduplication.FilterByAttributeAppend | minute/se_dedup.py:255-257 | the filter keeps input order and one entry per read: filtering a concatenation concatenates the filtered parts |
| Deduplication.FilterByAttributeIndex | minute/se_dedup.py:255-257 | the `k`-th kept read is a read `readList[j]` whose attribute occurs in `allowed`, and the reads kept before it are those kept from `readList[..j]` |
| Deduplication.BestFromIsFirstMaximum | minute/se_dedup.py:259-265 | the scan's invariant: holding the first maximum of a prefix, it ends on the first maximum of the whole list |
| Deduplication.FirstBestIsFirstMaximum | minute/se_dedup.py:259-265 | `pick_best` returns a read of the list with the highest score, the first such one |
| Deduplication.PickBest | minute/se_dedup.py:259-265 | the loop returns a member of highest score, the first such one |
| Deduplication.Umis | minute/se_dedup.py:231 | the i-th UMI is that of the i-th read |
| Deduplication.UmisMembers | minute/se_dedup.py:231 | a UMI is listed if and only if some read carries it |
| Deduplication.NamesNotIn | minute/se_dedup.py:244 | a name is listed if and only if a read carries it and it is not in the set |
| Deduplication.NamesNotInAppend | minute/se_dedup.py:244 | the names come in read order: the names of a concatenation are those of each part in turn |
| Deduplication.NamesNotInSingle | minute/se_dedup.py:244 | one read gives its own name once when the name is not in the set, and nothing otherwise |
| Deduplication.MarkDuplicatesBySurvivors | minute/se_dedup.py:230-244 | the result fails if and only if some cluster fails, and otherwise names the reads not sharing a kept read's name |
| Deduplication.SurvivorsErrExtends | minute/se_dedup.py:234-241 | an `IndexError` on one cluster ends the whole call |
| Deduplication.FirstBestInBucketOrder | minute/se_dedup.py:237-241 | the read `pick_best` takes from the candidates is a bucket read, and every earlier bucket read whose UMI occurs in the head scores strictly less |
| Deduplication.SurvivorsShape | minute/se_dedup.py:234-241 | one kept read per cluster, from the bucket, with a UMI occurring in the cluster's head and the highest score among such reads; on a tie, the earliest such read in bucket order |
| Deduplication.SurvivorsOk | minute/se_dedup.py:234-241 | clusters headed by UMIs of the bucket never raise |
| Deduplication.MarkDuplicatesOk | minute/se_dedup.py:230-244 | with an honest clusterer `mark_duplicates_by_umi` raises nothing |
| Deduplication.MarkDuplicatesMembers | minute/se_dedup.py:243-244 | a name is reported if and only if a read of the bucket carries it and no kept read does |
| Deduplication.MarkDuplicatesFromBucket | minute/se_dedup.py:243-244 | every reported name belongs to a read of the bucket |
| Deduplication.PositionsDuplicatesOk | minute/se_dedup.py:223-227 | with an honest clusterer the walk over one reference's positions succeeds, reporting only names from buckets of more than one read |
| Deduplication.RefsDuplicatesOk | minute/se_dedup.py:222-227 | the same for the walk over the references |
| Deduplication.PositionsErrExtends | minute/se_dedup.py:223-227 | an error at one position ends the walk with that error |
| Deduplication.RefsErrExtends | minute/se_dedup.py:222-227 | an error under one reference ends the walk with that error |
| Deduplication.TableDuplicatesOk | minute/se_dedup.py:220-228 | with an honest clusterer `_find_duplicate_ids` raises nothing, and every reported name is from a bucket of more than one read |
| Deduplication.DuplicatesComeFromTheirTable | minute/se_dedup.py:206-228 | R1 duplicates are uniquely mapped first mates; R2 duplicates are uniquely mapped second mates with no first mate |
| Deduplication.DeduplicateBounds | minute/se_dedup.py:206-218 | with an honest clusterer `deduplicate` succeeds, `multi_dups` is 0, and `total_dups` is at most `r1_dups + r2_only_dups` and at most `total` |
| Deduplication.TiedScoreKeepsFirst | minute/se_dedup.py:230-244 | with the same UMI and equal scores, the first read is kept and the second reported |
| Deduplication.LowerScoreIsDuplicate | minute/se_dedup.py:230-265 | two reads at one locus with the same UMI: the lower-scoring one is the duplicate |
| Deduplication.ClusteredUmiIsDuplicate | minute/se_dedup.py:234-241 | a read clustered under another UMI is a duplicate even with a higher score |
| Deduplication.FirstMateDeduplicator.MarkDuplicatesByUmi | minute/se_dedup.py:230-244 | the loop over the clusters returns `mark_duplicates_by_umi`'s result, `IndexError` included |
| Deduplication.FirstMateDeduplicator.KeepOne | minute/se_dedup.py:237-241 | one loop turn keeps the best read whose UMI occurs in the head, or raises `IndexError` |
| Deduplication.FirstMateDeduplicator.FindDuplicateIds | minute/se_dedup.py:220-228 | the nested loop over references and positions, in insertion order, returns `_find_duplicate_ids`'s result |
| Deduplication.FirstMateDeduplicator.DuplicateIdsAt | minute/se_dedup.py:223-227 | the inner loop returns the duplicates of one reference, in position order |
| Deduplication.FirstMateDeduplicator.BuildSummary | minute/se_dedup.py:211-218 | builds the summary from the two duplicate lists, or passes on a failure |
| Deduplication.FirstMateDeduplicator.Deduplicate | minute/se_dedup.py:206-218 | `deduplicate` indexes the records, searches both tables and returns their summary |
| Tsv.Kept | utils.py:93-102 | the stripped lines that yield rows, no more than the lines |
| Tsv.ReadTsv | utils.py:84-102 | the loop returns all rows or the first `ParseError`, as the specification function states |
| Tsv.ReadTsvSnoc | utils.py:94-102 | one more line keeps an earlier error; otherwise it is skipped, rejected or appended |
| Tsv.ReadTsvErrExtends | utils.py:99-101 | an error on a prefix of the file is the error of the file |
| Tsv.ReadTsvOk | utils.py:84-102 | the file parses if and only if every line is blank, a comment or has exactly `columns` fields |
| Tsv.ReadTsvRows | utils.py:93-102 | one row per kept line, each with `columns` fields that join back to the stripped line, which is non-empty and not a comment |
| Tsv.ReadTsvFirstError | utils.py:99-101 | the error reports `columns` and the field count of the first bad line, all earlier lines being acceptable |
| Tsv.ReadTsvExample | utils.py:84-102 | a comment, a blank and a two-field line give one row |
| Tsv.CommentLineSkipped | utils.py:95-97 | a `#` line is skipped |
| Tsv.BlankLineSkipped | utils.py:95-97 | a blank line is skipped |
| Tsv.RowLineFields | utils.py:95-98 | `a<TAB>b` with its newline gives the fields `a`, `b` |
| Text.RStrip | utils.py:212 | `rstrip` is no longer than its input |
| Text.RStripSpaces | utils.py:212 | `rstrip` removes exactly the trailing whitespace |
| Text.LStripSpaces | utils.py:95 | `lstrip` removes exactly the leading whitespace |
| Text.StripSpaces | utils.py:95-96 | a stripped line neither starts nor ends with whitespace, and is empty if and only if the line is all whitespace |
| Text.StripIdempotent | utils.py:95-98 | stripping twice is stripping once |
| Text.Split | utils.py:98 | `split` yields at least one field |
| Text.SplitFields | utils.py:98 | one field more than separators, no field holding a separator |
| Text.JoinSplit | utils.py:98 | joining the fields with the separator gives the line back |
| Text.SplitJoin | utils.py:98 | splitting a join of separator-free fields gives the fields back |
| Text.UpperAscii | utils.py:212 | upper-casing yields an upper-case letter exactly for letters, and `N` exactly for `n` and `N` |
| Text.Upper | utils.py:212 | `upper` keeps the length and maps each character |
| GenomeSize.Count | utils.py:213 | `str.count` is at most the length |
| GenomeSize.ComputeGenomeSize | utils.py:207-214 | the loop computes the genome size of the lines |
| GenomeSize.UpperCount | utils.py:212-213 | length minus `N`s after upper-casing is the number of characters that are neither `n` nor `N` |
| GenomeSize.LineBasesAreNotN | utils.py:211-213 | a sequence line adds its characters before trailing whitespace that are not `n`/`N` |
| GenomeSize.GenomeSizeAppend | utils.py:207-214 | the size of two pieces of a file is the sum of their sizes |
| GenomeSize.GenomeSizeAtMostLength | utils.py:207-214 | the size is at most the total length of the non-header lines |
| GenomeSize.GenomeSizeExample | utils.py:207-214 | a header, `ACGTN` and `nnac` give 6 bases |
| GenomeSize.SequenceLineBases | utils.py:212-213 | `ACGTN` adds 4 |
| GenomeSize.LowerCaseLineBases | utils.py:212-213 | lower-case `nnac` adds 2 |
| Libraries.FastqLibrary.Name | utils.py:27-29 | the name is the sample, `_rep`, then the replicate |
| Libraries.PooledLibrary.Name | utils.py:36-38 | the name is the sample then `_pooled` |
| Libraries.ReplicateNamesDistinct | utils.py:27-29 | within one sample, two libraries have the same name if and only if they have the same replicate |
| Libraries.PoolNameIsNoReplicateName | utils.py:27-38 | a pool's name is never that of one of its sample's replicates |
| Libraries.PoolsAt | utils.py:62-63 | the pool of each sample holds that sample's libraries, in input order |
| Libraries.GroupLibrariesBySample | utils.py:58-63 | the method yields one pool per sample, in first-appearance order |
| Libraries.LibrariesBySample | utils.py:59-61 | the `samples` dict: keys in first-appearance order, each holding its sample's libraries in order |
| Libraries.SamplesMapStep | utils.py:60-61 | one more library keeps the dict's invariant |
| Libraries.SampleStep | utils.py:60-61 | one more library grows its sample's group and appends a new sample to the key order |
| Libraries.PoolsPartition | utils.py:58-63 | the pools partition the libraries: distinct samples, non-empty pools of their own sample, replicates together a permutation of the input |
| Libraries.PoolMembers | utils.py:58-63 | the group of an occurring sample is non-empty and holds only that sample |
| Libraries.GetReplicates | utils.py:246-248 | no more replicates than libraries |
| Libraries.GetReplicatesOfPool | utils.py:246-248 | the replicates are those of the sample's pool, in the same order |
| Libraries.GetReplicatesMembers | utils.py:246-248 | a replicate is listed if and only if a library of the sample has it |
| Libraries.MapFastqPrefixGroups | utils.py:280-285 | the keys are exactly the FASTQ bases that occur, each mapping to all libraries with that base in input order |
| Libraries.GroupRowOf | utils.py:75-78 | the four fields of a row are treatment, replicate, control and group, in that order |
| Libraries.FastqEntriesLastWins | utils.py:67-68 | a (sample, replicate) key is present if and only if a library has it, and maps to the last such library |
| Libraries.PoolEntriesAt | utils.py:70-72 | the pool entries add `(sample, "pooled")` for every sample and keep other keys |
| Libraries.LibraryMapEntries | utils.py:67-72 | `library_map` maps `(sample, "pooled")` to its pool, and any other key to the last library with that key |
| Libraries.BuildLibraryMap | utils.py:67-72 | the method builds exactly `library_map` |
| Libraries.LookupInLibraryMap | utils.py:67-77 | a pooled key finds its sample's pool exactly when the sample occurs; any other key finds the last library with it exactly when one exists; otherwise `KeyError` names the key |
| Libraries.FillScalingMap | utils.py:74-78 | the row loop builds `scaling_map` with its key order, or fails with the first row's `KeyError` |
| Libraries.NamedStep | utils.py:75-78 | a resolvable row appends its named pair |
| Libraries.NamedSnoc | utils.py:78 | a named pair joins its group's list, and a new group name joins the key order |
| Libraries.ScalingMapStep | utils.py:74-78 | one more row keeps the row loop's invariant |
| Libraries.YieldScalingGroups | utils.py:80-81 | the closing loop yields one group per key of `scaling_map`, in key order |
| Libraries.ReadScalingGroups | utils.py:66-81 | the method returns `read_scaling_groups`'s result |
| Libraries.RowError | utils.py:76-77 | the first unresolvable row raises `KeyError` on the treatment key first, the control key second |
| Libraries.NamedPairsErrExtends | utils.py:75-78 | an error on a prefix of the rows is the error of all rows |
| Libraries.NamedPairsOk | utils.py:74-78 | the rows resolve if and only if both keys of every row are present, each giving its group name and (treatment, control) pair |
| Libraries.NamedPairsFirstError | utils.py:74-78 | the error is that of the first unresolvable row, all earlier rows resolving |
| Libraries.NamedPairsKeys | utils.py:74-81 | the group names come in first-appearance order of the rows |
| Libraries.NamedPairsGroup | utils.py:74-81 | each name's list is the pairs of that group's rows, in row order |
| Libraries.NamedPairsSeconds | utils.py:74-78 | dropping the names gives all pairs in row order |
| Libraries.ScalingGroupsAtEach | utils.py:80-81 | the j-th group holds the pairs filed under the j-th name |
| Libraries.ScalingGroupsOk | utils.py:66-81 | `read_scaling_groups` succeeds if and only if every row's treatment and control keys are in `library_map` |
| Libraries.ScalingGroupsFirstError | utils.py:66-81 | otherwise it raises the `KeyError` of the first row with a missing key |
| Libraries.ScalingGroupsShape | utils.py:66-81 | one scaling group per group name in first-appearance order, each with its rows' pairs in row order |
| Libraries.NormalizationPairsMembers | utils.py:251-252 | a pair is listed if and only if some group holds it |
| Libraries.NormalizationPairsOfGroups | utils.py:251-252 | the pairs of the groups are those of their named pairs, concatenated group by group |
| Libraries.NormalizationPairsArePermutation | utils.py:251-252 | over the scaling groups it lists every row's pair exactly once: a permutation of the pairs in row order |
| Grouping.Keys | utils.py:59-62 | the first-appearance key order contains every element's key once, and only keys that occur |
| Grouping.WithKey | utils.py:59-61 | a group is no longer than the input |
| Grouping.WithKeyMembers | utils.py:59-61 | a group holds exactly the elements with its key |
| Grouping.GroupsAt | utils.py:62-63 | the i-th group is that of the i-th key |
| Grouping.GroupsArePermutation | utils.py:58-63 | concatenating the groups gives a permutation of the input |
| Grouping.StrLessIrreflexive | utils.py:284 | Python's `<` on `str` is irreflexive |
| Grouping.StrLessTransitive | utils.py:284 | and transitive |
| Grouping.StrLessTotal | utils.py:284 | and total on distinct strings |
| Grouping.SortByKey | utils.py:284 | sorting keeps the length |
| Grouping.SortByKeyPermutes | utils.py:284 | sorting is a permutation |
| Grouping.SortByKeySorted | utils.py:284 | the result is sorted by key |
| Grouping.SortByKeyStable | utils.py:284 | the sort is stable: each key's elements keep their input order |
| Grouping.RunLength | utils.py:284 | a run is the longest prefix of one key |
| Grouping.GroupSortedRuns | utils.py:281-285 | on sorted input `groupby` gives each key once, with all its elements |
| BowtieIndex.RFindSpec | utils.py:230 | `rfind` gives the last occurrence |
| BowtieIndex.PathOfSpec | utils.py:230 | `Path(s)` splits at the last separator, and `str()` gives `s` back |
| BowtieIndex.PathOfJoin | utils.py:230 | a directory and a separator-free name parse back into the two |
| BowtieIndex.SuffixIsLastDot | utils.py:233-236 | a suffix is a dot then at least one character with no further dot, and something of the name precedes it |
| BowtieIndex.WithoutSuffixParts | utils.py:234-236 | `with_suffix("")` keeps the directory and leaves a non-empty name that, with the suffix, gives the name back |
| BowtieIndex.CandidatesOf | utils.py:232-236 | there is at least one candidate |
| BowtieIndex.IndexFiles | utils.py:240-243 | each listed file is its candidate plus `.1.bt2` |
| BowtieIndex.BowtieIndexCandidates | utils.py:230-236 | the method builds the candidate list |
| BowtieIndex.DetectBowtieIndexName | utils.py:217-243 | returns a base if and only if some candidate's index file exists, and then the first such one; otherwise the error lists every expected file |
| BowtieIndex.CandidatesChain | utils.py:232-236 | each candidate after the first is the previous one without its suffix |
| BowtieIndex.CandidatesShrink | utils.py:232-236 | all candidates share the directory, and names get shorter |
| BowtieIndex.CandidatesDistinct | utils.py:237-239 | no candidate is tried twice |
| BowtieIndex.CandidatesCount | utils.py:232-236 | the path comes first; one candidate exactly without suffix; three exactly after `.gz` with a further suffix |
| BowtieIndex.GzSuffix | utils.py:233-234 | `ref.fasta.gz` has suffix `.gz` and drops it to `ref.fasta` |
| BowtieIndex.FastaSuffix | utils.py:235-236 | `ref.fasta` has suffix `.fasta` and drops it to `ref` |
| BowtieIndex.CompressedFastaCandidates | utils.py:223-228 | `ref.fasta.gz` gives the candidates `ref.fasta.gz`, `ref.fasta`, `ref`, as documented |
| BowtieIndex.DottedDirectoryCandidates | utils.py:230-236 | a dot in a directory is no suffix |
| BowtieIndex.HiddenFileCandidates | utils.py:230-236 | a name starting with its only dot has no suffix |

## Left out

- Reading BAM and FASTA files, `get_mapped_segments` and `xopen`: the records, FASTA lines and TSV lines are parameters, and `records` are already the mapped ones.
- The `libraries` argument of `read_scaling_groups` is a list. A generator would be exhausted by the first of its two iterations. The `groups.tsv` rows are a parameter, as `read_tsv` of that file would produce them.
- The UMI clusterer (umi_tools' `UMIClusterer`, directional method) is a function parameter and is not modelled. Properties that need it assume only `HonestClusterer`.
- `AlignmentIndex.print_summary`, and `print` output generally: I/O.
- `DedupSummary.fraction_duplication`: floating point. `DeduplicateBounds` states the integer bound `total_dups <= total` instead.
- Multimapper deduplication and `seq_mismatches`: the source never uses them. `multi_dups` is always 0, and the setting is a field that nothing reads.
- `compute_scaling`, `parse_picard_metrics`, `float_or_int`, `flagstat_mapped_reads`, `parse_stats_fields`, `read_int_from_file`, `format_metadata_overview`, `read_libraries` and `is_snakemake_calling_itself` are not part of this model. They are file parsing, floating point, formatting or process inspection.
- `read_tsv` is a generator that yields rows before raising. The model returns all rows or the error, so rows yielded before a `ParseError` are not observable. The error is modelled by its fields, not its message text.
- Text.Upper: `str.upper` is modelled on ASCII letters only. Other characters are kept, while Python upper-cases them too, and sometimes changes the length.
- SegmentSummary.GetName: `umi_length` is a natural number. The source takes any `int`, and a negative value would slice from the other end. The default and the pipeline's settings are non-negative.
- SegmentSummary.GetStub: `stub_length` is a natural number. The source takes any `int`, and a negative value would drop characters from the end of the sequence. The default is non-negative.
- SegmentSummary.GetScore: pysam's `None` for `query_sequence` or `query_alignment_qualities` is not modelled. Both are sequences here. In the source, `None` makes `get_stub` and `get_score` raise `TypeError`.
- BowtieIndex.PathOf: a path is split at its last `/`. `pathlib`'s normalisation (repeated or trailing separators, `.` components) is not modelled, nor is `with_name`'s rejection of an empty name.
- BowtieIndex.DetectBowtieIndexName: `.exists()` is a membership test in the given set of existing files.
- Libraries.MapFastqPrefixToListOfLibraries: the key order of the returned dict is not modelled, only its contents.
- UMIs, names and sequences are `string` values. The source turns UMIs and stubs into `bytes` with `str.encode`. The model makes the same comparisons, including the substring `in` test that `filter_by_attribute` performs.
- Mutation through aliasing is not modelled: lists are values, so that a `PooledLibrary` shares its `replicates` list with `samples` is not visible.
