# ERV finder: a verified model of the LTR-pairing and curation core

The repository searches alignment (BLAST) reports for endogenous retroviruses (ERVs). An ERV
leaves two long terminal repeats (LTRs) a few kilobases apart on the same strand of the same
target sequence. The finder works as follows:

- every high-scoring pair (HSP) of a hit that is long enough against the query becomes an LTR;
- the LTRs of one hit are sorted by midpoint and split by strand;
- every two LTRs of one partition whose gap lies in 200..12000 nt become a putative ERV;
- LTRs and ERVs are deduplicated by `curate_similar`, which groups elements whose coordinates
  lie within 200 nt of a group's first member and keeps the longest member of each group;
- "solo" LTRs are the filtered LTRs that are the same locus as no LTR of any putative ERV.

Around this core the model also covers these utilities:

- target-site-duplication (TSD) paring of a buffered sequence;
- the FASTA header, filename and record layout;
- an earlier draft of the pairing pipeline over bare coordinate pairs (`locate_ltrs.rb`), with
  its flanking-window arithmetic;
- a transition/transversion counter over two aligned sequences;
- ORF location in three reading frames, and a sorted annotation list.

One Dafny module corresponds to each source file:

- `Ltrs`, `PutativeErvs`, `Curation` and `Finderv` model `ltr.rb`, `putative_erv.rb` and `finderv.rb`;
- `Commune`, `FastaPrinter`, `LocateLtrs`, `RatioCalculator` and `MarkupOrf` model the files of the same names;
- `Blast` holds the report records;
- `RubyCore` and `Enumerable` hold the Ruby `String`, `Array` and `Enumerable` semantics the code relies on:
  - `split` drops trailing empty fields;
  - slicing with negative indices returns `nil` when out of range;
  - `index`, `downcase`/`upcase` and `Integer#to_s`;
  - `select`, `flatten`, `combination(2)` and `sort_by`.

Ruby's `nil` and raised exceptions are modelled as `Option` and `Result` (module `Wrappers`).

Three results are worth knowing before reading the table:

- **Curation is neither idempotent nor order-independent.** The same-locus comparison `==` is
  reflexive and symmetric but not transitive, and a list can be curated differently depending
  on the order of its elements.
  - Descriptions of the design call curation idempotent (curating a curated list changes nothing)
    and independent of input order. The code has neither property, and the model follows the
    code.
  - `Finderv.CurationNotIdempotent` and `Finderv.CurationOrderDependent` give three concrete LTRs
    that show this.
  - `Curation.CurateIdempotentForEquivalence` proves that idempotence would hold if the relation
    were an equivalence.
- **TSD paring keeps both motifs.** On a match it removes the outer `b - 5` nucleotides on each
  side; at `b = 5` it pares the sequence to nothing.
- **`solo_ltrs` raises when a report has no putative ERV** (see Findings).

Where the code and the design descriptions differ, the model follows the code:

- **Solo LTRs are not curated.** Solo-LTR detection is described as curating the solo LTRs of a
  report, but `solo_ltrs` only rejects from the already-curated filtered LTRs (finderv.rb:78-82).
  The model does the same.
- **Pairing in `putative_ervs` is per hit.** Pairing is described as per hit, possibly with a
  cross-hit "chimera" mode. The code has no such mode.

Numeric conventions:

- The float thresholds become exact integer comparisons:
  - `align_len > 0.8 * query_len` is `5 * align_len > 4 * query_len`;
  - `|to - from| > 0.9 * query_length` is `10 * |to - from| > 9 * query_length`.
- Midpoints `(a + b) / 2.0` are sorted by the integer key `a + b`; lemmas prove this gives the
  same order.

## Model

| member | source | states |
|---|---|---|
| RubyCore.SecondField | ltr.rb:36 | `split("\|")[1]`: present exactly when the split has a non-empty field after the first; then it is the second field and contains no separator |
| RubyCore.DropTrailingEmpty | ltr.rb:36 | `split` without a limit removes exactly the trailing empty fields and leaves the result ending in a non-empty field |
| RubyCore.JoinFields | ltr.rb:36 | splitting loses nothing: joining the fields with the separator gives the string back |
| RubyCore.FieldsOfJoin | ltr.rb:36 | splitting a join of separator-free fields gives those fields back |
| RubyCore.SecondFieldOfJoin | ltr.rb:36 | the second field of such a join is the second joined field when it is non-empty |
| RubyCore.SecondFieldOfPrefix | ltr.rb:36 | `a\|b\|rest` with `a`, `b` separator-free and `b` non-empty has second field `b` |
| RubyCore.FirstField | fasta_printer.rb:31 | `split(/,/).first` is the prefix of the definition up to its first comma (or all of it) |
| RubyCore.Slice | commune.rb:34-40 | `s[start, len]` is present iff `len >= 0` and `-\|s\| <= start <= \|s\|`, and is at most `len` long |
| RubyCore.SliceRange | commune.rb:28 | `s[a...b]` is present iff `-\|s\| <= a <= \|s\|` |
| RubyCore.Downcase | ratio_calculator.rb:14 | same length, every character lower-cased |
| RubyCore.Upcase | markup_orf.rb:47 | same length, every character upper-cased |
| RubyCore.Index | markup_orf.rb:47 | `index` is the first position where the substring occurs, `nil` iff it occurs nowhere |
| RubyCore.NatToString | fasta_printer.rb:19-26 | decimal digits without a leading zero |
| RubyCore.ParseIntToString | fasta_printer.rb:19-26 | an integer printed by `%s` reads back as itself |
| RubyCore.ReplaceNonWord | commune.rb:13-16 | `gsub(/\W/, '_')` keeps length and word characters and leaves only word characters |
| Enumerable.Filter | finderv.rb:99-100 | `select` keeps exactly the elements satisfying the test, each no more often than in its input |
| Enumerable.FilterCount | finderv.rb:99-100 | `select` keeps every copy of an element that passes the test and none of one that fails |
| Enumerable.Concat | finderv.rb:61-63 | `flatten` holds exactly the elements of the parts |
| Enumerable.MapAll | finderv.rb:93-95 | a `map` whose block may raise succeeds iff every call does, giving every value in order; otherwise it gives the error of a failing element |
| Enumerable.MapAllFailure | finderv.rb:93-95 | the error a failing `map` gives is that of its first failing element; every call before it succeeds |
| Enumerable.FilterPartition | finderv.rb:70 | the two sides of `partition` together hold every element exactly as often as the input |
| Enumerable.CombinationsCount | finderv.rb:91 | `combination(2)` of n elements has n(n-1)/2 pairs |
| Enumerable.CombinationsMembership | finderv.rb:91 | a pair is produced iff it is `(s[i], s[j])` for some `i < j` |
| Enumerable.PairsWhere | finderv.rb:91-92 | `combination(2).select`: exactly the pairs `(s[i], s[j])`, `i < j`, that pass the test |
| Enumerable.FilterKeepsSorted | finderv.rb:70 | selecting from a midpoint-sorted list keeps it sorted |
| Enumerable.InsertBy | finderv.rb:103 | inserting into a sorted list keeps it sorted and adds exactly that element |
| Enumerable.SortBy | finderv.rb:103 | `sort_by` returns a permutation of its input, sorted by the key |
| Ltrs.Ltr.UpCoord | ltr.rb:61-63 | `up_coord` is the smaller of `hit_from` and `hit_to` |
| Ltrs.Ltr.DownCoord | ltr.rb:65-67 | `down_coord` is the larger of `hit_from` and `hit_to` |
| Ltrs.Ltr.Length | ltr.rb:45-47 | `length` is `\|hit_to - hit_from\| + 1`, at least 1 |
| Ltrs.CoordsOrdered | ltr.rb:45-67 | `up_coord <= down_coord` and `length = down_coord - up_coord + 1` |
| Ltrs.LengthIgnoresOrientation | ltr.rb:45-67 | swapping `hit_from` and `hit_to` changes neither normalised coordinate nor the length |
| Ltrs.ExactlyOneStrand | ltr.rb:18-24 | `plus_strand?` iff the query and hit frames agree; `minus_strand?` is its negation |
| Ltrs.MidpointOrder | ltr.rb:49-51 | ordering by `(hit_from + hit_to) / 2.0` is ordering by `hit_from + hit_to` |
| Ltrs.SameLocusIff | ltr.rb:69-75 | `==` iff same accession and raw `from`, `to` each within 200; reflexive and symmetric |
| Ltrs.SameLocusNotTransitive | ltr.rb:73-75 | three LTRs 150 nt apart: `a == b`, `b == c`, but not `a == c` |
| Ltrs.HitIdExample | ltr.rb:34-37 | `gi\|224514737\|ref\|NT_009237.18\|` has hit id `224514737` |
| PutativeErvs.Order | putative_erv.rb:13 | the two LTRs sorted by midpoint; the order is kept on a tie |
| PutativeErvs.New | putative_erv.rb:12-18 | raises "same orientation" iff the strands differ, else "same Hit ID" iff the hit ids differ; otherwise the ERV holds exactly the two LTRs, midpoint-ordered, on one strand with one hit id |
| PutativeErvs.NewIgnoresArgumentOrder | putative_erv.rb:13 | with distinct midpoints the argument order does not matter |
| PutativeErvs.ExactlyOneStrand | putative_erv.rb:20-26 | a constructed ERV satisfies exactly one of `plus_strand?` and `minus_strand?` |
| PutativeErvs.Boundaries | putative_erv.rb:50-56 | `from`/`to` are (first.up, last.down) on the plus strand and (last.down, first.up) on the minus strand |
| PutativeErvs.LengthSpansBoth | putative_erv.rb:42-44 | when the 3' LTR starts after the 5' LTR ends, `length` spans both LTRs exactly |
| PutativeErvs.NestedLengthIsShorter | putative_erv.rb:42-44 | with nested LTRs `length` is shorter than the span of both |
| PutativeErvs.SameLocusReflexiveSymmetric | putative_erv.rb:46-60 | ERV `==` iff same accession and `from`, `to` each within 200; reflexive and symmetric |
| Curation.FirstMatch | finderv.rb:44 | `find`: the first group whose first member matches, none before it matching |
| Curation.Place | finderv.rb:43-48 | one step adds the element to one group or opens exactly one new group, a new one exactly when no group's first member matches it |
| Curation.PlaceShape | finderv.rb:43-48 | with a matching group only the first such group changes, by gaining the element at its end; with none, a group of just the element is appended last |
| Curation.PlaceAdds | finderv.rb:43-48 | one step loses no element and adds exactly the placed one |
| Curation.Group | finderv.rb:42-50 | the groups are non-empty and no more numerous than the elements |
| Curation.Longest | finderv.rb:52 | `sort_by(&:length).last` is a group member of maximal length |
| Curation.CurateSimilar | finderv.rb:41-53 | the imperative grouping loop (find, append in place or push) returns `Curate` |
| Curation.PlaceKeepsWellGrouped | finderv.rb:43-48 | one step keeps every member matching its group's first member and no earlier group's |
| Curation.GroupIsWellGrouped | finderv.rb:42-50 | each element is in the first group whose first member matches it, or opened its own |
| Curation.GroupPartitions | finderv.rb:42-50 | the groups together hold exactly the input, each element as often |
| Curation.GroupMembersFromInput | finderv.rb:42-50 | every group member comes from the input |
| Curation.CurateRepresentatives | finderv.rb:52 | one element per group, a member of maximal length of that group; no longer than the input; all from the input |
| Curation.CurateWithin | finderv.rb:41-53 | curation keeps only elements of its input and never lengthens the list |
| Curation.CurateOfConcat | finderv.rb:30-32 | curating a concatenation keeps only elements of its parts |
| Curation.GroupOfUnrelated | finderv.rb:42-50 | when no two elements match, every element opens its own group |
| Curation.CurateIdempotentForEquivalence | finderv.rb:41-53 | for an equivalence relation, curating a curated list changes nothing |
| Curation.CuratedUnrelated | finderv.rb:41-53 | for an equivalence relation, no two kept representatives are the same locus |
| Finderv.LtrsOfCount | finderv.rb:101-102 | `map { Ltr.new(hit, hsp) }` (`LtrsOf`) holds each LTR of this hit as often as its HSP, and no other LTR |
| Finderv.ParseHsps | finderv.rb:98-104 | exactly the LTRs of the hit's HSPs with `align_len > 0.8 * query_len`, sorted by midpoint |
| Finderv.ParseHspsCounts | finderv.rb:98-104 | each LTR of the hit with a long-enough HSP occurs as often as that HSP does, any other LTR never: the result is a permutation of the selected HSPs' LTRs |
| Finderv.ErvPairs | finderv.rb:91-93 | exactly the pairs `(ltrs[i], ltrs[j])`, `i < j`, with gap `up_coord - down_coord` in 200..12000 |
| Finderv.GapOrdersMidpoints | finderv.rb:91-94 | a gap of at least 200 makes the 3' midpoint strictly larger, so the constructor keeps `match_5` first |
| Finderv.FindErvsSpec | finderv.rb:90-96 | on mutually compatible LTRs `find_ervs` does not raise and builds an ERV exactly for each kept pair |
| Finderv.OneStrandCompatible | finderv.rb:69-72 | LTRs of one hit and one strand are mutually compatible |
| Finderv.PlusLtrs | finderv.rb:70 | the plus side of `partition(&:plus_strand?)` is exactly the plus-strand LTRs |
| Finderv.MinusLtrs | finderv.rb:70 | the other side is exactly the minus-strand LTRs |
| Finderv.PartitionErvs | finderv.rb:70-72 | within one strand partition the constructor never raises; every ERV is a valid ordered pair of partition members at ERV distance, and every such pair is built |
| Finderv.PairKept | finderv.rb:91-92 | in a midpoint-sorted list two LTRs at ERV distance appear in order, so their pair is kept |
| Finderv.PartitionsBuild | finderv.rb:70-72 | neither strand partition of a hit raises |
| Finderv.PutativeErvsOfHitSpec | finderv.rb:69-73 | a hit's ERVs are exactly the same-strand pairs of its parsed LTRs at ERV distance, midpoint-ordered |
| Finderv.ErvLength | finderv.rb:91-94 | a built ERV's length is both LTR lengths plus the gap, so more than 200 |
| Finderv.KeptHits | finderv.rb:61 | `reject`: a hit is kept iff no pattern is given or the pattern does not match its definition |
| Finderv.LtrCandidatesSpec | finderv.rb:61-63 | the LTRs before curation, the flattened `parse_hsps` of each kept hit (`LtrsPerHit`), are exactly those of long-enough HSPs of kept hits |
| Finderv.FilteredLtrsSpec | finderv.rb:60-66 | `filtered_ltrs` is no longer than the candidates, which are exactly the long-enough HSPs of kept hits, and holds only such LTRs |
| Finderv.ErvCandidateSpec | finderv.rb:69-73 | every ERV before curation, in the flattened ERVs of each hit (`ErvsPerHit`), pairs two long-enough HSPs of one hit of the report, validly and at ERV distance |
| Finderv.PutativeErvsOfSpec | finderv.rb:68-76 | the same holds for every curated ERV, and curation does not lengthen the list |
| Finderv.ErvLtrs | finderv.rb:79 | `map(&:ltrs)` flattened holds exactly the two LTRs of each ERV |
| Finderv.SoloOf | finderv.rb:81 | a filtered LTR is kept iff it is the same locus (`==`) as no LTR of any ERV, so the result is within `filtered_ltrs` |
| Finderv.SoloLtrsAsWritten | finderv.rb:78-82 | the code as written raises exactly when there is no ERV but some filtered LTR |
| Finderv.SoloLtrsAgree | finderv.rb:78-82 | wherever the code as written does not raise it equals the corrected definition, and it never raises when ERVs exist |
| Finderv.SoloLtrsRaisesWithoutErvs | finderv.rb:78-82 | a report with one hit holding one long-enough HSP makes the code as written raise, while the corrected definition returns that LTR |
| Finderv.SingleHspParses | finderv.rb:98-104 | a hit with one long-enough HSP parses to that one LTR |
| Finderv.PutativeErvsFromBatch | finderv.rb:28-33 | an empty batch fails (`inject` on nothing gives `nil`); otherwise the result is present |
| Finderv.SoloLtrsFromBatch | finderv.rb:15-20 | likewise for solo LTRs |
| Finderv.PutativeErvsFromBatchSpec | finderv.rb:28-33 | curation happens once, over the concatenation: each resulting ERV is one of some report's curated ERVs |
| Finderv.SoloLtrsFromBatchSpec | finderv.rb:15-20 | each resulting solo LTR is one of some report's solo LTRs |
| Finderv.SoloLtrsFromBatchAsWritten | finderv.rb:15-20 | the code as written raises iff the batch is empty or `solo_ltrs` raises for some report; otherwise it equals the corrected definition |
| Finderv.SoloBatchRaisesWithoutErvs | finderv.rb:15-20 | a batch of one report whose one hit has one long-enough HSP makes the code as written raise, while the corrected definition returns that LTR |
| Finderv.SoloBatchOfOne | finderv.rb:15-20 | a batch of one report gives that report's solo LTRs, curated |
| Finderv.ChainCurated | finderv.rb:41-53 | for `a == b == c` with `a != c` and growing lengths: `[a,b,c]` curates to `[b,c]`, `[b,c]` to `[c]`, `[b,a,c]` to `[c]` |
| Finderv.CurationNotIdempotent | finderv.rb:41-53 | three concrete LTRs whose curated list curates to something shorter |
| Finderv.CurationOrderDependent | finderv.rb:41-53 | swapping two inputs changes the curated result from two elements to one |
| Commune.MotifWindows | commune.rb:34-44 | for `b > 5`, `n >= 2b`: `tsd_5` is positions `b-5..b-1`, `tsd_3` the 5 from `n-b`, and `has_tsd?` iff they are equal |
| Commune.ParedOnMatch | commune.rb:23-28 | on a match `seq` is `[b-5, n-b+5)`, of length `n - 2(b-5)`, beginning with `tsd_5` and ending with `tsd_3` |
| Commune.UnchangedOnMismatch | commune.rb:27-31 | on a mismatch `seq` is the raw sequence |
| Commune.EmptyAtBufferFive | commune.rb:27-28 | with `b = 5` a match pares the sequence to the empty string |
| Commune.ParingRoundTrip | commune.rb:23-32 | flank + motif + core + motif + flank, flanks `b-5` long, pares to motif + core + motif |
| Commune.TypeSuffix | commune.rb:11-17 | the suffix exists iff both motifs do, and begins "(pared" iff `has_tsd?` |
| Commune.TypeSuffixLayout | commune.rb:11-17 | character by character: "(pared to TSD " + motif + ")" on a match, "(TSD mismatch 5' " + 5' motif + ", 3' " + 3' motif + ")" otherwise |
| FastaPrinter.CommentLayout | fasta_printer.rb:18-27 | the header starts "> DEF (ACC (", carries "+" exactly on the plus strand, and ends " nt. long)" |
| FastaPrinter.Layout | fasta_printer.rb:18-27 | the position and neighbours of the strand sign in a header built from these parts |
| FastaPrinter.CommentIsOneLine | fasta_printer.rb:18-27 | the header has no newline when the definition and accession have none |
| FastaPrinter.CommentRoundTrip | fasta_printer.rb:18-27 | reading the last eight space-separated words of a header gives back the accession, strand, `from`, `to` and length it was written with |
| FastaPrinter.NoNewlineInNumber | fasta_printer.rb:23-25 | a printed integer contains no newline |
| FastaPrinter.FastaFilename | fasta_printer.rb:29-37 | the filename starts with the definition up to its first comma and ends ".fasta" |
| FastaPrinter.FilenameRoundTrip | fasta_printer.rb:29-37 | reading the last four space-separated words of a filename gives back the accession, strand word, `from` and `to` it was written with |
| FastaPrinter.RecordRoundTrip | fasta_printer.rb:44-49 | a record written as comment, "\n", sequence, "\n\n" reads back as itself |
| FastaPrinter.WriteFasta | fasta_printer.rb:39-52 | adds only the element's path; an existing path is never overwritten, a new one gets the record |
| FastaPrinter.WriteFastaIdempotent | fasta_printer.rb:41-42 | writing an element a second time changes nothing |
| LocateLtrs.ToRange | locate_ltrs.rb:85 | `Range.new(*coordinates.sort)`: begin <= end; plus pairs keep their order, minus pairs are swapped |
| LocateLtrs.MidpointOrder | locate_ltrs.rb:91-93 | ordering by `midpoint(range)` is ordering by `begin + end` |
| LocateLtrs.StrandRanges | locate_ltrs.rb:84-86 | a strand list is sorted by midpoint and is a permutation of the ranges of its pairs (`ToRanges`), one per pair |
| LocateLtrs.ParseCoordinatesSpec | locate_ltrs.rb:77-89 | `:plus` holds exactly the kept pairs with `to > from` (as `from..to`), `:minus` the others (as `to..from`); both are sorted; together they hold every kept pair |
| LocateLtrs.ParseHitsSpec | locate_ltrs.rb:23-31 | per hit of `ParseHits`: the accession is copied; the id is present iff `Hit_id` has a non-empty `\|` field after the first, and is then the second field; `:plus` and `:minus` are sorted and hold exactly the kept pairs of each strand |
| LocateLtrs.ParseHitsGi | locate_ltrs.rb:26 | a `gi\|N\|...` hit id gives the id `N` |
| LocateLtrs.FilterArray | locate_ltrs.rb:71-75 | exactly the pairs `i < j` with `upper.begin - lower.end` in 4000..10000 |
| LocateLtrs.WithPairs | locate_ltrs.rb:34-35 | `merge` keeps the other fields; `ltr_pairs` holds exactly the plus-strand and minus-strand pairs |
| LocateLtrs.FilterHitsSpec | locate_ltrs.rb:33-39 | `filter` keeps exactly the merged hits (`AllWithPairs`) with some pair, i.e. those with an ERV-distance pair on a strand |
| LocateLtrs.PairsExist | locate_ltrs.rb:35-37 | a merged hit has pairs iff one of its strands has an ERV-distance pair |
| LocateLtrs.FilterArrayNonEmpty | locate_ltrs.rb:71-75 | `filter_array` is non-empty iff the list has two ranges at ERV distance |
| LocateLtrs.FlankingRegionsSpec | locate_ltrs.rb:41-55 | each entry is a hit kept by `filter` with one flanking record (`FlankingPairs`) per pair: the pair and the 5000-nt windows just before and just after it; a hit has an entry iff it has an ERV-distance pair on a strand |
| LocateLtrs.FlanksAdjacent | locate_ltrs.rb:47-55 | in `flanking_pairs` (`FlankingPairs`) each flank is 5000 nt long, ends just before the 5' LTR or starts just after the 3' LTR, and is fetched for the hit's id |
| RatioCalculator.TransitionInvolution | ratio_calculator.rb:4-9 | the table is defined exactly on a, g, c, t, has no fixed point and undoes itself |
| RatioCalculator.New | ratio_calculator.rb:13-21 | raises the length message iff the lengths differ; otherwise keeps both strings downcased and `length` is the query's |
| RatioCalculator.ClassifyBound | ratio_calculator.rb:33-39 | each differing position is counted once, as a transition or a transversion, so the sum is at most `length` |
| RatioCalculator.Fallback | ratio_calculator.rb:41-45 | if either count is zero both become 1, otherwise the counts are kept |
| RatioCalculator.Counter | ratio_calculator.rb:32-50 | the fold over the zipped pairs (`Each`), bumping one entry per differing position, returns the classified counts after the fallback |
| RatioCalculator.RatioOf | ratio_calculator.rb:23-30 | the fractions lie in (0,1), sum to 1 and keep the counts' proportion |
| RatioCalculator.Ratio | ratio_calculator.rb:23-30 | `ratio` divides the counts of `counter` by their total |
| RatioCalculator.CaseInsensitive | ratio_calculator.rb:14 | inputs equal up to case give the same calculator |
| RatioCalculator.IdenticalFallsBack | ratio_calculator.rb:32-46 | identical strings give counts (1, 1) and ratio (0.5, 0.5) |
| MarkupOrf.FrameIndex | markup_orf.rb:47 | a match in a frame lies wholly inside that frame's translation |
| MarkupOrf.LocateFrom | markup_orf.rb:47 | the frames from `f` on with a match, each with its first match position, in frame order |
| MarkupOrf.LocateAa | markup_orf.rb:46-48 | exactly the pairs (frame, first index of the upcased peptide) for frames 1..3 that contain it, in frame order |
| MarkupOrf.StopPrefix | markup_orf.rb:35 | `[/^.*?\*/]` is present iff the text has a stop, and is then the shortest prefix ending in one |
| MarkupOrf.RegionAt | markup_orf.rb:35-42 | raises on a nil length iff no stop follows; else begins at `3k + frame`, spans `3 * \|orf\|`, and the ORF is the shortest stop-terminated prefix |
| MarkupOrf.RegionFor | markup_orf.rb:34-43 | `orf`'s block on a located (frame, index) is the region there |
| MarkupOrf.OrfRegionsSpec | markup_orf.rb:33-44 | each region of `orf` starts at a located occurrence and is the shortest ORF there, with its nucleotide span |
| MarkupOrf.OrfRegionAt | markup_orf.rb:33-44 | the same for the i-th region |
| MarkupOrf.OrfRaisesIff | markup_orf.rb:33-44 | `orf` raises iff some frame holding the peptide has no stop after it |
| MarkupOrf.OrfCoversFrame | markup_orf.rb:33-44 | when `orf` does not raise, every frame holding the peptide has a stop after it |
| MarkupOrf.OrfFailsInFrame | markup_orf.rb:33-44 | when `orf` raises, some frame holding the peptide has no stop after it |
| MarkupOrf.LabelName | markup_orf.rb:25-26 | the given name; else the peptide if at most 10 long; else its first 7 characters and "..." |
| MarkupOrf.OrfAnnotations | markup_orf.rb:24-30 | two annotations per region |
| MarkupOrf.OrfAnnotationsContents | markup_orf.rb:23-31 | for each region, the start label at its begin and the end label at `end - \|label\| - 1` |
| MarkupOrf.OrfAnnotationsStep | markup_orf.rb:24-30 | one more region adds exactly its two annotations |
| MarkupOrf.EndLabelPlacement | markup_orf.rb:29 | the end label plus one column finishes at the region's end |
| MarkupOrf.StringLeTotal | markup_orf.rb:51 | label comparison is total |
| MarkupOrf.StringLeAntisymmetric | markup_orf.rb:51 | and antisymmetric |
| MarkupOrf.StringLeTransitive | markup_orf.rb:51 | and transitive |
| MarkupOrf.AnnotationLeOrder | markup_orf.rb:51 | `[position, label] <=>` is a total order |
| MarkupOrf.InsertKeepsSorted | markup_orf.rb:51 | inserting before the first greater element keeps the list sorted |
| MarkupOrf.SortedUnique | markup_orf.rb:51 | two sorted lists with the same elements are equal, so `push` then `sort!` has exactly one outcome |
| MarkupOrf.Erv.constructor | markup_orf.rb:14-17 | a new ERV has no annotations |
| MarkupOrf.Erv.Annotate | markup_orf.rb:50-52 | the list gains exactly this pair and stays sorted by (position, label) |
| MarkupOrf.Erv.ClearAnnotations | markup_orf.rb:54-56 | the list is empty |
| MarkupOrf.Erv.AnnotateRegion | markup_orf.rb:28-29 | one region adds its start and end annotation, sorted |
| MarkupOrf.Erv.AnnotateRegions | markup_orf.rb:24-30 | every region's two annotations are added, sorted |
| MarkupOrf.Erv.AnnotateOrf | markup_orf.rb:23-31 | succeeds iff `orf` does not raise; a failure changes nothing; a success adds exactly the annotations of every region, sorted |

## Left out

- Parsing the alignment reports (BLAST XML through BioRuby or Nokogiri) is left out: hits, HSPs and coordinate pairs are given as records.
- The Entrez fetches (`raw_seq`, `sequence_from_entrez`) are network calls and are left out. The fetched sequence is a parameter of the TSD functions, and each flanking region is the requested window (id, start, stop), not the fetched text.
- BioRuby's `complement` and `translate` are foreign library calls: the raw sequence and the three reading-frame translations are inputs.
- ActiveSupport's `titleize` of the class name is a foreign call: the element kind is a string parameter of `Commune.Type`.
- Regular expressions: `ignore_regex` is an abstract predicate on the definition, and `split(/,/)` and `gsub(/\W/)` are written out for their fixed patterns. `[/^.*?\*/]` is the shortest prefix ending in `*`; translations are assumed to hold no newline, which `.` would not cross.
- Case mapping covers ASCII letters only; Ruby's Unicode case mapping is not modelled.
- Floating point is not modelled. The 0.8 and 0.9 thresholds are exact integer comparisons, midpoints are integer keys, and counts are naturals.
- RatioCalculator.Ratio: computes with exact reals, not Ruby floats, so rounding of the two fractions is not modelled.
- Curation.Longest: when several members share the maximal length it keeps the latest; Ruby's `sort_by` is not stable, so the code may keep any of them.
- Enumerable.SortBy: ties keep their input order; Ruby's `sort_by` gives no such guarantee, so the model fixes one permitted outcome.
- Finderv.PutativeErvsFromBatch: an empty batch makes the code call `curate_similar(nil)` and raise; the model returns `None`.
- Finderv.SoloLtrsFromBatch: returns `None` for an empty batch where the code raises; Finderv.SoloLtrsFromBatchAsWritten models the raise.
- FastaPrinter.CommentRoundTrip: holds for accessions without a space, and does not read the definition back, since a definition may itself contain spaces and parentheses.
- FastaPrinter.FilenameRoundTrip: holds for accessions without a space, and does not read back the definition prefix.
- MarkupOrf.Erv.Annotate: states sortedness and the multiset of the list rather than its exact sequence; MarkupOrf.SortedUnique shows that these determine it.
- `write_fasta!` works on an abstract path-to-content map; real files, the `File.exists?` race and `File.join` edge cases (separators in the directory name) are not modelled. `write_solo_ltr_batch!` and `write_putative_erv_batch!` only loop over `write_fasta!` and are left out.
- `Finderv.bootstrap`, `BlastParser.bootstrap` and `Erv.bootstrap` read files and are left out; `Erv.bootstrap` always raises.
- `Erv::Printer`, `markup_printer.rb`, `inspect` and the top-level scripts (`find_erv.rb`, the end of `markup_orf.rb` and `locate_ltrs.rb`) are display or command-line code and are left out.
- `mutaterv.rb` and `mutaterv_runner.rb` (random Monte Carlo simulation), `normalize_gc.rb` (float GC windows, raises on load), `fasta_parser.rb` (file reading) and `selenium.rb` (browser automation) are not part of this model.

## Findings

| source | as written | input that shows it | evidently intended | confidence | as-written member | corrected member |
|---|---|---|---|---|---|---|
| finderv.rb:78-82 | `putative_ervs.map(&:ltrs).inject(&:concat)` is `nil` when the report has no putative ERV, so `ervs.include?(ltr)` raises NoMethodError as soon as there is a filtered LTR | a report with one hit holding a single HSP longer than 0.8 of the query | with no ERVs, every filtered LTR is solo | not executed | Finderv.SoloLtrsAsWritten, Finderv.SoloLtrsRaisesWithoutErvs | Finderv.SoloLtrs, Finderv.SoloOf |
| finderv.rb:15-20 | `solo_ltrs_from_batch` calls `solo_ltrs` on every report, so a batch holding one report without a putative ERV but with a filtered LTR raises | a batch of one report with one hit holding a single HSP longer than 0.8 of the query | the batch's solo LTRs are the curated concatenation of every report's solo LTRs | not executed | Finderv.SoloLtrsFromBatchAsWritten, Finderv.SoloBatchRaisesWithoutErvs | Finderv.SoloLtrsFromBatch, Finderv.SoloLtrsFromBatchSpec |
