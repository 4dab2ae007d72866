# Attributed text: the run engine of `Text`

`Text` (Sources/Text/Text.swift) is a UTF-8 string paired with a run-length
record of attribute maps. The record, `Text.Runs` (Sources/Text/Text+Runs.swift),
has two forms:

- `plainText(n)`: `n` bytes with no attributes at all;
- `richText([Run])`: a list of runs, each a byte length (`utf8Len`) and a
  `[String: String]` map.

This project models the run algebra and the `Text` operations built on it.
The run algebra covers materialising the run list, attribute lookup with
upstream/downstream affinity, `longestEffectiveRange`, structural `append`
and `split`, `ensureBoundary`, `modifyAttributes`, and the seam repair after
an append. The `Text` operations are the constructors, plain/rich
conversion, `split`, subscripting, `append`, `replaceSubrange`, `insert`,
`prepend`, the attribute mutators and `transformRuns`.

The reference meaning of a run list is `Expand`. It gives the attribute map
of every byte in order. `AttrsOf` does the same for `Runs`: a plain text of
`n` bytes reads as `n` empty maps. Most contracts are stated against this
per-byte view. They say which byte ends up with which map, not only how long
the result is.

Conventions:

- Positions are byte offsets.
- Grapheme-cluster boundaries come from a `BoundaryOracle`, a function
  parameter answering "is offset k of this string a boundary". It stands
  for the host string library's segmentation (Unicode Standard Annex #29,
  section 3).
- Every `fatalError` and every out-of-range subscript in the source becomes
  a `...Defined` predicate. The operation requires that predicate, so the
  trapping inputs are named rather than hidden.
- Mutating methods become functions. Each returns the new value, together
  with the `Replaced` record where the source returns one.

Modules:

- `RunBasics` (run.dfy): `Run`, `Attributes`, `Affinity`, and the offsets
  `Start` and `End` of a run. It also has the lookup scan `Locate`, the
  per-byte view `Expand`, and `Straddles`: "offset x lies strictly inside a
  run".
- `RunList` (run_list.dfy): `Runs` and the operations of Text+Runs.swift,
  written as the code does them.
- `Graphemes` (graphemes.dfy): the boundary oracle, and the overrun of the
  cluster that straddles an append seam. It also has character counting and
  the alignment predicate behind `validate`.
- `AttributedText` (text.dfy): `Text`, `Replaced` and the operations of
  Text.swift. They call the `RunList` operations as written. The one
  exception is the combining length at an append seam: `append` uses the
  intended `Graphemes.Overrun` (see Left out and Findings).
- `Alignment` (alignment.dfy): run ends as offsets, followed through the
  corrected run append and seam repair, down to the proof that the corrected
  `append` keeps every run end on a grapheme boundary.
- `Corrected` (corrected.dfy): the run operations whose code contradicts
  what the rest of the library relies on (see Findings). Each comes with a
  concrete input showing the code as written, and a corrected definition
  with its property proved. It also holds `Text` split, slice, append and
  replace rebuilt on the corrected operations.
- `Scenarios` (scenarios.dfy): expectations from
  Tests/TextTests/TextTests.swift, stated as concrete lemmas over the
  per-byte view.

Where the code and the library's documentation disagree, the model follows
the code, except for the combining length of `append`, which follows the
intent (the `Graphemes.Overrun` line under Left out says why):

- `attributes(at:)` never yields nil: plain text answers the empty map.
- `replaceSubrange` records `inserted` as given. Only `append` records its
  argument as rich.
- `longestEffectiveRange(at:affinity:where:)` looks at the upstream side
  whatever affinity it is given.
- `hasAttributes` checks run lengths, not whether any map is non-empty.

## Model

| member | source | states |
|---|---|---|
| RunBasics.SplitRun | Sources/Text/Text.swift:501-509 | `Run.split(index:)` yields nothing exactly when the index is 0 or the run's length. Otherwise the head has `index` bytes and the remainder has the rest. Both keep the run's attributes and together cover the same bytes. |
| RunBasics.Locate | Sources/Text/Text+Runs.swift:122-144 | The lookup scan finds a run whose span contains the byte. Upstream never picks a run that starts at the byte, except the first run. Downstream at an exact run end moves to the next run, except at the last run. |
| RunList.RunsOf | Sources/Text/Text+Runs.swift:17-25 | `runs` of `plainText(n)` covers `n` bytes with empty maps and has no zero-length run: one run when `n > 0`, none when `n == 0`. `runs` of `richText(rs)` is `rs` itself. |
| RunList.AttributesAt | Sources/Text/Text+Runs.swift:122-144 | `attributes(at:affinity:)` answers the map of the located run. With no empty runs, that is the map of byte `byte - 1` (upstream) or `byte` (downstream), clamped to the text. |
| RunList.LocateSelects | Sources/Text/Text+Runs.swift:122-144 | In the per-byte view, the located run's map is the map of the byte that the affinity selects. |
| RunList.LongestEffectiveRange | Sources/Text/Text+Runs.swift:58-120 | The result is nil exactly when the predicate fails on the selected run's map. Otherwise the range contains the byte and lies within the text. Every byte in it satisfies the predicate, and the bytes just outside it fail. |
| RunList.SpanOf | Sources/Text/Text+Runs.swift:63-98 | Widening over neighbouring runs that satisfy the predicate gives a maximal span around the run, measured in bytes. |
| RunList.PlainThenRich | Sources/Text/Text+Runs.swift:150-158 | The plain+rich branch leads with `n1` empty-attribute bytes, then the rich runs' bytes, by either absorbing them into an empty-map first run or inserting a new run. |
| RunList.RichThenPlain | Sources/Text/Text+Runs.swift:159-161 | In the rich+plain branch, the appended plain bytes take the last run's attributes. |
| RunList.FoldLastIntoFirst | Sources/Text/Text+Runs.swift:162-166 | Folding the last run of the first list into the first run of the second keeps the total. Those bytes then carry the second list's first-run attributes. |
| RunList.Append | Sources/Text/Text+Runs.swift:146-171 | `append` adds the lengths in every branch. plain+plain stays plain with the summed length. The result is rich exactly when either side is rich. |
| RunList.AppendAttrs | Sources/Text/Text+Runs.swift:146-171 | Per byte, `append` is concatenation, except in two cases. In rich+plain, the plain bytes copy the last run's map. In the rich+rich fold, taken when both lists' last maps agree, the folded bytes take the second list's first map. |
| RunList.Split | Sources/Text/Text+Runs.swift:173-209 | The two halves of `split(at:)` add up to the whole. Plain text splits into `plainText(k)` and `plainText(n - k)`. Rich text split at a run end gives prefix ++ suffix == the runs, with a prefix of exactly `k` bytes. |
| RunList.SplitAtBoundary | Sources/Text/Text+Runs.swift:175-186 | When `k` is not inside a run, the prefix is exactly the first `k` per-byte maps and the suffix is the rest. |
| RunList.SplitDefinedAtBoundary | Sources/Text/Text+Runs.swift:178-207 | A positive cut at a run end, within the text, does not reach the trailing `fatalError`. |
| RunList.SplitInsideRunShape | Sources/Text/Text+Runs.swift:187-205 | A cut strictly inside run `i` works as follows. The suffix keeps `k - start` bytes of run `i` and the runs after it. Run `i` leaves the prefix, and run `i - 1` grows by the `end - k` bytes after the cut. Run `i` must not be the first run. |
| RunList.SplitInsideRunLengths | Sources/Text/Text+Runs.swift:187-205 | For a cut inside a run, the prefix holds `start + end - k` bytes. That equals `k` exactly when the cut is at the run's midpoint. |
| RunList.SplitInsideRunPrefix | Sources/Text/Text+Runs.swift:196-201 | Per byte, the prefix is the bytes before run `i`, then `end - k` bytes carrying run `i - 1`'s map. |
| RunList.SplitInsideRunSuffix | Sources/Text/Text+Runs.swift:188-194 | Per byte, the suffix is `k - start` bytes of run `i`'s map, then everything after run `i`. |
| RunList.Consume | Sources/Text/Text+Runs.swift:243-248 | The removal loop takes bytes from the runs in order, each giving up at most what it holds. It keeps every map and the number of runs, and removes `min(c, total)` bytes in all. |
| RunList.ConsumeAttrs | Sources/Text/Text+Runs.swift:243-248 | Per byte, the loop drops exactly the first `min(c, total)` bytes. |
| RunList.DropEmpty | Sources/Text/Text+Runs.swift:250 | Filtering out empty runs leaves the per-byte view and the total unchanged, leaves no empty run, and is the identity on lists without one. |
| RunList.FixRunBoundariesAfterAppending | Sources/Text/Text+Runs.swift:211-253 | Seam repair changes nothing on plain runs, at byte 0 or when nothing combines. Otherwise it stays rich with no empty run. The length grows by `c` minus the bytes it could remove from runs `atRun` onward, so the total is kept only when those runs hold at least `c` bytes. |
| RunList.FixAttrs | Sources/Text/Text+Runs.swift:230-251 | When `atRun` starts at `atByte` and `c` bytes follow, repair keeps the length. Per byte, it gives the `c` combined bytes the map of run `atRun - 1` and changes nothing else. |
| RunList.InsertBoundary | Sources/Text/Text+Runs.swift:278-293 | The scan splits a run exactly when the offset lies strictly inside one. It adds one run and keeps the total and every byte's map. |
| RunList.InsertBoundaryOthers | Sources/Text/Text+Runs.swift:278-293 | After the split, the offset is a run boundary. Every other offset is inside a run exactly when it was before. |
| RunList.EnsureBoundary | Sources/Text/Text+Runs.swift:278-293 | `ensureBoundary(at:)` changes nothing exactly when the offset is not inside a run, which also makes it idempotent. Afterwards the offset is not inside a run. Length and per-byte maps are kept, and plain text becomes rich only when it is split. |
| RunList.EnsureBoundaryIdempotent | Sources/Text/Text+Runs.swift:278-293 | Applying `ensureBoundary` twice at the same offset is the same as applying it once. |
| RunList.EnsureBoundaryOthers | Sources/Text/Text+Runs.swift:278-293 | No offset other than `b` changes whether it lies inside a run. |
| RunList.ModifyFromCommits | Sources/Text/Text+Runs.swift:262-275 | The loop commits its edited runs exactly when `hi` is the end of some run. Otherwise the receiver stays as it was. |
| RunList.ModifyFromExpand | Sources/Text/Text+Runs.swift:262-275 | When both ends are run boundaries, the committed runs keep their lengths. Per byte, they apply the mutator to exactly the bytes of `[lo, hi)`. |
| RunList.ModifyAttributes | Sources/Text/Text+Runs.swift:255-276 | `modifyAttributes` keeps the length. Within the text, it applies the mutator to exactly the bytes of `[lo, hi)` and leaves every other byte's map alone. A non-empty range turns plain into rich. Both ends become run boundaries. |
| RunList.ModifyCommitted | Sources/Text/Text+Runs.swift:262-275 | With both ends on run boundaries, the committed runs keep the total and add no empty run. The per-byte result is the mutator applied over `[lo, hi)`. |
| RunList.ModifyUncommitted | Sources/Text/Text+Runs.swift:262-275 | When the loop never commits and `hi` is within the text, applying the mutator would have changed nothing: the range is empty. |
| RunList.PiecesAt | Sources/Text/Text+Runs.swift:47-56 | The substring paired with run `j` is exactly the bytes from the run's start to its end. |
| RunList.RunsWithSubstrings | Sources/Text/Text+Runs.swift:47-56 | `runsWithSubstrings` pairs each run with the bytes it covers, in order, and the pieces rejoin to the covered string. |
| Graphemes.NextBoundary | Sources/Text/Text+Runs.swift:231-232 | The first grapheme boundary at or after an offset: nothing between them is a boundary. |
| Graphemes.Overrun | Sources/Text/Text+Runs.swift:230-235 | The combined byte count at a seam is 0 exactly when the seam is a boundary. The seam plus the count is the next boundary, within the string. |
| Graphemes.PrevBoundary | Sources/Text/Text+Runs.swift:231 | The last grapheme boundary at or before an offset, which is where a string index inside a cluster is rounded down to: nothing after it up to the offset is a boundary. |
| Graphemes.OverrunAsWritten | Sources/Text/Text+Runs.swift:230-235 | The combined byte count as the code computes it (one character back from the seam, one forward, the distance past the seam). It equals the full overrun when the cluster holding the seam starts the string and is 0 otherwise, so it falls short exactly when the seam is inside a cluster that starts after byte 0. |
| Graphemes.CharCount | Sources/Text/Text.swift:244-249 | The character count up to a byte offset is the number of boundaries in `(0, k]`, so it is at most `k`. |
| AttributedText.Init | Sources/Text/Text.swift:41-45 | `init(_:)` gives valid plain text whose every byte has the empty map. |
| AttributedText.InitWithAttributes | Sources/Text/Text.swift:47-58 | `init(_:attributes:)` gives valid rich text: no run for the empty string, otherwise one run. Every byte carries the given map. |
| AttributedText.HasAttributes | Sources/Text/Text.swift:88-100 | `hasAttributes` holds exactly when the text is rich and some run is non-empty. The maps themselves are not consulted. |
| AttributedText.AsPlain | Sources/Text/Text.swift:102-107 | `asPlain` keeps the bytes, gives plain text, and is the identity on plain text. |
| AttributedText.AsRich | Sources/Text/Text.swift:109-114 | `asRich` keeps the bytes, gives rich text, is the identity on rich text, and keeps validity and every byte's map. |
| AttributedText.SplitText | Sources/Text/Text.swift:221-236 | `split` yields the bytes before and after the index. At the end it returns empty text and keeps the receiver. At the start it returns the receiver and leaves empty plain text. Plain text splits into plain halves. Rich halves stay rich unless reset to empty text. |
| AttributedText.SplitTextValid | Sources/Text/Text.swift:221-236 | At a run boundary, both halves are valid and carry exactly the per-byte maps before and after the index. |
| AttributedText.Slice | Sources/Text/Text.swift:167-171 | The subscript returns exactly the bytes of the range, so an empty range gives empty text. |
| AttributedText.SliceValid | Sources/Text/Text.swift:167-171 | With both range ends on run boundaries, the slice is valid and carries exactly the maps of the range's bytes. |
| AttributedText.AppendText | Sources/Text/Text.swift:244-271 | `append` concatenates the bytes. Its record holds the receiver's character count and the argument made rich. Appending empty text changes nothing. Otherwise the result is rich exactly when either side is, and plain+plain gives plain text. |
| AttributedText.Appending | Sources/Text/Text.swift:273-277 | `appending` yields the concatenated bytes. |
| AttributedText.AppendTextValid | Sources/Text/Text.swift:244-271 | The appended text is valid when the argument is empty, the seam is a grapheme boundary, or the receiver's last run survives the append. |
| AttributedText.AppendTextAttrs | Sources/Text/Text.swift:244-271 | At a grapheme boundary, outside the rich+plain and fold cases, the per-byte maps of the result are the receiver's followed by the argument's. |
| AttributedText.AppendTextRepairsSeam | Sources/Text/Text.swift:244-271 | When rich+rich runs are simply concatenated, the combined bytes past the seam take the receiver's last map and the rest is unchanged. The seam plus the combined count is a boundary. |
| AttributedText.AppendAtBoundary | Sources/Text/Text.swift:244-271 | At a grapheme boundary, appending valid texts does not trap and gives valid text, rich exactly when either side is rich. The one exception is an empty rich receiver followed by plain bytes. |
| AttributedText.Upgrade | Sources/Text/Text.swift:204-206 | The receiver becomes rich when it is plain and the inserted text is rich. It keeps its bytes and per-byte maps. |
| AttributedText.ReplaceSubrange | Sources/Text/Text.swift:200-219 | `replaceSubrange` yields prefix ++ inserted ++ suffix bytes. The record holds the prefix's character count, the removed bytes and the inserted text as given. |
| AttributedText.ReplacePlain | Sources/Text/Text.swift:200-219 | Replacing within plain text by plain text never traps and gives plain text of the spliced bytes. |
| AttributedText.ReplaceSplits | Sources/Text/Text.swift:208-211 | With both range ends on run boundaries, the two splits do not trap. They leave valid text before the range and after it. A plain non-empty tail implies that the kept text and the inserted text are plain too. |
| AttributedText.ReplaceValid | Sources/Text/Text.swift:200-219 | When the range ends are run boundaries and both seams are grapheme boundaries, `replaceSubrange` does not trap and gives valid text. |
| AttributedText.ReplaceAppends | Sources/Text/Text.swift:212-213 | The two appends in `replaceSubrange` do not trap and leave valid text when both seams are grapheme boundaries. |
| AttributedText.Insert | Sources/Text/Text.swift:184-189 | `insert` splices the bytes in at the index. It records an empty removal, the inserted text, and the character count before the index. |
| AttributedText.Prepend | Sources/Text/Text.swift:239-241 | `prepend` puts the bytes in front and records position 0. |
| AttributedText.AttributesAtPosition | Sources/Text/Text.swift:309-313 | For valid text, the answer is the map of the byte the affinity selects. |
| AttributedText.Attribute | Sources/Text/Text.swift:301-303 | `attribute` is present exactly when the selected byte's map has the name, and then it is that map's value. |
| AttributedText.LongestEffectiveRangeWhere | Sources/Text/Text.swift:347-360 | Whatever affinity it is given, the range is nil exactly when the predicate fails on the upstream attributes. Otherwise it is a maximal span of satisfying bytes around the upstream-selected byte. |
| AttributedText.LongestEffectiveRangeExact | Sources/Text/Text.swift:322-333 | The range is nil exactly when the maps on the upstream side and on the requested side differ, so it is never nil for upstream. |
| AttributedText.LongestEffectiveRangeExactSpan | Sources/Text/Text.swift:322-333 | When present, the range is a maximal span of bytes whose map equals the sought one, containing the upstream-selected byte. |
| AttributedText.ModifyText | Sources/Text/Text.swift:421-433 | The text-level `modifyAttributes` keeps the bytes and validity. It applies the mutator to exactly the bytes of the range, and both ends become run boundaries. |
| AttributedText.AddAttribute | Sources/Text/Text.swift:364-372 | Inside the range, each byte's map gains the name with the value. Outside the range, nothing changes. |
| AttributedText.AddAttributes | Sources/Text/Text.swift:374-383 | Inside the range, each byte's map is merged with the new map, new values winning. Outside the range, nothing changes. |
| AttributedText.RemoveAttribute | Sources/Text/Text.swift:385-392 | Inside the range, the name is removed from each byte's map. Outside the range, nothing changes. |
| AttributedText.RemoveAttributes | Sources/Text/Text.swift:394-403 | Inside the range, all the names are removed from each byte's map. Outside the range, nothing changes. |
| AttributedText.SetAttributes | Sources/Text/Text.swift:405-412 | Inside the range, each byte's map is replaced by the given one. Outside the range, nothing changes. |
| AttributedText.PieceText | Sources/Text/Text.swift:459-466 | Each piece built from a callback result is valid rich text of the emitted bytes with at most one run. Every emitted byte carries the map the callback returned. |
| AttributedText.BuildStep | Sources/Text/Text.swift:462-466 | Appending a piece to the accumulated text never traps, and the accumulated text stays valid rich text. |
| AttributedText.Build | Sources/Text/Text.swift:458-467 | The accumulation loop yields valid rich text of the accumulated bytes followed by every piece's emitted bytes. A nil result keeps the substring, and an empty result emits nothing. |
| AttributedText.Transformed | Sources/Text/Text.swift:455-467 | The replacement text is the emitted bytes of the slice's runs with their substrings, in order. |
| AttributedText.BuildAttrs | Sources/Text/Text.swift:458-467 | When every piece is appended at a grapheme boundary, the accumulated text stays valid and its per-byte maps are the starting text's followed by each piece's returned map, once per emitted byte. |
| AttributedText.TransformedAttrs | Sources/Text/Text.swift:455-467 | Under the same seam condition, the replacement text is valid and each of its bytes carries the map the callback returned for the run it came from. |
| AttributedText.TransformRuns | Sources/Text/Text.swift:451-470 | `transformRuns` splices the emitted bytes in place of the range. Its record holds the range's bytes and the built replacement text. |
| AttributedText.EmittedKeepRun | Sources/Text/Text.swift:458-466 | A callback that always answers nil re-emits every substring unchanged. |
| AttributedText.TransformKeepRunKeepsBytes | Sources/Text/Text.swift:451-470 | Transforming with that callback leaves the bytes of the text unchanged. |
| Corrected.SplitRuns | Sources/Text/Text+Runs.swift:173-209 | Corrected `split(at:)`: the prefix holds exactly `k` bytes with the first `k` per-byte maps, and the suffix holds the rest. Kinds are kept, no empty run appears, and nothing traps. |
| Corrected.SplitAsWrittenMisplacesCut | Sources/Text/Text+Runs.swift:187-205 | Take runs of 1 and 3 bytes cut at 2. As written, the prefix gets 3 bytes and the suffix 1. The corrected split gives 2 and 2. |
| Corrected.SplitAsWrittenTrapsInFirstRun | Sources/Text/Text+Runs.swift:196-198 | A cut inside the first run traps as written. The corrected split answers it. |
| Corrected.Join | Sources/Text/Text+Runs.swift:162-169 | Joining two run lists keeps the per-byte concatenation and adds no empty run. |
| Corrected.AppendRuns | Sources/Text/Text+Runs.swift:146-171 | Corrected `append`: the lengths add and the kind is rich exactly when either side is. Per byte it is concatenation, except that appended plain bytes take the trailing map. It never traps. |
| Corrected.AppendAsWrittenMisattributesFold | Sources/Text/Text+Runs.swift:150-169 | As written, appending [Y, X] to [X] gives per-byte [Y, Y, X] where [X, Y, X] is meant. An empty rich list followed by plain bytes traps as written. |
| Corrected.RepairSeam | Sources/Text/Text+Runs.swift:211-253 | Corrected seam repair stays rich, adds no empty run and keeps the length. |
| Corrected.RepairSeamAttrs | Sources/Text/Text+Runs.swift:230-251 | Corrected seam repair gives the `c` bytes after the seam the map of the byte before it and changes nothing else. |
| Corrected.FixAsWrittenOvercounts | Sources/Text/Text.swift:255-263 | Take rich "e" followed by plain U+0302 forming one cluster. As written, the runs cover 5 bytes of a 3-byte string and the result is invalid. The corrected repair covers 3. |
| Corrected.OverrunAsWrittenLeavesSplitCluster | Sources/Text/Text+Runs.swift:230-235 | Take rich "ae" followed by rich U+0302, where the "e" and the mark form one cluster. As written, the combined count is 0 and the runs [2, 2] end inside the cluster, which is not aligned. With the full overrun of 2 the result is one 4-byte run, which is aligned. |
| Corrected.SplitClusterRepaired | Sources/Text/Text.swift:244-271 | In that example, `append` with the intended overrun is defined and gives one 4-byte run with the receiver's map. |
| Corrected.SplitTextFixed | Sources/Text/Text.swift:221-236 | `split` on corrected runs: both halves are valid and carry the per-byte maps before and after the index, for every index within the text. |
| Corrected.SliceFixed | Sources/Text/Text.swift:167-171 | The corrected subscript is valid and carries the range's per-byte maps, for every range. |
| Corrected.AppendTextFixed | Sources/Text/Text.swift:244-271 | The corrected `append` always gives valid text of the concatenated bytes. It is the identity for empty text and rich exactly when either side is. |
| Corrected.AppendTextFixedAtBoundary | Sources/Text/Text.swift:244-271 | At a grapheme boundary, the corrected append's per-byte maps are the receiver's followed by the argument's. Plain bytes after rich text take the trailing map instead. |
| Corrected.AppendTextFixedRepairs | Sources/Text/Text.swift:244-271 | For rich+rich, the bytes of the seam cluster past the seam take the receiver's last map. Everything else is concatenation. |
| Corrected.ReplaceFixed | Sources/Text/Text.swift:200-219 | `replaceSubrange` on corrected operations is always valid, with the spliced bytes. Its record holds valid removed text with the range's per-byte maps. |
| Corrected.ReplaceFixedAttrs | Sources/Text/Text.swift:200-219 | With grapheme boundaries at both seams and a rich insert, the per-byte maps are prefix ++ inserted ++ suffix. |
| Corrected.LongestEffectiveRangeExactFixed | Sources/Text/Text.swift:322-333 | Passing the affinity through, the exact lookup always finds a range, and it contains the byte the affinity selects. |
| Corrected.LongestEffectiveRangeAsWrittenMisses | Sources/Text/Text.swift:322-333 | In "ab" with differing maps, the downstream exact lookup at offset 1 is nil as written. The corrected one returns `1..<2`. |
| Alignment.AlignedCuts | Sources/Text/Text+Runs.swift:295-311 | `validate` holds for a run list exactly when every offset at which some run ends is a boundary within the string. |
| Alignment.CutJoin | Sources/Text/Text+Runs.swift:162-169 | Every run end of the corrected join is a run end of the first list or a shifted run end of the second. |
| Alignment.CutAppendRuns | Sources/Text/Text+Runs.swift:146-171 | Every run end of the corrected `append` is a run end of the receiver, a run end of the argument shifted past the receiver, or the end of both. |
| Alignment.CutRepairSeam | Sources/Text/Text+Runs.swift:230-251 | After the corrected seam repair, every run end is the end of the repaired stretch, or a former run end outside the stretch. No run end remains from the seam up to the stretch's end. |
| Alignment.AppendTextFixedAligned | Sources/Text/Text.swift:244-271 | The corrected `append` yields runs that `validate` accepts under two conditions on the joined string. The receiver's run ends before the seam must be boundaries. So must the argument's shifted run ends at or beyond the end of the cluster straddling the seam. The run end at the seam needs no condition, because the repair moves it to the next boundary. Neither do the argument's run ends inside that cluster, because the repair removes them. |
| Scenarios.ModifyAttributesScenario | Tests/TextTests/TextTests.swift:267-277 | The three edits of "abc" leave "a" with 1, "b" with 2 and 3, and "c" with 3. |
| Scenarios.AttributeAffinityScenario | Tests/TextTests/TextTests.swift:45-62 | After marking "a" and "c", all eight lookups at offsets 0–3, upstream and downstream, give the test's values. This includes upstream at 0 (the first run) and upstream at 3 (the last run). |
| Scenarios.CombiningAppendScenario | Tests/TextTests/TextTests.swift:188-195 | Appending a skin tone, a joiner and a fire engine to an attributed woman gives 15 bytes, all with the woman's map. |
| Scenarios.InsertTextStartScenario | Tests/TextTests/TextTests.swift:87-92 | Inserting attributed "z" at the start of plain "abc" gives valid rich text. Its first byte is attributed and the rest have empty maps. |

## Left out

- Grapheme segmentation is a `BoundaryOracle` parameter, not an implementation of Unicode Standard Annex #29.
- The character-indexed overloads and Swift `String.Index` arithmetic (`index(_:)`, `range(_:)`, `count`, the UTF-8/UTF-16 views) are left out. The model works in byte offsets throughout, and character counts are counted boundaries.
- `runsWithRanges` and `CFRange` (Sources/Text/Text+Runs.swift:27-45) are left out: they are Foundation types and UTF-16 transcoding.
- `validate` (Sources/Text/Text+Runs.swift:295-311, Sources/Text/Text.swift:515-517) is restated as `Graphemes.Aligned`: every run ends on a boundary. `Alignment.AppendTextFixedAligned` proves that the corrected `append` preserves it. No as-written operation is proved to preserve it: as-written `split` moves cuts off their offsets, and the as-written combining count can leave a run end inside a cluster (`Corrected.OverrunAsWrittenLeavesSplitCluster`). Split, replace and the attribute edits cut runs at caller-given offsets, so they keep it only if those offsets are boundaries; that is not proved.
- `debugDescription` and `Replaced.debugDescription` (sorted-key formatting) are left out. The test expectations that use them are stated on per-byte maps instead.
- Equatable/Hashable/Sendable/Codable conformances, `Name`, string literals and copy-on-write are language plumbing and are left out.
- `Int` overflow is not modelled. Lengths are unbounded naturals, so a negative `utf8Len` cannot arise.
- Plain `split(at:)` past the end (a negative remainder in the source) is excluded by `SplitDefined`. So are the other traps: empty rich lists in `append`, no run reaching the offset in lookups and `split`.
- The callback of `transformRuns` is a pure function from substring and map to an optional string and a new map. Side effects of the Swift closure are not modelled.
- AttributedText.TransformRuns: states the resulting bytes and the record. It does not state the per-byte maps of the result, because the splits inside `replaceSubrange` go through the as-written `split`.
- Graphemes.Overrun: is the combining length the repair evidently intends, the distance from the seam to the next boundary, and the `Text` append uses it. The code computes it with `String.index(_:offsetBy:limitedBy:)` from the seam index. The model assumes that this call first rounds an index inside a cluster down to the cluster's start, as Swift 5.7 and later do. Under that rounding the code repairs only a seam inside the string's first cluster (`Graphemes.OverrunAsWritten`, Findings).
- AttributedText.ReplaceSubrange: states the bytes and the record only. The per-byte maps depend on the as-written `split` and `append`; `Corrected.ReplaceFixedAttrs` states them for the corrected operations.
- AttributedText.Build, AttributedText.Transformed: state the bytes for every callback. The per-byte maps (`AttributedText.BuildAttrs`, `AttributedText.TransformedAttrs`) are stated only when every piece is appended at a grapheme boundary. At other seams the as-written repair can recolour or overcount bytes (`Corrected.FixAsWrittenOvercounts`).
- AttributedText.ReplaceValid: states validity only. The per-byte maps of the as-written replace depend on where `split` lands inside a run; `Corrected.ReplaceFixedAttrs` states them for the corrected operations.
- AttributedText.AppendTextValid: requires a boundary seam, an empty argument, or a kept last run. Outside those cases the as-written repair can overcount (`Corrected.FixAsWrittenOvercounts`).
- AttributedText.ReplaceSplits: requires both range ends to be run boundaries, since the as-written interior split misplaces the cut.

## Findings

| source | as written | input that shows it | evidently intended | confidence | as-written member | corrected member |
|---|---|---|---|---|---|---|
| Sources/Text/Text+Runs.swift:187-205 | A cut inside run `i` trims the suffix's first run by `diff`, the bytes after the cut. It drops run `i` from the prefix and adds `diff` to run `i - 1`. For `i == 0` the prefix list is empty and the index traps. | runs of 1 and 3 bytes cut at 2: prefix 3 bytes, suffix 1 byte; one 2-byte run cut at 1: trap | the prefix holds the first `k` bytes with their maps and the suffix the rest | not executed | Corrected.SplitAsWrittenMisplacesCut, Corrected.SplitAsWrittenTrapsInFirstRun | Corrected.SplitRuns |
| Sources/Text/Text+Runs.swift:162-166 | rich+rich compares the last map of the first list with the last map of the second, then folds the first list's last run into the second list's first run | [X] appended with [Y, X]: per-byte [Y, Y, X] | the maps are concatenated: [X, Y, X] | not executed | Corrected.AppendAsWrittenMisattributesFold | Corrected.AppendRuns |
| Sources/Text/Text.swift:255-263 | `atRun` is taken before `append`. In rich+plain the plain bytes are merged into the last run, so no run lies at `atRun`. The repair then grows run `atRun - 1` by `c` and removes nothing. | rich "e" (1 byte) followed by plain U+0302 (2 bytes) forming one cluster: runs cover 5 bytes of 3 | the combined bytes move without changing the total | not executed | Corrected.FixAsWrittenOvercounts | Corrected.RepairSeam |
| Sources/Text/Text+Runs.swift:230-235 | The combining length steps one character back from the seam index and one forward, and repairs only if that lands past the seam. With an index inside a cluster rounded down to the cluster's start, this lands past the seam only when that cluster starts the string. | rich "ae" (map X) followed by rich U+0302 (map Y), which joins the "e": no repair, runs [2 X, 2 Y] with a run end inside the cluster | the run end moves to the next boundary: one run [4 X] | not executed; rests on the index rounding of Swift 5.7 and later | Graphemes.OverrunAsWritten, Corrected.OverrunAsWrittenLeavesSplitCluster | Graphemes.Overrun |
| Sources/Text/Text.swift:322-333 | The exact lookup seeks the map on the requested side, but the predicate version it calls ignores the affinity (line 354) and tests the upstream run | "ab" with maps X and Y, offset 1, downstream: nil | the range of the downstream run, `1..<2` | not executed | Corrected.LongestEffectiveRangeAsWrittenMisses | Corrected.LongestEffectiveRangeExactFixed |
