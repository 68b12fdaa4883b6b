# RustOwl core, modelled in Dafny

RustOwl shows Rust programmers where each variable is live, borrowed or
dropped. The compiler-facing half collects the borrow checker's facts and
turns them into character ranges. The editor-facing half shows those
ranges. This project models the pure logic between the two:

- The output data model (`src/models.rs`):
  - saturating `Loc` arithmetic;
  - the byte-to-character conversion `Loc::new`;
  - `Range::new` and `Range::size`;
  - the first-wins `MirVariables` collection;
  - `Crate::merge` and `Workspace::merge`;
  - `MirTerminator::range`.
- The range algebra of `src/utils.rs`:
  - `is_super_range`, `common_range`, `merge_ranges` and `eliminated_ranges`;
  - `exclude_ranges` and `common_ranges`;
  - the CR-skipping conversions `index_to_line_char` and `line_char_to_index`;
  - the `mir_visit` traversal order.
- Fact-to-range extraction (`src/bin/core/analyze/polonius_analyzer.rs`):
  - `get_range` and `statement_location_to_range`;
  - `get_accurate_live` and `drop_range`;
  - `get_borrow_live` and `get_must_live`.
- Cache configuration parsing (`src/cache.rs`).
- Shell-name parsing (`src/shells.rs`).
- The error type and its context mapping (`src/error.rs`).

Environment variables, the location table, `sort_locs` and the conversion
from locations to ranges are parameters of the functions that use them.

Modules follow the source files:

| file | module | models |
|---|---|---|
| `wrappers.dfy` | `Wrappers` | `Option`, `Result` |
| `ordmap.dfy` | `OrderedMaps` | the insertion-ordered `IndexMap` behind `Crate` and `Workspace` |
| `models.dfy` | `Models` | `src/models.rs` |
| `ranges.dfy` | `Ranges` | range algebra and the normal form of `eliminated_ranges` |
| `range_lists.dfy` | `RangeLists` | `exclude_ranges`, `common_ranges` |
| `text_position.dfy` | `TextPositions` | `index_to_line_char`, `line_char_to_index` |
| `mir_visit.dfy` | `MirVisit` | `mir_visit` |
| `polonius.dfy` | `PoloniusAnalyzer` | `polonius_analyzer.rs` |
| `strings.dfy` | `Strings` | `str::trim`, `to_ascii_lowercase` |
| `cache_config.dfy` | `CacheConfigs` | `src/cache.rs` |
| `shells.dfy` | `Shells` | `src/shells.rs` |
| `errors.dfy` | `Errors` | `src/error.rs` |

Where the source's own tests and its code disagree, the model follows the code:

- `src/utils.rs:978` expects `index_to_line_char("abc\nde\r\nfgh\r\nij\n", 14)` to be `(3, 2)`.
  - The loop counts all 14 logical characters, four of them newlines, so the code gives `(4, 0)`.
  - `TextPositions.MixedLineEndsExample` proves `(4, 0)`.
- `src/utils.rs:599` expects `line_char_to_index("a\nb\nc", 0, 10)` to be 5.
  - The column loop stops at the first newline, so the code gives 1.
  - `TextPositions.LineEndExample` proves 1.
- `get_must_live` attributes to a region only the locations of its direct subsets (`src/bin/core/analyze/polonius_analyzer.rs:117-129`); it does not follow the outlives relation further.
  - `PoloniusAnalyzer.MustLiveNotTransitive` shows that a region two steps down a three-region chain contributes nothing.
  - `PoloniusAnalyzer.MustLiveOneLevel` shows that the direct subset one step down does contribute.

## Model

| member | source | states |
|---|---|---|
| Models.LocAdd | src/models.rs:108-117 | adding a signed offset gives the exact sum clamped into `[0, u32::MAX]`, and moves the location in the direction of the offset's sign |
| Models.LocSub | src/models.rs:139-147 | subtracting a signed offset gives the exact difference clamped into `[0, u32::MAX]` |
| Models.LocSubIsAddNegated | src/models.rs:120-148 | `l - k` equals `l + (-k)` for every offset except `i32::MIN` |
| Models.LocNew | src/models.rs:60-86 | the character index never exceeds the number of non-CR characters or the adjusted byte position, and is 0 when the offset reaches the byte position |
| Models.LocNewCountsFittingPrefix | src/models.rs:60-86 | `Loc::new` counts exactly the non-CR characters of the longest prefix whose UTF-8 encoding fits in `byte_pos - offset` bytes |
| Models.LocNewCrExample | src/models.rs:519-532 | a CR before the target byte is skipped: byte 8 of "hello\r\n world" is character 7 |
| Models.LocNewWideCharExample | src/models.rs:60-86 | a four-byte character counts once, and only when the target byte lies past all of it |
| Models.RangeNew | src/models.rs:181-187 | a range is built exactly when `until` lies after `from`, with those bounds |
| Models.Size | src/models.rs:200-202 | the size is positive and reaches from `from` to `until` |
| Models.SizeCountsPoints | src/models.rs:200-202 | the size is the number of positions the half-open range covers |
| Models.Push | src/models.rs:248-253 | a variable whose index is present changes nothing; a new index is appended with its variable; distinct keys stay distinct |
| Models.ToVec | src/models.rs:255-257 | the variables come back one per key, in insertion order |
| Models.PushAllToVec | src/models.rs:248-257 | pushing a sequence and reading it back yields, in order, the first variable pushed for each index |
| Models.RetainUnseen | src/models.rs:325-326 | the retained items are incoming items with unseen ids, with no id twice, covering every unseen id |
| Models.RetainUnseenKeepsFirstFresh | src/models.rs:325-326 | the retain loop keeps exactly the first item of each id that was neither seen before nor kept earlier |
| Models.MergeFile | src/models.rs:310-327 | the existing items stay first and unchanged, and the ids of the result are the union of both files' ids |
| Models.MergeFileKeepsIdsDistinct | src/models.rs:310-327 | a file whose function ids are distinct keeps them distinct after a merge |
| Models.MergeFileSelf | src/models.rs:310-327 | merging a file into itself changes nothing |
| Models.CrateMerge | src/models.rs:307-334 | every file of either crate is kept; files present in both are merged; the crate's own files come first in their order, followed by the other crate's new files in its order |
| Models.CrateMergeSelf | src/models.rs:307-334 | merging a crate into itself changes nothing |
| Models.WorkspaceMerge | src/models.rs:290-300 | every crate of either workspace is kept; crates present in both are merged with `Crate::merge`; the original crates come first in their order, followed by the other workspace's new crates in its order |
| Models.MirTerminator.CodeRange | src/models.rs:399-406 | a call terminator is located by its callee's span, and every other terminator by its own range |
| OrderedMaps.Insert | src/models.rs:293-296 | inserting updates the value; a new key goes last and an existing key keeps its place |
| OrderedMaps.MergeWithSpec | src/models.rs:290-300 | the merged map holds exactly the keys of both maps, combines values of shared keys, keeps the existing keys first in order and appends the new keys in the order of the other map |
| OrderedMaps.MergeWithSelf | src/models.rs:290-300 | merging a map with itself, under a combination that keeps equal values, gives the map back |
| Ranges.IsSuperRangeIsStrictContainment | src/utils.rs:14-17 | `is_super_range(r1, r2)` holds exactly when `r1` covers every position of `r2` and differs from it |
| Ranges.CommonRange | src/utils.rs:23-33 | there is a common range exactly when the later start lies before the earlier end, and it runs from the later start to the earlier end |
| Ranges.CommonRangeIsIntersection | src/utils.rs:23-33 | the common range covers exactly the positions both ranges cover; none means there is no shared position |
| Ranges.CommonRangeSymmetric | src/utils.rs:23-33 | the argument order does not matter |
| Ranges.CommonRangeOfContained | src/utils.rs:23-33 | intersecting with a containing range gives the contained range back |
| Ranges.MergeRanges | src/utils.rs:55-63 | a merge exists exactly when the ranges overlap or touch, and it is their hull |
| Ranges.MergeRangesIsUnion | src/utils.rs:55-63 | the merge covers exactly the union of the two ranges; without a merge a gap separates them |
| Ranges.MergeRangesCommutative | src/utils.rs:55-63 | the argument order does not matter |
| Ranges.MergeRangesContainsBoth | src/utils.rs:55-63 | a merge contains each of the two ranges |
| Ranges.MergeRangesSelf | src/utils.rs:55-63 | a range merges with itself into itself |
| Ranges.SortRanges | src/utils.rs:70-71 | the sort by `(from, until)` is ordered and a permutation of its input |
| Ranges.EliminatedRanges | src/utils.rs:69-90 | the result is sorted, pairwise separated by a gap, and no longer than the input |
| Ranges.EliminatedRangesSamePoints | src/utils.rs:69-90 | the result covers exactly the positions of the input |
| Ranges.NormalUnique | src/utils.rs:69-90 | two gap-separated sorted lists that cover the same positions are equal |
| Ranges.EliminatedRangesCanonical | src/utils.rs:69-90 | the result depends only on the positions covered, not on how the input splits them |
| Ranges.EliminatedRangesIdempotent | src/utils.rs:69-90 | applying it twice changes nothing |
| Ranges.EliminatedRangesPermutation | src/utils.rs:69-90 | the order of the input does not matter |
| Ranges.EliminatedRangesOfNormal | src/utils.rs:69-90 | a list already sorted and separated by gaps comes back unchanged |
| RangeLists.FirstOverlap | src/utils.rs:107-113 | the inner search finds nothing exactly when the range overlaps no exclude; otherwise it finds a common range with some exclude |
| RangeLists.Fragments | src/utils.rs:113-118 | the parts kept on either side of a cut lie inside the range, outside the cut, and are strictly smaller in total |
| RangeLists.ExcludeRanges | src/utils.rs:102-123 | the result is sorted and gap-separated |
| RangeLists.ExcludeRangesSound | src/utils.rs:102-123 | every position kept comes from `from` and lies in no exclude |
| RangeLists.ExcludeRangesComplete | src/utils.rs:102-123 | every position of `from` neither in nor right next to an exclude is kept |
| RangeLists.ExcludeRangesClearOfExcludes | src/utils.rs:102-123 | no range of the result overlaps an exclude |
| RangeLists.ExcludeRangesDisjoint | src/utils.rs:102-123 | ranges that overlap no exclude are only normalised |
| RangeLists.ExcludeRangesSingle | src/utils.rs:102-123 | cutting one exclude out of one range leaves exactly the two side fragments |
| RangeLists.ExcludeRangesExample | src/utils.rs:352-371 | `[0, 20)` minus `[5, 15)` is `[0, 4)` and `[16, 20)`: one extra position goes on each side |
| RangeLists.ExcludeRangesOfExcluded | src/utils.rs:102-123 | a range that is itself an exclude disappears |
| RangeLists.CommonRanges | src/utils.rs:39-49 | the result is sorted and gap-separated |
| RangeLists.CommonRangesCoversShared | src/utils.rs:39-49 | the result covers exactly the positions that two different input ranges share |
| TextPositions.IndexToLineChar | src/utils.rs:169-217 | line and column never exceed the index |
| TextPositions.LineCharToIndex | src/utils.rs:224-268 | the index never exceeds the number of non-CR characters |
| TextPositions.LineCharToIndexRoundTrip | src/utils.rs:391-401 | converting an index to (line, column) and back gives the index, capped at the text's logical length |
| TextPositions.IndexToLineCharIgnoresCr | src/utils.rs:569-588 | deleting every carriage return leaves every position unchanged |
| TextPositions.LineCharToIndexIgnoresCr | src/utils.rs:569-588 | deleting every carriage return leaves every index unchanged |
| TextPositions.IndexToLineCharLine | src/utils.rs:169-217 | the line of an index is the number of newlines among the logical characters before it |
| TextPositions.IndexToLineCharColumn | src/utils.rs:169-217 | the column of an index is the number of logical characters since the last newline before it |
| TextPositions.IndexToLineCharPastEnd | src/utils.rs:198-216 | an index at or past the last counted character gives the final position: the line after every newline and the length of the last line |
| TextPositions.LineCharToIndexPastLastLine | src/utils.rs:982-994 | a line past the last one gives the number of logical characters |
| TextPositions.LineCharToIndexFirstLine | src/utils.rs:224-268 | on the first line a column past the line's end stops at its newline |
| TextPositions.LineCharToIndexOnLine | src/utils.rs:224-268 | on every line, the index is the count of the characters before the line plus the column, clamped at the line's newline |
| TextPositions.LineStartSplit | src/utils.rs:229-241 | every line up to the last one starts right after exactly that many newlines |
| TextPositions.MixedLineEndsExample | src/utils.rs:943-979 | with mixed CRLF and LF line ends, index 14 of the test text is at (4, 0) |
| TextPositions.LineEndExample | src/utils.rs:590-601 | on "a\nb\nc", column 10 of line 0 stops at the first newline, index 1 |
| TextPositions.PastEndExample | src/utils.rs:590-596 | on "a\nb\nc", line 10 is past the last line and gives all 5 characters |
| TextPositions.TwoWordsExample | src/utils.rs:981-994 | on "hello\nworld", line 10 gives all 11 logical characters and column 10 of line 0 stops at index 5 |
| MirVisit.MirVisit | src/utils.rs:149-162 | the callbacks run in this order: the function, its declarations, then each block's statements followed by its terminator |
| MirVisit.VisitBlock | src/utils.rs:155-160 | within one basic block the statements are visited in order, then the terminator if there is one |
| MirVisit.VisitOrderCounts | src/utils.rs:891-941 | `visit_func` runs once, `visit_decl` once per declaration, `visit_stmt` once per statement and `visit_term` once per present terminator |
| PoloniusAnalyzer.GroupSeqSpec | src/bin/core/analyze/polonius_analyzer.rs:193-205 | grouping keeps exactly the keys that occur, each with its values in fact order |
| PoloniusAnalyzer.StatementLocationToRange | src/bin/core/analyze/polonius_analyzer.rs:207-219 | a missing block gives none; a statement index inside the block gives that statement's range; any index at or past the end of the statements gives the terminator's range if there is one, and none otherwise |
| PoloniusAnalyzer.PairedRange | src/bin/core/analyze/polonius_analyzer.rs:221-247 | a start/mid pair yields a range exactly when both locations resolve and the start lies before the mid's end; the range runs from one to the other |
| PoloniusAnalyzer.PairRanges | src/bin/core/analyze/polonius_analyzer.rs:221-247 | no more ranges than the shorter of the start and mid lists |
| PoloniusAnalyzer.PairRangesMembers | src/bin/core/analyze/polonius_analyzer.rs:221-247 | a range is produced exactly for an index below both list lengths whose pair yields it |
| PoloniusAnalyzer.GetRange | src/bin/core/analyze/polonius_analyzer.rs:178-248 | the keys are exactly the locals mentioned in the facts, and each value is sorted and gap-separated |
| PoloniusAnalyzer.GetRangeSpec | src/bin/core/analyze/polonius_analyzer.rs:178-248 | a local's list is the normal form of its paired sorted Start and Mid points, covers the same positions, and is no longer than the shorter list |
| PoloniusAnalyzer.GetAccurateLive | src/bin/core/analyze/polonius_analyzer.rs:9-22 | the keys are exactly the locals live on entry somewhere, each mapped to a normal list |
| PoloniusAnalyzer.DropRange | src/bin/core/analyze/polonius_analyzer.rs:163-176 | the keys are exactly the locals drop-live on entry somewhere, each mapped to a normal list |
| PoloniusAnalyzer.GetBorrowLive | src/bin/core/analyze/polonius_analyzer.rs:25-80 | a local has a shared (mutable) entry exactly when some live loan is a shared (mutable) borrow of it, and each list is normal |
| PoloniusAnalyzer.GetBorrowLiveSpec | src/bin/core/analyze/polonius_analyzer.rs:34-79 | each list is built from exactly the locations where a loan of the right kind on that local is live, in fact order |
| PoloniusAnalyzer.RegionLocationsSpec | src/bin/core/analyze/polonius_analyzer.rs:89-97 | a point is listed for a region exactly when the region is live on entry there |
| PoloniusAnalyzer.LastWinsSpec | src/bin/core/analyze/polonius_analyzer.rs:99-105 | a loan listed under several locals belongs to the last one listed |
| PoloniusAnalyzer.BorrowLocalExample | src/bin/core/analyze/polonius_analyzer.rs:99-105 | locals 1 and 2 both listing loan 7 resolve it to 2 |
| PoloniusAnalyzer.SubsetsSpec | src/bin/core/analyze/polonius_analyzer.rs:107-116 | `sub` is recorded under `sup` exactly when some point's subset relation says `sup` outlives `sub` |
| PoloniusAnalyzer.LocalMustLocationsSpec | src/bin/core/analyze/polonius_analyzer.rs:117-146 | a point is a must-live location of a local exactly when a region holding the local's loan has a direct subset live at that point |
| PoloniusAnalyzer.LocalMustKeys | src/bin/core/analyze/polonius_analyzer.rs:130-146 | a local is a key exactly when it must be live somewhere |
| PoloniusAnalyzer.GetMustLive | src/bin/core/analyze/polonius_analyzer.rs:82-160 | the keys are exactly the locals that must be live somewhere, each mapped to a normal list |
| PoloniusAnalyzer.MustLiveNotTransitive | src/bin/core/analyze/polonius_analyzer.rs:117-129 | two steps down an outlives chain, nothing must be live: only direct subsets count |
| PoloniusAnalyzer.MustLiveOneLevel | src/bin/core/analyze/polonius_analyzer.rs:117-146 | one step down the chain, the direct subset's point is a must-live location |
| PoloniusAnalyzer.PairedRangeExamples | src/bin/core/analyze/polonius_analyzer.rs:439-489 | a mid past the statements uses the terminator; a missing block or an inverted pair yields nothing |
| PoloniusAnalyzer.PairRangesTruncates | src/bin/core/analyze/polonius_analyzer.rs:415-437 | with two starts and one mid only the first start is paired |
| PoloniusAnalyzer.GetRangeExample | src/bin/core/analyze/polonius_analyzer.rs:386-413 | a local live at Start(0, 1) and Mid(0, 2) gets exactly `[10, 30)` |
| Strings.Trim | src/cache.rs:35 | the result is a slice of the input with only whitespace outside it, and it neither starts nor ends with whitespace |
| Strings.TrimPadded | src/cache.rs:35 | surrounding whitespace does not change the trim |
| Strings.LowerTrimCommute | src/cache.rs:35 | lowercasing and trimming commute |
| Strings.NormalizeInvariant | src/cache.rs:88-100 | the normalised word ignores surrounding whitespace and ASCII case |
| CacheConfigs.IsCache | src/cache.rs:32-39 | the cache is on unless the variable is set to "false" or "0" |
| CacheConfigs.IsCacheInvariant | src/cache.rs:32-39 | case and surrounding whitespace do not change the answer |
| CacheConfigs.IsCachePaddedExample | src/cache.rs:178-196 | "  false  " turns the cache off |
| CacheConfigs.IsCacheOffWordExample | src/cache.rs:514-523 | "OFF" is not an off word, so the cache stays on |
| CacheConfigs.IsCacheZeroExample | src/cache.rs:178-196 | "0" turns the cache off |
| CacheConfigs.IsCacheUpperExample | src/cache.rs:178-196 | "FALSE" turns the cache off |
| CacheConfigs.IsCacheEmptyExample | src/cache.rs:514-523 | an empty value leaves the cache on |
| CacheConfigs.GetCachePath | src/cache.rs:45-51 | a path exists exactly when the value has a non-whitespace character; it is the slice of the value left after removing only whitespace from both ends, with no whitespace at either of its ends |
| CacheConfigs.GetCachePathPadded | src/cache.rs:45-51 | surrounding whitespace never reaches the path |
| CacheConfigs.GetCachePathBlankExample | src/cache.rs:216-253 | unset or whitespace-only gives no path |
| CacheConfigs.GetCachePathPaddedExample | src/cache.rs:524-530 | " \t/tmp/cache\n" gives the path "/tmp/cache" |
| CacheConfigs.ParseUsize | src/cache.rs:74-85 | the parse succeeds exactly for an optional '+' followed by one or more decimal digits (leading zeros allowed) whose value is at most `usize::MAX`, and gives that value; any whitespace makes the parse fail |
| CacheConfigs.ParseUsizeLeadingZerosExample | src/cache.rs:74-85 | "007" parses to 7 |
| CacheConfigs.ParseUsizeRoundTrip | src/cache.rs:74-85 | every `usize` written in decimal, with or without '+', parses back to itself |
| CacheConfigs.ParseUsizeOverflow | src/cache.rs:74-85 | a decimal above `usize::MAX` is rejected |
| CacheConfigs.SaturatingMul | src/cache.rs:84 | the product, or `usize::MAX` when it does not fit |
| CacheConfigs.GetCacheConfig | src/cache.rs:70-103 | each field is the default unless its own variable overrides it, with the memory in bytes saturating and compression always off |
| CacheConfigs.GetCacheConfigUnset | src/cache.rs:20-30 | with nothing set the configuration is 1000 entries, 100 MiB, LRU, validation on and compression off |
| CacheConfigs.GetCacheConfigFieldsIndependent | src/cache.rs:70-103 | each field depends on its own variable only |
| CacheConfigs.GetCacheConfigMaxEntries | src/cache.rs:74-79 | any `usize` in decimal sets `max_entries` |
| CacheConfigs.GetCacheConfigMaxMemory | src/cache.rs:81-86 | a memory size in MB is stored in bytes, saturating |
| CacheConfigs.GetCacheConfigMaxMemorySaturates | src/cache.rs:459-466 | `usize::MAX` MB stays `usize::MAX` bytes |
| CacheConfigs.GetCacheConfigPaddedNumber | src/cache.rs:468-479 | numbers are not trimmed: " 200 " and "  777 " keep the defaults |
| CacheConfigs.GetCacheConfigWordsInvariant | src/cache.rs:88-100 | the eviction policy and the validation flag ignore case and surrounding whitespace |
| Shells.Display | src/shells.rs:31-42 | every name is non-empty and lowercase |
| Shells.FromStr | src/shells.rs:44-57 | success means the lowercased input is that shell's name; failure means it names none, and the error is "invalid variant: " and then the input unchanged |
| Shells.FromStrDisplay | src/shells.rs:44-57 | parsing a shell's display name gives the shell back |
| Shells.DisplayInjective | src/shells.rs:31-42 | no two shells share a display name |
| Shells.FromStrAccepts | src/shells.rs:44-57 | a string parses to a shell exactly when its lowercase form is that shell's name |
| Shells.FromStrCaseInsensitive | src/shells.rs:44-57 | case makes no difference to the parse |
| Shells.FromStrMixedCaseExample | src/shells.rs:211-231 | "BaSh" and "NuShell" parse |
| Shells.FromStrErrorExamples | src/shells.rs:234-249 | the empty input is rejected with "invalid variant: ", and surrounding whitespace is not trimmed |
| Shells.FileName | src/shells.rs:88 | the file name is a non-empty path component other than "." and ".." |
| Shells.Stem | src/shells.rs:88 | the stem is a prefix of the file name; without a dot after the first character it is the whole name; otherwise it is the non-empty text before the last dot |
| Shells.ShellOfStem | src/shells.rs:90-98 | a stem finds a shell exactly when it is one of that shell's names |
| Shells.FromShellPathIff | src/shells.rs:86-99 | a path finds a shell exactly when its file stem is one of that shell's names |
| Shells.StemNamesDisjoint | src/shells.rs:90-98 | no stem names two shells |
| Shells.FromShellPathInDir | src/shells.rs:86-99 | the directory part of the path does not matter |
| Shells.StemWithExtension | src/shells.rs:88 | an extension after the stem is dropped |
| Shells.StemLastDotExample | src/shells.rs:88 | only the last extension is dropped: "a.b.c" has stem "a.b" |
| Shells.FromShellPathDisplay | src/shells.rs:86-99 | every shell's display name, used as a path, finds that shell |
| Shells.FromShellPathDirExample | src/shells.rs:251-286 | "/usr/bin/nu" is Nushell |
| Shells.FromShellPathCurrentDirExample | src/shells.rs:251-286 | "./bash" is Bash |
| Shells.FromShellPathAliasExample | src/shells.rs:251-286 | "powershell_ise" is PowerShell |
| Shells.FromShellPathExtensionExample | src/shells.rs:290-306 | "nu.exe" is Nushell |
| Shells.FromShellPathUnknownExample | src/shells.rs:251-286 | "sh" is not a known shell |
| Shells.FromShellPathCaseExample | src/shells.rs:532-536 | the path lookup is case-sensitive: "BASH" finds nothing |
| Shells.FromShellPathEmpty | src/shells.rs:86-99 | the empty path finds no shell |
| Shells.ToStandardShell | src/shells.rs:113-122 | there is no standard shell exactly for Nushell |
| Shells.ToStandardShellBijective | src/shells.rs:113-122 | the conversion pairs the other five shells one-to-one with the standard shells |
| Errors.Label | src/error.rs:26-39 | every label ends in ": " |
| Errors.Display | src/error.rs:26-39 | the text is the variant's label followed by its message |
| Errors.LabelsPrefixFree | src/error.rs:26-39 | no label is a prefix of a different label |
| Errors.DisplayInjective | src/error.rs:26-39 | two errors with the same text are the same error |
| Errors.DisplayExamples | src/error.rs:100-117 | for any message, the cargo-metadata, toolchain and configuration errors read as their label followed by that message |
| Errors.FromIo | src/error.rs:43-47 | an I/O error always becomes the `Io` variant, keeping the error |
| Errors.FromJson | src/error.rs:49-53 | a JSON error always becomes the `Json` variant, keeping the error |
| Errors.ConversionsInjective | src/error.rs:43-53 | converted errors stay distinguishable by their text |
| Errors.ResultWithContext | src/error.rs:71-76 | success passes through unchanged; any error becomes an analysis error with the closure's message |
| Errors.ResultContext | src/error.rs:78-80 | success passes through; any error becomes an analysis error with exactly the given message |
| Errors.OptionWithContext | src/error.rs:84-89 | `Some` passes through; `None` becomes an analysis error with the closure's message |
| Errors.OptionContext | src/error.rs:91-93 | `Some` passes through; `None` becomes an analysis error with exactly the given message |
| Errors.OptionContextAsResult | src/error.rs:71-93 | `context` on an `Option` agrees with `context` on the `Result` that carries no error information |
| Errors.ContextMap | src/error.rs:71-93 | mapping a success commutes with adding context |
| Errors.ContextForgetsError | src/error.rs:75 | which error occurred makes no difference to the result |
| Errors.ContextDisplay | src/error.rs:138-172 | a contextualised failure displays as "Analysis error: " followed by the message |
| Errors.ContextChaining | src/error.rs:284-300 | adding context twice keeps only the last message |

## Left out

- I/O, environment access, hashing, serde and `rayon` parallelism are not modelled.
- The environment variables are `Option<string>` parameters. A value that is not valid Unicode counts as unset, because `env::var` fails on it.
- `set_cache_path`, `Shell::from_env` and the clap `Generator` impl are left out: they only set or read the process environment or call clap_complete.
- The cache store is not part of this model.
- The `to_rich_location` table, `sort_locs`, `rich_locations_to_ranges` and the `IndexSet` iteration order of `get_must_live` are function parameters. `sort_locs` is only required to permute its input.
- Result maps are Dafny `map`s, so their key order is not modelled. `IndexMap` order is modelled only where the source relies on it: `MirVariables`, `Crate` and `Workspace`.
- Models.LocAdd: does not accept `i32::MIN`, whose negation overflows in the source.
- Models.LocSub: does not accept `i32::MIN`, whose negation overflows in the source.
- TextPositions.IndexToLineChar: the `u32` counters are unbounded here. A text with more than `u32::MAX` logical characters is out of scope.
- TextPositions.LineCharToIndex: returns a `nat`. The source's `u32` would wrap only past `u32::MAX` characters.
- `get_range`'s `try_into().unwrap()` on local indices above `u32::MAX` would panic. Locals are naturals here.
- Shells.FromStr: lowercases with ASCII rules where the source uses Unicode `to_lowercase`. The only non-ASCII character that lowercases to an ASCII letter is the Kelvin sign, which lowercases to 'k'. No shell name contains 'k', so the results agree.
- Shells.FileName: a simplified Unix `Path::file_name`, with `/` as the only separator and no Windows prefixes or verbatim paths. The stem rule is Rust's: the text before the last '.', unless that is empty.
- CacheConfigs.ParseUsize: `usize` is 64 bits wide.
- Errors.FromIo: an `io::Error` is represented by the message it displays. Its kind and source chain are not modelled.
- Errors.FromJson: a `serde_json::Error` is represented by the message it displays.
