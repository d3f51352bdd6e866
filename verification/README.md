# Verified model of aptu-coder

aptu-coder is a code-analysis server that also edits files. This project models the parts of it
whose correctness rests on offset arithmetic, interleaving or a clever loop, and proves what they
promise for every input, every run and every reachable state.

* **The text-replacement engine** (`Text`, `Crlf`, `Matching`, `TrimEnd`, `TrimIndex`, `Splice`,
  `EditMatch`, `EditReplace`, `EditBatch`, `EditBatchLaws`, `EditFile`). `edit_replace` looks for a
  text in the CRLF-normalized file, falls back to a search that ignores trailing whitespace on each
  line, maps the matches back to the original file through two binary-searched tables, and splices.
  `TrimEnd` gives character-by-character definitions; `TrimIndex` proves that the line tables compute
  them. `EditReplace` and `EditBatch` specify the single edit and the atomic batch, and `EditFile`
  holds the file object whose methods are proved against these specifications.
* **The caches** (`DiskCache`, `LruCache`). The disk cache is a protocol of processes that lock, write
  a temporary file, rename and read, step by step, with failures and crashes anywhere. The memory
  cache is an LRU list with eviction counting, invalidation by path and a poisonable mutex.
* **Algorithms that must agree with a simple definition**: the here-document scanner (`Heredoc`,
  `HeredocGrammar`), ancestor closure and subtree counts (`Traversal`), anchor verification
  (`Anchors`), the callers oracle (`CallersOracle`), greedy wrapping (`Wrapping`) and pagination
  (`Pagination`). `Sorting` is the stable sort the batch uses.

Text is a sequence of Unicode scalar values. Offsets are therefore character offsets; sizes that the
program reports in bytes are computed with `Text.Utf8Len`. Hash functions, codecs, path
canonicalization, file contents and I/O outcomes are parameters. Verify with
`dafny verify dfyconfig.toml`.

## Where the code differs from what one would expect

* A single edit with `replace_all` can abort. When the fallback is used, the trimmed old text starts
  with a newline and two of its matches touch, the spans overlap and the splice slices out of order.
  `EditReplace.PanicsIff` states exactly when; `EditReplace.OverlapPanics` is an instance. The batch
  reports the same situation as overlapping edits (`EditBatchLaws.OneEditBatchAgrees`).
* A fallback match that ends a line consumes the rest of that line with its newline, and a following
  blank line when the old text itself ends in a newline; `TrimEnd.SpanTrims` says when the newline is
  included.
* A poisoned mutex is never cleared, so every later call empties the cache again and no later `get`
  hits, although the comments speak of recovery (`LruCache.PoisonedNeverHits`). A `get` right after a
  `put` returns the value put if and only if the mutex was never poisoned
  (`LruCache.PutHitsIffNotPoisoned`).
* The server's anchor check mirrors the scorer's, but the two split text into lines differently. They
  see the same lines if and only if the file's only line breaks are "\n" and "\r\n"
  (`Anchors.SameLinesIff`).
* When the shared lock cannot be taken the log message says that reading proceeds without a lock; the
  code returns nothing instead, and the model follows the code.
* The second exit test of the ancestor climb (parent equals root) is never the one that fires, because
  the root is inserted first (`Traversal.Climb`).

## Model

| member | source | states |
|---|---|---|
| Text.LineAtIsPiece | crates/aptu-coder-core/src/edit.rs:463-469 | a reported line number is the number of the newline-separated piece in which the offset lies |
| Crlf.NormalizeIsReplaceCrlf | crates/aptu-coder-core/src/edit.rs:129-135 | the borrowing fast path is invisible: normalization always replaces every CRLF by a newline, as `str::replace` does |
| Crlf.BuildCrlfPositions | crates/aptu-coder-core/src/edit.rs:142-158 | the loop lists the normalized offsets of all newlines that stand for a CRLF |
| Crlf.PartitionPointIsExact | crates/aptu-coder-core/src/edit.rs:284-290 | the position table is partitioned by every bound, so the binary search has one right answer |
| Crlf.OffsetMapLaw | crates/aptu-coder-core/src/edit.rs:142-158 | cutting the original at a mapped offset cuts the normalized text at that offset on both sides; the map is strictly increasing, keeps both ends and line numbers |
| Crlf.SliceCommutes | crates/aptu-coder-core/src/edit.rs:284-290 | any region of the normalized text is the normalization of the mapped region of the original |
| Crlf.LineNumbersAgree | crates/aptu-coder-core/src/edit.rs:463-469 | line numbers computed in original and in normalized coordinates are the same |
| Matching.MatchesAreSound | crates/aptu-coder-core/src/edit.rs:365-373 | reported matches are occurrences, increasing and non-overlapping |
| Matching.MatchesAreComplete | crates/aptu-coder-core/src/edit.rs:365-373 | every occurrence is reported or overlaps an earlier reported one |
| TrimIndex.TrimEndLines | crates/aptu-coder-core/src/edit.rs:238-248 | trimming line by line gives the character-by-character trimmed text |
| TrimIndex.BuildTrimEndIndex | crates/aptu-coder-core/src/edit.rs:209-234 | the loop builds the trimmed text and both line tables |
| TrimIndex.MapToNormIsStartMap | crates/aptu-coder-core/src/edit.rs:179-184 | the table lookup of a start offset equals the character map for every offset inside the trimmed text |
| TrimIndex.MapEndToNormIsEndMap | crates/aptu-coder-core/src/edit.rs:191-203 | the table lookup of an end offset equals the character map for every offset up to the end |
| TrimEnd.StartMapIncreasing | crates/aptu-coder-core/src/edit.rs:179-184 | the map from trimmed to normalized offsets is strictly increasing |
| TrimEnd.StartMapAgrees | crates/aptu-coder-core/src/edit.rs:179-184 | a visible character keeps its place under the map; a newline maps to the blank stretch before it |
| TrimEnd.SpanTrims | crates/aptu-coder-core/src/edit.rs:255-276 | a fallback span is non-empty and trims to the trimmed old text, plus one newline exactly when the match ends a line |
| TrimEnd.EndTakesRestOfLine | crates/aptu-coder-core/src/edit.rs:191-203 | a span that ends a line takes in all that is left of it, white space only, with its newline; any other span takes in nothing more |
| TrimEnd.OccursIffRegion | crates/aptu-coder-core/src/edit.rs:255-276 | the trimmed needle occurs in the trimmed file if and only if some region of the file trims to it |
| TrimEnd.EndVersusStart | crates/aptu-coder-core/src/edit.rs:191-203 | a mapped end passes a later mapped start if and only if the two matches touch at a line end |
| EditMatch.FindTrimEndMatches | crates/aptu-coder-core/src/edit.rs:255-276 | the program's fallback search returns the reference spans in original coordinates |
| EditMatch.FindMatches | crates/aptu-coder-core/src/edit.rs:360-378 | exact-first matching returns the reference spans in original coordinates on both paths |
| EditMatch.RepsSound | crates/aptu-coder-core/src/edit.rs:365-378 | every found region is non-empty, in bounds and reads as the old text up to trailing whitespace |
| EditMatch.ExactImpliesTrimmed | crates/aptu-coder-core/src/edit.rs:365-378 | the fallback is a true relaxation: where the text occurs exactly, its trimmed form occurs in the trimmed file and the fallback finds it |
| EditMatch.NotFoundIffAbsent | crates/aptu-coder-core/src/edit.rs:365-386 | nothing is found if and only if no region of the normalized file has the trimmed form of the old text (no exact occurrence when that form is empty) |
| EditMatch.RepsInOrderIff | crates/aptu-coder-core/src/edit.rs:255-276 | the spans of one edit are in order and disjoint if and only if the match was exact or the fallback spans do not overlap in the stated way |
| EditMatch.OverlapExample | crates/aptu-coder-core/src/edit.rs:255-276 | a concrete file and old text whose fallback spans overlap |
| EditMatch.ExactSpliceIsReplaceAll | crates/aptu-coder-core/src/edit.rs:365-373 | splicing at the exact matches is `str::replace` |
| Splice.SpliceLoop | crates/aptu-coder-core/src/edit.rs:413-419 | the single pass computes the splice exactly when the spans are in order, and aborts otherwise |
| Splice.SpliceBytes | crates/aptu-coder-core/src/edit.rs:403-420 | bytes are conserved and the removed bytes never exceed the bytes there were |
| Splice.OutsideUnchanged | crates/aptu-coder-core/src/edit.rs:400-419 | every character outside the spans survives at its shifted position |
| Splice.TextInserted | crates/aptu-coder-core/src/edit.rs:400-419 | every replacement text appears at the shifted start of its span |
| Splice.SpliceIsRightToLeft | crates/aptu-coder-core/src/edit.rs:588-599 | the single pass equals applying the replacements one at a time from right to left |
| Splice.SpliceVersusNormalize | crates/aptu-coder-core/src/edit.rs:400-419 | splicing then normalizing differs from splicing the normalized text by exactly the CRLF pairs formed at the joins |
| Splice.SpliceCommutesWithNormalize | crates/aptu-coder-core/src/edit.rs:400-419 | the two agree if and only if no join forms a CRLF; none does when the file has no lone CR and no replacement ends in CR |
| EditReplace.SpansMatch | crates/aptu-coder-core/src/edit.rs:360-378 | each span of the original file, once normalized, reads as the old text up to trailing whitespace |
| EditReplace.SpliceableIff | crates/aptu-coder-core/src/edit.rs:400-419 | the spans in original coordinates can be spliced under exactly the same condition |
| EditReplace.MatchLinesAgree | crates/aptu-coder-core/src/edit.rs:387-396 | the line numbers of an ambiguity report are the lines of the matches in the normalized text |
| EditReplace.StaleIff | crates/aptu-coder-core/src/edit.rs:333-348 | a call is refused as stale if and only if the file is readable and its hash is not the expected one |
| EditReplace.ChangeIsGuarded | crates/aptu-coder-core/src/edit.rs:326-433 | the file changes only on success, which needs a writable file with the expected hash; it is then the old text with every span replaced by the new text |
| EditReplace.SucceedsIff | crates/aptu-coder-core/src/edit.rs:326-433 | the exact condition of success, on the inputs |
| EditReplace.AmbiguousIff | crates/aptu-coder-core/src/edit.rs:387-396 | an edit is ambiguous if and only if several regions match and not all are to be replaced; the report gives their number and lines |
| EditReplace.OtherErrorsIff | crates/aptu-coder-core/src/edit.rs:326-355 | when a directory, an empty old text or an I/O error is reported |
| EditReplace.PanicsIff | crates/aptu-coder-core/src/edit.rs:400-419 | the single edit aborts if and only if several fallback matches with overlapping spans are to be replaced |
| EditReplace.OverlapPanics | crates/aptu-coder-core/src/edit.rs:400-419 | a concrete file and edit that abort |
| EditReplace.NotFoundIff | crates/aptu-coder-core/src/edit.rs:379-386 | not-found is reported if and only if the checks pass and the file holds no matching region |
| EditReplace.BytesConserved | crates/aptu-coder-core/src/edit.rs:400-431 | reported sizes account for every byte; without `replace_all` exactly one occurrence was replaced |
| EditReplace.CapacitySuffices | crates/aptu-coder-core/src/edit.rs:403-412 | the size subtraction never underflows when the splice can be done |
| EditReplace.ReplaceCommutesWithNormalize | crates/aptu-coder-core/src/edit.rs:352-419 | normalizing the edited file is editing the normalized file, for files without lone CR and new text without CR |
| EditReplace.ExactEditIsReplaceAll | crates/aptu-coder-core/src/edit.rs:352-419 | on the exact path the normalized result is `str::replace` on the normalized file |
| EditFile.TargetFile.EditReplaceBlock | crates/aptu-coder-core/src/edit.rs:326-433 | outcome and new file content are those specified; the file is untouched unless the edit succeeded |
| EditBatch.SweepExact | crates/aptu-coder-core/src/edit.rs:554-575 | the running-maximum pass flags a span if and only if it intersects an earlier one, hence none if and only if the spans are pairwise disjoint |
| EditFile.ValidateEdit | crates/aptu-coder-core/src/edit.rs:474-551 | one edit's failure class or spans |
| EditFile.CollectAll | crates/aptu-coder-core/src/edit.rs:471-551 | the collection loop gathers the spans of all valid edits and one failure per invalid edit |
| EditFile.SweepLoop | crates/aptu-coder-core/src/edit.rs:558-575 | the overlap loop computes the sweep |
| EditFile.SpliceBatch | crates/aptu-coder-core/src/edit.rs:582-593 | the batch splice yields the specified file and the number of replacements of each edit |
| EditFile.TargetFile.EditReplaceBatch | crates/aptu-coder-core/src/edit.rs:439-612 | outcome and new content are those specified; any failure leaves the file untouched; the total is the sum of the per-edit counts |
| EditBatchLaws.ValidIff | crates/aptu-coder-core/src/edit.rs:577-580 | a batch is accepted if and only if every edit is valid by itself and no two spans intersect |
| EditBatchLaws.VerdictIff | crates/aptu-coder-core/src/edit.rs:484-537 | which failure class a single edit of a batch gets, on the normalized texts |
| EditBatchLaws.BatchSucceedsIff | crates/aptu-coder-core/src/edit.rs:439-612 | the exact condition of success; otherwise an acceptable file gets the report of all failures |
| EditBatchLaws.BatchStaleIff | crates/aptu-coder-core/src/edit.rs:449-458 | a batch is refused as stale if and only if the file is readable and its hash is not the expected one |
| EditBatchLaws.BatchChangeIsGuarded | crates/aptu-coder-core/src/edit.rs:582-612 | the file changes only on success, under the expected hash; each edit's count is that of its own replacements; the returned hash makes the next guarded edit of the new file fresh and that of any other file stale |
| EditBatchLaws.BlamedIff | crates/aptu-coder-core/src/edit.rs:554-575 | an edit is blamed for an overlap if and only if one of its spans meets a span that sorts before it |
| EditBatchLaws.FailuresAccount | crates/aptu-coder-core/src/edit.rs:577-580 | the report holds exactly the invalid edits with their class and the spans meeting an earlier one, ordered by edit |
| EditBatchLaws.OrderIndependent | crates/aptu-coder-core/src/edit.rs:439-612 | reordering the edits changes neither acceptance nor the resulting file |
| EditBatchLaws.BatchIsRightToLeft | crates/aptu-coder-core/src/edit.rs:582-593 | the batch equals its replacements applied one at a time from right to left |
| EditBatchLaws.PerEditCountExact | crates/aptu-coder-core/src/edit.rs:585-591 | the count gathered for an edit is the number of its own replacements |
| EditBatchLaws.CountsAddUp | crates/aptu-coder-core/src/edit.rs:599-611 | per-edit counts add up to the number of replacements |
| EditBatchLaws.BatchBytesConserved | crates/aptu-coder-core/src/edit.rs:582-598 | reported batch sizes account for every byte |
| EditBatchLaws.OneEditBatchAgrees | crates/aptu-coder-core/src/edit.rs:439-612 | a batch of one edit writes and reports what the single edit does; each error of the single edit has its own counterpart, and where the single edit aborts the batch reports overlaps |
| DiskCache.PathsDistinct | crates/aptu-coder-core/src/cache_disk.rs:99-105 | distinct keys have distinct entry files, no lock file is an entry file, and keys share a lock exactly when their entries share a directory |
| DiskCache.PutThenGet | crates/aptu-coder-core/src/cache_disk.rs:109-184 | from any state in which nobody else holds the directory, a put without failures followed by a get without failures, by any process, returns the value put; a value that cannot be encoded is dropped |
| DiskCache.QuietGetReturnsLatest | crates/aptu-coder-core/src/cache_disk.rs:109-125 | in every reachable state a get without failures returns the value of the latest rename under its key, and nothing if and only if there was none |
| DiskCache.GetsAnswerOnce | crates/aptu-coder-core/src/cache_disk.rs:109-125 | every get that ends answers once under its key, with nothing when it failed |
| DiskCache.CallsCleanUp | crates/aptu-coder-core/src/file_lock.rs:52-83 | a process between calls holds no lock; a failed put leaves all entries alone and removes its temporary file |
| DiskCache.InvHolds | crates/aptu-coder-core/src/cache_disk.rs:99-184 | the protocol invariant holds in every state of every run, whatever fails or crashes |
| DiskCache.EntryAbsentOrComplete | crates/aptu-coder-core/src/cache_disk.rs:140-152 | an entry file is always absent or the complete encoding of a value put earlier under its tool and key |
| DiskCache.GetsReturnPutValues | crates/aptu-coder-core/src/cache_disk.rs:109-125 | every get returns nothing or a value put under the same tool and key |
| DiskCache.CompletedGetReturnsLatest | crates/aptu-coder-core/src/cache_disk.rs:109-125 | a get that reads to the end returns the value of the latest rename under its key |
| DiskCache.ExclusiveHolderIsAlone | crates/aptu-coder-core/src/file_lock.rs:52-83 | an exclusive holder of a lock file never coexists with another holder |
| DiskCache.EntryChangesOnlyByRename | crates/aptu-coder-core/src/cache_disk.rs:140-152 | an entry changes only when a put under the same key renames its file into place; other keys never disturb it |
| DiskCache.ReaderViewIsStable | crates/aptu-coder-core/src/cache_disk.rs:109-125 | while a reader reads, no step of any process changes its entry |
| LruCache.HitIsLastPut | crates/aptu-coder-core/src/cache.rs:319-362 | over any run a hit is the last value put under that key since its file was invalidated; size stays within capacity and keys stay distinct |
| LruCache.PoisonedNeverHits | crates/aptu-coder-core/src/cache.rs:160-176 | after poisoning no get ever hits |
| LruCache.PutHitsIffNotPoisoned | crates/aptu-coder-core/src/cache.rs:160-176 | a get right after a put returns the value put if and only if the mutex was never poisoned, and nothing otherwise |
| LruCache.LiveValueHits | crates/aptu-coder-core/src/cache.rs:319-362 | without poisoning, whatever is invalidated, a live value is found as long as fewer than `capacity` other keys were touched since its key was |
| LruCache.EntriesConserved | crates/aptu-coder-core/src/cache.rs:495-513 | without poisoning, puts of absent keys = resident + evicted + invalidated |
| LruCache.ResidentAreMostRecent | crates/aptu-coder-core/src/cache.rs:319-362 | without invalidation or poisoning the resident keys, most recent first, are the last `capacity` distinct keys touched |
| LruCache.RecentIsByLastTouch | crates/aptu-coder-core/src/cache.rs:319-362 | the recency list holds every touched key once, ordered by its last touch |
| LruCache.AnalysisCache.constructor | crates/aptu-coder-core/src/cache.rs:324-335 | a new cache is empty and its capacity is at least one |
| LruCache.AnalysisCache.LockOrRecover | crates/aptu-coder-core/src/cache.rs:160-176 | a poisoned mutex yields an emptied cache, a healthy one the cache as it is |
| LruCache.AnalysisCache.Get | crates/aptu-coder-core/src/cache.rs:477-489 | result and new state of a lookup: a hit moves to the front and no entry is lost; nothing when poisoned |
| LruCache.AnalysisCache.Put | crates/aptu-coder-core/src/cache.rs:495-513 | new state of an insertion: the value is in front, no other entry changes, and only another key's eviction is counted |
| LruCache.AnalysisCache.InvalidateFile | crates/aptu-coder-core/src/cache.rs:559-572 | gathering and popping the keys removes exactly the entries of the file |
| LruCache.PerformAll | crates/aptu-coder-core/src/cache.rs:477-572 | any sequence of calls on a new cache object leads to the state that the laws of runs speak about |
| Heredoc.ValidateClosers | crates/aptu-coder/src/heredoc_validation.rs:110-246 | the loop accepts exactly when the scan of the command succeeds |
| Heredoc.ScanHeredoc | crates/aptu-coder/src/heredoc_validation.rs:141-236 | the here-document branch finds the delimiter and resumes after the closing line, or fails |
| HeredocGrammar.AcceptedIffSplits | crates/aptu-coder/src/heredoc_validation.rs:110-246 | a command is accepted if and only if it splits into ordinary characters, quoted runs and here-documents with a non-empty delimiter, closed by the first line that is the delimiter, behind tabs for `<<-` |
| HeredocGrammar.SplitIsAccepted | crates/aptu-coder/src/heredoc_validation.rs:110-246 | scanning a split command finds exactly its here-documents and resumes after each closing line |
| HeredocGrammar.ClosesIff | crates/aptu-coder/src/heredoc_validation.rs:217-224 | the scanner's comparison of a line decides whether it is the delimiter, behind any number of tabs for `<<-` |
| HeredocGrammar.ScanOfPrint | crates/aptu-coder/src/heredoc_validation.rs:110-246 | scanning printed text, quoted runs and documents, with `<<` or `<<-` and any way of writing the delimiter, recovers every delimiter and every resume position |
| HeredocGrammar.UnclosedIsRejected | crates/aptu-coder/src/heredoc_validation.rs:229-238 | a command whose last document lacks its closing line is rejected |
| Traversal.Climb | crates/aptu-coder-core/src/traversal.rs:311-322 | a climb with early exit adds exactly the directories above its file |
| Traversal.AncestorDirs | crates/aptu-coder-core/src/traversal.rs:307-322 | in any visiting order the set is the root and all directories above changed files |
| Traversal.ClosureAtRoot | crates/aptu-coder-core/src/traversal.rs:307-322 | at or below the root: kept if and only if the root or a proper ancestor of a changed file; closed under parents |
| Traversal.FilterEntries | crates/aptu-coder-core/src/traversal.rs:294-335 | the kept entries are the changed files and the closure's directories, in order |
| Traversal.KeptExact | crates/aptu-coder-core/src/traversal.rs:324-335 | the filter picks, in order and once, exactly the changed files, the root and the directories above changed files |
| Traversal.SubtreeCounts | crates/aptu-coder-core/src/traversal.rs:342-367 | on sorted entries the last-group-only pass gives strictly increasing paths below the root with the exact naive counts and misses none |
| Traversal.CountsMeaning | crates/aptu-coder-core/src/traversal.rs:342-367 | each count is the number of files at or below its path without an excluded component, and every such file is counted |
| Anchors.MatchIffWord | crates/aptu-coder-core/src/anchors.rs:100-112 | an identifier matches if and only if it is one of the words of the line, so a substring of a longer word does not verify |
| Anchors.SameLinesIff | crates/aptu-coder-core/src/anchors.rs:54-57 | the server's and the scorer's lines of a text are the same if and only if its only line breaks are "\n" and "\r\n" |
| Anchors.JoinedSearchIsLineSearch | scripts/bench_v19/score.py:62-68 | for newline-free symbols, searching the joined window is searching its lines |
| Anchors.ResultMeaning | crates/aptu-coder-core/src/anchors.rs:71-116 | what each result field means in 1-based lines; the reported line is the first match within two lines |
| Anchors.ServerAgreesWithScorer | crates/aptu-coder-core/src/anchors.rs:71-116 | server and scorer agree on every anchor with a newline-free symbol, in every file with plain line breaks on whose characters the word classes agree |
| Anchors.ScoreAnchors | scripts/bench_v19/score.py:46-73 | verified counts the distinct verified citations; verified plus fabricated is the number of distinct citations |
| Anchors.VerifyGrouped | crates/aptu-coder-core/src/anchors.rs:71-116 | the check with the pattern cache equals the check of the anchor alone |
| Anchors.VerifyAnchors | crates/aptu-coder-core/src/anchors.rs:29-67 | one result per anchor in input order, equal to verifying it alone; each distinct path is read exactly once |
| CallersOracle.ValidSymbolIff | scripts/bench_v19/oracle.py:68-74 | which symbols are refused |
| CallersOracle.WithinIffReaches | scripts/bench_v19/oracle.py:127-161 | the level sets are exactly the files reached by call chains of bounded length through unambiguous symbols |
| CallersOracle.WithinGrows | scripts/bench_v19/oracle.py:127-161 | the answer grows with the depth |
| CallersOracle.Search | scripts/bench_v19/oracle.py:151-161 | frontier-only expansion computes the level set for every depth |
| CallersOracle.CallersOracleFrom | scripts/bench_v19/oracle.py:127-161 | for a permitted depth and symbol the result lists exactly the files reached within that many steps, each once and sorted |
| CallersOracle.BuildCallEdges | scripts/bench_v19/oracle.py:202-229 | the edges are exactly the calls whose callee is not ambiguous |
| CallersOracle.AmbiguousFailsClosed | scripts/bench_v19/oracle.py:202-229 | dropping ambiguous calls leaves an ambiguous symbol without callers and changes no other answer |
| CallersOracle.CallersOracleOf | scripts/bench_v19/oracle.py:246-279 | the second entry point answers as the first does on the raw calls, and with nothing for an ambiguous symbol |
| Wrapping.GreedyIsOptimal | crates/aptu-coder-core/src/formatter/emit.rs:42-76 | no order-preserving division into permitted lines uses fewer lines |
| Wrapping.WrappingIsOptimal | crates/aptu-coder-core/src/formatter/emit.rs:42-76 | all signatures once in order, lines of two or more within 100 bytes, fewest lines possible |
| Wrapping.PrintedTextIsOptimal | crates/aptu-coder-core/src/formatter/emit.rs:42-76 | the printed text, split at newlines, is exactly the lines of a division of all signatures in order, each line indented and joined by commas, none of several signatures over 100 bytes, and no permitted division has fewer lines |
| Wrapping.FitsIff | crates/aptu-coder-core/src/formatter/emit.rs:59 | a permitted line is one signature or at most 100 bytes as printed |
| Wrapping.SignatureReadsBack | crates/aptu-coder-core/src/types.rs:313-339 | line range, name, parameters and return type can be read back from a signature |
| Wrapping.MarkerReadsBack | crates/aptu-coder-core/src/formatter/emit.rs:49-55 | a marker ends with a bullet and the call count if and only if the function is called more than three times |
| Wrapping.ShownParametersFit | crates/aptu-coder-core/src/types.rs:304-329 | the parameters shown never exceed 80 bytes, are cut only when the full list does, and then after as many characters as fit into 77 bytes |
| Wrapping.FormatWrapped | crates/aptu-coder-core/src/formatter/emit.rs:42-76 | the loop prints the greedy division of the annotated signatures |
| Pagination.PageExact | crates/aptu-coder-core/src/pagination.rs:93-133 | one page for any offset, past the end or not: its items, total and next cursor |
| Pagination.WalkFrom | crates/aptu-coder-core/src/pagination.rs:93-133 | from any offset the cursor walk delivers the remaining items once and in order, in the rounded-up number of pages, with the mode preserved and every cursor pointing just past what was read |
| Pagination.WalkReadsEverything | crates/aptu-coder-core/src/pagination.rs:93-133 | following the cursors from the start reads the whole list exactly once |

## Left out

- Tree-sitter parsing, query extraction, the call graph and structural graph: foreign grammars and engines.
- First phase of `validate_heredocs` and `shell_scan.rs`: pattern heuristics with documented misses.
- Byte offsets: positions are character positions, so the UTF-8 boundary checks of Rust slices are not modelled; reported sizes are in bytes.
- Fixed-width integers: `usize` saturation in capacity and page arithmetic has no effect below the address-space size and is not modelled.
- Error texts, the 20-line preview of a not-found error, the line numbers inside batch messages and response paths.
- Cache keys: the blake3 key streams join variable-length fields without separators, so nothing is claimed about collisions; keys are given.
- Disk cache: loss of data on power failure, the disabled mode, file permissions and the failure counters.
- The directory cache and the wrappers around `AnalysisLruCache`: the same list operations under other key types.
- Anchors.ServerAgreesWithScorer: takes the text of the file as given and the word classes as equal on it; what each side does with invalid UTF-8 or a path outside the root, and the two `\b` tables, are not compared.
- Definition index and call nodes of the callers oracle: found by tree-sitter, hence parameters.
- `edit_overwrite`, filters, formatting of other outputs, server wiring, metrics and benchmark drivers: easy members or I/O.
