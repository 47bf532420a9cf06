# Subtitle re-segmentation core, in Dafny

This project models two parts of a subtitle pipeline.

- **The re-segmentation engine** (`subtitle_processor/spliter.py`). It takes timed fragments from speech recognition: words or short phrases, each with a start and an end time in milliseconds. It then does the following:
  - counts their length with a multi-script word metric;
  - drops pure-punctuation fragments;
  - cuts the transcript into chunks of about equal word count, preferring sentence ends and long pauses;
  - lines up the sentences of a text with windows of fragments by a similarity ratio;
  - groups fragments by pauses;
  - splits over-long runs at their widest pause;
  - finally merges segments that are too short.
- **The subtitle container and SRT codec** (`bk_asr/ASRData.py`). The container filters out blank segments and sorts by start time. It also covers:
  - the word-timestamp detector;
  - the plain-text, SRT and JSON exports;
  - the two in-place merges;
  - the SRT reader, including its bilingual-block detection.

Segments are the datatype `Segments.Seg(text, startTime, endTime)`, with times as unbounded integers. The loops of the source are methods. Each method is proved equal to a specification function, and the properties the source promises are proved about those functions as lemmas. `ASRData` is a class whose `segments` field the two merges change in place.

The modules, in the order of the pipeline:

| file | module | source |
|---|---|---|
| strings.dfy | `Strings` | Python `str` builtins: `isspace`, `strip`, `split()`, `join`, ASCII `lower`, `splitlines`, decimal numbers |
| segments.dfy | `Segments` | the segment record, floor division, flattening, filtering, stable sort by start time |
| word_counter.dfy | `WordCounter` | `count_words`, `preprocess_text`, `is_pure_punctuation`, `preprocess_segments` |
| time_gap_grouper.dfy | `TimeGapGrouper` | `merge_by_time_gaps` |
| window_search.dfy | `WindowSearch` | the window search inside `merge_segments_based_on_sentences` |
| sentence_aligner.dfy | `SentenceAligner` | the walk over sentences of `merge_segments_based_on_sentences` |
| long_segment_splitter.dfy | `LongSegmentSplitter` | `split_long_segment` |
| chunk_splitter.dfy | `ChunkSplitter` | `split_asr_data`, `determine_num_segments` |
| short_segment_merger.dfy | `ShortSegmentMerger` | `merge_short_segment` and the sort-and-merge tail of `merge_segments` |
| srt_time.dfy | `SrtTime` | `_ms_to_srt_time`, `to_srt_ts`, the time pattern of `from_srt` |
| srt_codec.dfy | `SrtCodec` | `to_srt` and the block parser of `from_srt` |
| asr_data.dfy | `AsrTranscript` | the `ASRData` class |

## Model

| member | source | states |
|---|---|---|
| WordCounter.CountWords | subtitle_processor/spliter.py:29-71 | The pattern loop returns one unit per character in any listed script block, plus the whitespace-separated tokens left once those characters are blanked out |
| WordCounter.CountStep | subtitle_processor/spliter.py:61-66 | One pattern step counts exactly the characters of its block that earlier patterns did not already replace |
| WordCounter.ReplaceStep | subtitle_processor/spliter.py:66 | Replacing one more block by spaces gives the text with all blocks so far blanked out |
| WordCounter.SpaceIsNotScript | subtitle_processor/spliter.py:44-55 | No whitespace character lies in a script block, so the blanking never merges two tokens |
| WordCounter.WordCountBlank | subtitle_processor/spliter.py:69-71 | Empty or whitespace-only text counts 0 |
| WordCounter.WordCountAllScript | subtitle_processor/spliter.py:57-64 | k characters drawn only from the listed blocks count k |
| WordCounter.WordCountNoScript | subtitle_processor/spliter.py:69 | Text with no script character counts its whitespace-separated tokens |
| WordCounter.WordCountJoinSpace | subtitle_processor/spliter.py:69-71 | Joining two texts with a space adds their counts |
| WordCounter.NormalizeText | subtitle_processor/spliter.py:74-78 | The normalised text has the tokens of the lower-cased text |
| WordCounter.NormalizeIdempotent | subtitle_processor/spliter.py:74-78 | Normalising twice is normalising once |
| WordCounter.PreprocessSegments | subtitle_processor/spliter.py:414-431 | Keeps, in order, exactly the segments whose text is not pure punctuation |
| TimeGapGrouper.MergeByTimeGaps | subtitle_processor/spliter.py:434-471 | Empty input gives no groups. The groups concatenate to the input, and no pause inside a group exceeds max_gap. In the default mode the result is the reference grouping by pauses |
| TimeGapGrouper.GroupByGapsSpec | subtitle_processor/spliter.py:438-469 | The reference grouping covers the input in order and has no empty group. Pauses inside a group are at most max_gap, and every boundary pause exceeds it |
| TimeGapGrouper.GroupingUnique | subtitle_processor/spliter.py:438-469 | Two groupings by pauses of the same run are equal, so the default mode's result is fully determined by this property |
| TimeGapGrouper.GroupQuiet | subtitle_processor/spliter.py:461-466 | A run with no pause over max_gap stays one group |
| TimeGapGrouper.AddSegmentGrouping | subtitle_processor/spliter.py:461-466 | Opening a group exactly at a long pause keeps a grouping by pauses |
| TimeGapGrouper.DefaultModeStep | subtitle_processor/spliter.py:446-466 | A default-mode step turns the grouping of the first i segments into the grouping of the first i+1 |
| TimeGapGrouper.RecordGap | subtitle_processor/spliter.py:449-459 | Keeps the last five pauses. It closes the group when the pause is more than three times their mean and the group holds more than five segments, and closing forgets the pauses |
| TimeGapGrouper.Advance | subtitle_processor/spliter.py:456-466 | One step keeps the coverage and the pause bound. Without the adaptive close, a long pause starts a new group and a short one extends the open group |
| TimeGapGrouper.GroupRun | subtitle_processor/spliter.py:441-466 | At the end of the loop, the closed groups plus the open one are what the loop invariant describes |
| WindowSearch.WindowSizesSpec | subtitle_processor/spliter.py:115-117 | The sizes tried are exactly min..max, each once. They come in increasing distance from the word count, with the smaller of two equally distant sizes first |
| WindowSearch.SortSizesSpec | subtitle_processor/spliter.py:117 | The stable sort by distance is ordered and a permutation |
| WindowSearch.Candidates | subtitle_processor/spliter.py:119-121 | Every window tried has one of the sizes and starts between the cursor and max_start |
| WindowSearch.PickBest | subtitle_processor/spliter.py:126-129 | The strict `>` scan from 0.0 keeps the first of the highest scores when that score is positive, and nothing otherwise |
| WindowSearch.PickSaturated | subtitle_processor/spliter.py:130-133 | After a perfect score, the rest of the scan changes nothing, so the early breaks are harmless |
| WindowSearch.ScanOfTracks | subtitle_processor/spliter.py:119-133 | The scan state (found, best_pos, best_window_size, best_ratio) is the first-maximum pick of the scores |
| WindowSearch.FinishScan | subtitle_processor/spliter.py:130-133 | Leaving at a perfect score, or after the last candidate, gives the scan of all candidates |
| WindowSearch.TryWindow | subtitle_processor/spliter.py:122-129 | Scores one window and keeps it only when it beats the best so far |
| WindowSearch.ScanRow | subtitle_processor/spliter.py:120-131 | The inner loop tries a prefix of its row, all of it unless it reaches a perfect score, and tracks the scan |
| WindowSearch.ScanRows | subtitle_processor/spliter.py:119-133 | The nested loops try a prefix of the candidates, all of them unless they reach a perfect score, and track the scan |
| WindowSearch.BestWindow | subtitle_processor/spliter.py:110-133 | The search for one sentence returns the first best window of all candidates and its ratio |
| SentenceAligner.SizesForBounds | subtitle_processor/spliter.py:115-116 | Every size tried lies between max(1, wc//2) and min(2*wc, len-cursor) |
| SentenceAligner.CandidatesForInBounds | subtitle_processor/spliter.py:119-122 | Every window tried lies inside the fragments |
| SentenceAligner.ChosenAccepted | subtitle_processor/spliter.py:115-135 | A candidate scoring at least 0.5 has every property of an accepted window: in range, at or after the cursor and at most max_shift beyond it, size within the bounds, ratio at least 0.5 |
| SentenceAligner.Choose | subtitle_processor/spliter.py:135 | A window the search takes is an accepted window |
| SentenceAligner.ChooseSpec | subtitle_processor/spliter.py:110-135 | A sentence is missed exactly when every candidate scores below 0.5. Otherwise the window taken is the first of the highest scores |
| SentenceAligner.Spans | subtitle_processor/spliter.py:144-153 | One segment per group |
| SentenceAligner.SpansShape | subtitle_processor/spliter.py:142-153 | Each span carries the sentence and runs from a quiet sub-run's first start to its last end |
| SentenceAligner.EmitShape | subtitle_processor/spliter.py:139-153 | A hit emits at least one segment. Each carries the sentence and spans a quiet sub-run of the window, and together they start at the window's first fragment and end at its last |
| SentenceAligner.SearcherSound | subtitle_processor/spliter.py:119-121 | The search only takes windows inside the fragments that start at or after the cursor |
| SentenceAligner.Next | subtitle_processor/spliter.py:105-164 | One sentence keeps the cursor within the fragments |
| SentenceAligner.RunOnTrace | subtitle_processor/spliter.py:105-164 | Attempt k searches sentence k. The first attempt is at fragment 0 with shift 30, and each one starts where the previous left the cursor |
| SentenceAligner.RunOnMisses | subtitle_processor/spliter.py:157-162 | The miss counter counts misses. The walk gives up exactly when that count exceeds max_unmatched, and at the first miss that does |
| SentenceAligner.RunOnOut | subtitle_processor/spliter.py:135-156 | new_segments is what the hits emit, in order |
| SentenceAligner.EmittedEmpty | subtitle_processor/spliter.py:166-169 | Nothing is emitted exactly when every attempt missed |
| SentenceAligner.EmittedFrom | subtitle_processor/spliter.py:139-153 | Each emitted segment comes from the window of one hit |
| SentenceAligner.CursorFloor | subtitle_processor/spliter.py:155-164 | Short of the last fragment, the cursor never falls back behind where an earlier attempt left it |
| SentenceAligner.AlignedResult | subtitle_processor/spliter.py:158-171 | The input comes back unchanged after giving up or when nothing matched. Otherwise the result is the emitted segments, and there is at least one |
| SentenceAligner.WalkSpec | subtitle_processor/spliter.py:98-164 | The whole cursor discipline. A hit moves past the window with shift 30; a miss moves to min(cursor+1, len-1) with shift 100. The walk gives up at the first miss over the bound, and otherwise every sentence is searched |
| SentenceAligner.EmittedSegment | subtitle_processor/spliter.py:115-150 | Every emitted segment carries, verbatim, a sentence whose search accepted a window. It spans the first start to the last end of a quiet sub-run of that window |
| SentenceAligner.WindowsOrdered | subtitle_processor/spliter.py:155-164 | Accepted windows come in order and do not overlap. The one exception: once the walk has reached the end, the last fragment may be taken again |
| SentenceAligner.AbortSticks | subtitle_processor/spliter.py:160-162 | Once the walk has given up, later sentences do not undo that |
| SentenceAligner.Search | subtitle_processor/spliter.py:110-135 | The search loops for one sentence compute the chooser's outcome |
| SentenceAligner.SpanGroups | subtitle_processor/spliter.py:144-153 | The inner loop builds one segment per group |
| SentenceAligner.EmitGroups | subtitle_processor/spliter.py:139-153 | A hit groups the window by pauses and spans each group |
| SentenceAligner.MergeBySentences | subtitle_processor/spliter.py:81-171 | The aligner returns the walk's result, with the similarity ratio as a parameter |
| LongSegmentSplitter.WidestGap | subtitle_processor/spliter.py:214-218 | max over the middle range keyed by the gap: the first index of the widest pause |
| LongSegmentSplitter.MiddleThirds | subtitle_processor/spliter.py:212-213 | For n of at least 2, n//6 < 5n//6 <= n-1, so the middle range is non-empty |
| LongSegmentSplitter.MiddleAsWritten | subtitle_processor/spliter.py:203-218 | The split point before the snap is a valid index. For three or more fragments it is not the last one |
| LongSegmentSplitter.Middle | subtitle_processor/spliter.py:203-218 | The corrected split point before the snap is never the last fragment |
| LongSegmentSplitter.SnapBack | subtitle_processor/spliter.py:222-228 | The backward search returns the nearest fragment at or before i with a sentence mark, or the fallback when there is none |
| LongSegmentSplitter.SplitPointAsWritten | subtitle_processor/spliter.py:203-228 | The split index is valid. For three or more fragments both halves are non-empty |
| LongSegmentSplitter.SplitPoint | subtitle_processor/spliter.py:203-228 | The corrected split always leaves both halves non-empty |
| LongSegmentSplitter.CutsKeep | subtitle_processor/spliter.py:207-231 | The corrected cut keeps both halves. The written cut keeps the first half, and agrees with the corrected one wherever it keeps the second |
| LongSegmentSplitter.SplitRunsPartition | subtitle_processor/spliter.py:181-235 | For any fit test and any cut that keeps both halves, the runs cut the input into contiguous pieces in order, each non-empty and fitting or a single fragment |
| LongSegmentSplitter.SplitLong | subtitle_processor/spliter.py:181-182 | Empty input gives no segments |
| LongSegmentSplitter.SplitLongSpec | subtitle_processor/spliter.py:181-235 | The outputs correspond, in order, to a partition of the input into contiguous runs that fit the budget or are one fragment. Each output is its run's stripped texts space-joined and stripped, from the run's first start to its last end |
| LongSegmentSplitter.SplitLongWithin | subtitle_processor/spliter.py:192-200 | A run within the budget, or a single fragment, gives exactly that one segment |
| LongSegmentSplitter.SplitPointsAgree | subtitle_processor/spliter.py:207-228 | The written and corrected split points differ only where the written one leaves the second half empty |
| LongSegmentSplitter.AgreesWhenSplit | subtitle_processor/spliter.py:230-235 | When the written recursion returns, its runs are those of the corrected split |
| LongSegmentSplitter.AsWrittenAgrees | subtitle_processor/spliter.py:174-237 | Whenever split_long_segment as written returns, it returns the corrected split |
| LongSegmentSplitter.AsWrittenDiverges | subtitle_processor/spliter.py:207-235 | Two over-budget fragments, unless only the first has a sentence mark, recurse forever: no depth suffices |
| LongSegmentSplitter.RepeatsForever | subtitle_processor/spliter.py:230-235 | A run that a cut splits into itself and nothing never returns |
| LongSegmentSplitter.SnapToStop | subtitle_processor/spliter.py:225-228 | The backward loop computes the snap |
| LongSegmentSplitter.SplitLongStep | subtitle_processor/spliter.py:230-235 | An over-budget run splits into the splits of its two halves |
| LongSegmentSplitter.FindSplit | subtitle_processor/spliter.py:203-228 | The split-point computation equals the corrected split point |
| LongSegmentSplitter.SplitLongSegment | subtitle_processor/spliter.py:174-237 | The recursive method returns the corrected split |
| ChunkSplitter.PrefixSumsSpec | subtitle_processor/spliter.py:252-255 | cumulative_words starts at 0, and each total is the previous plus that fragment's count |
| ChunkSplitter.PrefixSumsMonotone | subtitle_processor/spliter.py:252-255 | The running totals never decrease |
| ChunkSplitter.ReachIndexSpec | subtitle_processor/spliter.py:268-273 | The anchor is the first fragment whose running total reaches the target, or 0 when none does |
| ChunkSplitter.ScanFindsPerfect | subtitle_processor/spliter.py:325-328 | With a perfect candidate in the window, the candidate loop stops at the first one |
| ChunkSplitter.ScanFindsBest | subtitle_processor/spliter.py:284-323 | Without a perfect candidate, the loop ends on the first of the highest scores when that beats the incoming best, and keeps the incoming best otherwise |
| ChunkSplitter.ScanInWindow | subtitle_processor/spliter.py:284-287 | The loop only picks a candidate of the window not chosen before, or keeps the incoming index |
| ChunkSplitter.BackFromNearest | subtitle_processor/spliter.py:337-341 | The backward search stops at the nearest passing fragment, and falls back only when none passes |
| ChunkSplitter.SettleSpec | subtitle_processor/spliter.py:331-341 | A pick ending on a bad word gives way to the nearest earlier fragment that ends a sentence and not on a bad word, if there is one. Otherwise the pick stands |
| ChunkSplitter.PerfectEndsWell | subtitle_processor/spliter.py:326 | A perfect cut never ends on a bad word, so the backward search leaves it |
| ChunkSplitter.ChooseCutPerfect | subtitle_processor/spliter.py:284-341 | When the window holds a perfect cut not chosen before, the first such is the cut |
| ChunkSplitter.PickBest | subtitle_processor/spliter.py:280-323 | Without a perfect cut, the loop settles on the first open cut of highest score if it beats -1, and otherwise on the anchor |
| ChunkSplitter.CutsUpTo | subtitle_processor/spliter.py:264-343 | One cut per target, each a fragment index |
| ChunkSplitter.InsertUniqueSpec | subtitle_processor/spliter.py:346 | Inserting into a strictly increasing list keeps it strictly increasing and adds exactly the element |
| ChunkSplitter.SortedUnique | subtitle_processor/spliter.py:346 | sorted(set(xs)) is strictly increasing with the same elements |
| ChunkSplitter.UniqueNoLonger | subtitle_processor/spliter.py:346 | Deduplication never lengthens the list of cuts |
| ChunkSplitter.PiecesCover | subtitle_processor/spliter.py:349-359 | The chunks are non-empty and concatenate to the fragments from prev on. There is one per cut, plus one exactly when fragments remain |
| ChunkSplitter.PiecesEnds | subtitle_processor/spliter.py:349-354 | The k-th chunk ends with the fragment of the k-th cut |
| ChunkSplitter.CutPoints | subtitle_processor/spliter.py:264-346 | The final cuts are strictly increasing fragment indices, the set of the cuts chosen for the targets |
| ChunkSplitter.SplitChunksSpec | subtitle_processor/spliter.py:244-361 | The function fails only for zero chunks, and gives the whole for one chunk or too few fragments. Otherwise it gives at most num non-empty chunks that concatenate to the input, the k-th ending at the k-th cut |
| ChunkSplitter.CumulativeCounts | subtitle_processor/spliter.py:252-255 | The accumulation loop computes the running totals |
| ChunkSplitter.BuildProfile | subtitle_processor/spliter.py:252-310 | Computes each fragment's key, the pause after it and the running totals |
| ChunkSplitter.FindAnchor | subtitle_processor/spliter.py:269-273 | The anchor loop computes the first fragment that reaches the target |
| ChunkSplitter.FindSentenceMark | subtitle_processor/spliter.py:292-298 | The marker loop decides whether a sentence mark occurs |
| ChunkSplitter.FindBadEnding | subtitle_processor/spliter.py:300-305 | The bad-word loop decides whether the text ends on a bad word, bare or followed by a space |
| ChunkSplitter.Rate | subtitle_processor/spliter.py:288-326 | The loop body computes the score in thousandths and the perfect test |
| ChunkSplitter.ScanWindow | subtitle_processor/spliter.py:284-328 | The candidate loop computes the scan |
| ChunkSplitter.SnapBackward | subtitle_processor/spliter.py:335-341 | The backward loop computes the backward search |
| ChunkSplitter.ChooseCutPoint | subtitle_processor/spliter.py:265-343 | One pass of the outer loop computes the cut for its target |
| ChunkSplitter.SliceAt | subtitle_processor/spliter.py:349-359 | The slicing loop computes the chunks |
| ChunkSplitter.SliceStep | subtitle_processor/spliter.py:351-354 | Each pass takes one chunk off the front |
| ChunkSplitter.ChooseCuts | subtitle_processor/spliter.py:264-343 | The outer loop computes the cuts for targets 1..num-1 |
| ChunkSplitter.SplitAsrData | subtitle_processor/spliter.py:240-361 | split_asr_data returns the chunks of SplitChunks |
| ChunkSplitter.NumSegmentsSpec | subtitle_processor/spliter.py:403-411 | Fails exactly for a zero threshold. Otherwise there is at least one chunk, and a positive count gets the fewest chunks of threshold words that hold it |
| ChunkSplitter.CeilingBounds | subtitle_processor/spliter.py:407-410 | Rounding the quotient up gives r with (r-1)*t < w <= r*t |
| ShortSegmentMerger.Greedy | subtitle_processor/spliter.py:372-400 | The pass never lengthens the list and always leaves at least one segment |
| ShortSegmentMerger.AbsorbRun | subtitle_processor/spliter.py:393-394 | Absorbing the next segment into a merged run gives the merge of the longer run, and the word counts add |
| ShortSegmentMerger.GreedyRunsSpec | subtitle_processor/spliter.py:372-400 | The pass from a merged run corresponds to runs covering the run and the rest |
| ShortSegmentMerger.MergeShortRuns | subtitle_processor/spliter.py:364-400 | The result corresponds, in order, to a partition of the input into contiguous runs, so the list never grows. Each output is its run's texts space-joined, from the first start to the last end |
| ShortSegmentMerger.GreedyHead | subtitle_processor/spliter.py:393-394 | The current segment keeps its start, and its word count only grows |
| ShortSegmentMerger.RefusalSticks | subtitle_processor/spliter.py:387-389 | A refused pair stays refused when the second segment grows by merges |
| ShortSegmentMerger.MergeShortStable | subtitle_processor/spliter.py:372-400 | When the pass ends, no two neighbours pass the merge test |
| ShortSegmentMerger.MergeShortSorted | subtitle_processor/spliter.py:393-394 | Merging keeps a start-sorted list sorted |
| ShortSegmentMerger.MergeAt | subtitle_processor/spliter.py:393-397 | One merge shortens the list by one |
| ShortSegmentMerger.MergeStep | subtitle_processor/spliter.py:387-398 | Merging at the cursor leaves the rest of the pass unchanged |
| ShortSegmentMerger.RefuseStep | subtitle_processor/spliter.py:399-400 | Refusing at the cursor leaves the rest of the pass unchanged |
| ShortSegmentMerger.Mergeable | subtitle_processor/spliter.py:380-389 | Computes the merge test |
| ShortSegmentMerger.MergeOrAdvance | subtitle_processor/spliter.py:387-400 | One loop pass keeps the pass's outcome and makes progress |
| ShortSegmentMerger.MergeShortSegments | subtitle_processor/spliter.py:364-400 | The loop leaves the list holding its greedy merge (returned as `out`, since the source mutates in place and returns `None`) |
| ShortSegmentMerger.LastStands | subtitle_processor/spliter.py:372 | At the last segment the pass has nothing left to do |
| ShortSegmentMerger.FinishSegments | subtitle_processor/spliter.py:545-573 | Flattens the parts, sorts by start time, then merges short segments |
| ShortSegmentMerger.FinishSorted | subtitle_processor/spliter.py:549-573 | The final segment list is sorted by start time |
| SrtTime.ToClock | bk_asr/ASRData.py:15-20 | The floor divmod steps give minutes and seconds in [0,60) and milliseconds in [0,1000), reading back as the time |
| SrtTime.ToClockHours | bk_asr/ASRData.py:18-21 | Below 100 hours the hours fit two digits |
| SrtTime.FormatTimeLength | bk_asr/ASRData.py:21 | Below 100 hours a stamp is twelve characters |
| SrtTime.ParseStamp | bk_asr/ASRData.py:176 | A stamp read consumes characters within the line |
| SrtTime.ParseFormatTime | bk_asr/ASRData.py:196-202 | Reading a formatted stamp as h*3600000 + m*60000 + s*1000 + mmm gives back the time |
| SrtTime.ParseTimeRange | bk_asr/ASRData.py:192-208 | The time line written by to_srt_ts matches the pattern and reads back as the start and end |
| SrtCodec.Entries | bk_asr/ASRData.py:84-86 | One entry per segment |
| SrtCodec.SrtText | bk_asr/ASRData.py:82-92 | The to_srt loop gives the numbered entries joined by line breaks |
| SrtCodec.SepEnd | bk_asr/ASRData.py:178 | Where a separator match starts, it spans at least two characters |
| SrtCodec.FirstSep | bk_asr/ASRData.py:178 | Gives a position where the separator matches, or the end of the text |
| SrtCodec.FirstSepAt | bk_asr/ASRData.py:178 | The split cuts at the leftmost match: the first position from i on where the separator matches |
| SrtCodec.FirstSepNone | bk_asr/ASRData.py:178 | With no match from i on, the rest of the text is one block |
| SrtCodec.SplitBlocks | bk_asr/ASRData.py:178 | re.split always gives at least one block |
| SrtCodec.SplitCons | bk_asr/ASRData.py:178 | A clean block followed by a blank line splits off whole |
| SrtCodec.SplitJoin | bk_asr/ASRData.py:178 | Clean blocks joined by blank lines split back into the same blocks |
| SrtCodec.ReadBlock | bk_asr/ASRData.py:188-215 | One pass of the block loop parses the block: skipped with fewer than three lines or no time line, otherwise text joined by "\n" and stripped for bilingual input, or joined by " " |
| SrtCodec.ReadBlocks | bk_asr/ASRData.py:187-215 | The block loop collects, in order, the segments of the blocks that parse |
| SrtCodec.ReadSrt | bk_asr/ASRData.py:167-215 | from_srt strips and splits the text, decides the layout (all blocks of at most four lines and 10*count4 > 9*len), and reads each block |
| SrtCodec.JoinNewlines | bk_asr/ASRData.py:86-88 | Entries each ending in a line break, joined by line breaks, are the entries joined by blank lines plus one line break |
| SrtCodec.StripTrailingBreak | bk_asr/ASRData.py:178 | strip() drops the final line break of an SRT text |
| SrtCodec.EntryShape | bk_asr/ASRData.py:86 | An entry of a ready segment has exactly the number, time and text lines, and no separator inside |
| SrtCodec.ParseEntry | bk_asr/ASRData.py:187-215 | An entry of a ready segment reads back as that segment |
| SrtCodec.NoFourLines | bk_asr/ASRData.py:181-185 | None of to_srt's three-line entries has four lines, so its output is not read as bilingual |
| SrtCodec.RoundTripOf | bk_asr/ASRData.py:178-215 | Any clean three-line blocks that each parse to their segment, written as to_srt writes them, read back as those segments |
| SrtCodec.SrtRoundTrip | bk_asr/ASRData.py:82-215 | Reading back the SRT text of segments with non-blank, trimmed, one-line texts and times below 100 hours gives the same segments |
| SrtCodec.EmptyRoundTrip | bk_asr/ASRData.py:178-189 | The empty transcript reads back as empty |
| AsrTranscript.CleanedSpec | bk_asr/ASRData.py:33-37 | The constructor keeps exactly the non-blank segments, as often as they occur, in start-time order, and equal start times keep their input order |
| AsrTranscript.CleanedIdentity | bk_asr/ASRData.py:33-37 | Sorted, non-blank segments come through unchanged |
| AsrTranscript.WordTimestampedAll | bk_asr/ASRData.py:57-68 | A non-empty transcript of word-like segments has word timestamps |
| AsrTranscript.WordTimestampedCount | bk_asr/ASRData.py:57-68 | False for no segments. Otherwise true exactly when 5 times the number of word-like positions is at least 4 times the total |
| AsrTranscript.FilterSize | bk_asr/ASRData.py:63-67 | The counter of word-like segments equals the number of positions passing the test |
| AsrTranscript.SplitSubtitleSpec | bk_asr/ASRData.py:98-101 | original is the text up to the first line feed and translated the rest, or "" when there is no line feed, and they give the text back |
| AsrTranscript.JsonSpec | bk_asr/ASRData.py:94-109 | One item per segment, keyed "1".."n" in order with distinct keys, the times copied and the text split at its first line feed |
| AsrTranscript.TxtLines | bk_asr/ASRData.py:78-80 | The plain text has one line per segment when each text is one non-empty line |
| AsrTranscript.MergeRange | bk_asr/ASRData.py:111-121 | IndexError exactly unless 0 <= s <= e < len. Otherwise the length drops by e-s, and everything before s and after e is kept |
| AsrTranscript.MergeRangeSpan | bk_asr/ASRData.py:115-119 | The merged segment spans segments[s].start to segments[e].end, with the given text or the texts concatenated |
| AsrTranscript.MergeRangeKeepsText | bk_asr/ASRData.py:117-121 | With the default text the concatenation of all texts is unchanged |
| AsrTranscript.MergeRangeSorted | bk_asr/ASRData.py:111-121 | A range merge keeps a start-sorted list sorted |
| AsrTranscript.MergeNext | bk_asr/ASRData.py:123-133 | IndexError exactly unless 0 <= i < len-1. Otherwise the length drops by one, position i has text "a b" from a's start to b's end, and the rest is kept |
| AsrTranscript.MergeNextIsRange | bk_asr/ASRData.py:123-133 | Merging with the next segment is the range merge of the pair with the texts space-joined |
| AsrTranscript.MergeNextWords | bk_asr/ASRData.py:129 | The merged text has the words of both texts, in order |
| AsrTranscript.MergeNextSorted | bk_asr/ASRData.py:123-133 | A neighbour merge keeps a start-sorted list sorted |
| AsrTranscript.FromSrtOfToSrt | bk_asr/ASRData.py:82-217 | from_srt(to_srt()) gives back a sorted transcript whose texts are non-blank, trimmed and one line and whose times are below 100 hours |
| AsrTranscript.AsrData.constructor | bk_asr/ASRData.py:33-37 | The field holds the cleaned segments, which are sorted |
| AsrTranscript.AsrData.FromSrt | bk_asr/ASRData.py:167-217 | A new container of the cleaned parsed segments |
| AsrTranscript.AsrData.IsWordTimestamp | bk_asr/ASRData.py:49-68 | The loop decides the word-timestamp test |
| AsrTranscript.AsrData.ToSrt | bk_asr/ASRData.py:82-92 | Returns the SRT text of the segments |
| AsrTranscript.AsrData.ToJson | bk_asr/ASRData.py:94-109 | Returns the JSON items of the segments |
| AsrTranscript.AsrData.MergeSegments | bk_asr/ASRData.py:111-121 | Succeeds exactly for valid indices. The new list is the range merge of the old one, nothing changes on error, and the order holds |
| AsrTranscript.AsrData.MergeWithNextSegment | bk_asr/ASRData.py:123-133 | Succeeds exactly for valid indices. The new list is the neighbour merge of the old one, nothing changes on error, and the order holds |

## Left out

- The similarity ratio (`difflib.SequenceMatcher.ratio`) is a function parameter, required to lie in [0, 1]. Nothing else is assumed of it.
- `\w` is approximated as ASCII letters, digits and `_`, the Latin-1 and Latin Extended letters, and the script blocks of the word counter. Full Unicode letter classes are not modelled.
- `str.lower` lower-cases ASCII letters only. `\d` matches ASCII digits only.
- `isspace`, `split()`, `strip()` and `splitlines()` use Python's whitespace and line-break characters, written out as fixed sets. `\r\n` is one line boundary, as in Python.
- `process_by_llm`, `split_by_llm` and the thread pool of `merge_segments` are left out: they are concurrency and a network call. The tail of `merge_segments` after the parallel map is modelled by `FinishSegments`, and the front (preprocess, count, chunk) by the modules above.
- `get_default_config()` reads the environment, and the `max_word_count_english` it returns is not a field of the configuration class. The word budget is a parameter instead, and so is `max_unmatched`.
- File and process I/O is left out: `save`, `from_subtitle_file` and the file write of `to_srt`. `to_srt` is modelled as returning the text.
- Logging is left out, and so is the `save_split` reporting block of `merge_segments`, which only logs.
- Floating point is made exact.
  - chunk scores are integers in thousandths of a point;
  - the 80 % test of `is_word_timestamp` is `5 * valid >= 4 * total`;
  - the 90 % test of `from_srt` is `10 * count4 > 9 * len`;
  - the adaptive gap test is `5 * gap > 3 * sum` over five integer pauses;
  - the "all gaps equal" test of `split_long_segment` is equality of integer pauses.
- `next_text` in `split_asr_data` is computed but never used, so it is not modelled.
- `strip().lower()` of each fragment is computed once per fragment rather than once per use. It is pure, so the cuts are the same.
- `split_asr_data` with zero chunks raises ZeroDivisionError before its early return. That is the `None` of `ChunkSplitter.SplitChunks`, as is a zero threshold in `determine_num_segments`.
- SentenceAligner.MergeBySentences returns the empty input at once. The source instead walks a cursor of -1 over empty windows. difflib scores those 0 against a non-empty sentence, so it also returns the empty input; an arbitrary ratio parameter need not.
- The docstring of `merge_segments_based_on_sentences` (subtitle_processor/spliter.py:88, 93-94) says that too many misses raise `SubtitleProcessError`. The code instead logs and returns its input unchanged (subtitle_processor/spliter.py:160-162). The model follows the code, so where the rows above say the aligner "gives up", it returns its input; no exception is modelled.
- TimeGapGrouper.MergeByTimeGaps: in the `check_large_gaps` mode only coverage and the pause bound are stated, not the exact grouping. `RecordGap` and `Advance` state the adaptive close step by step, including the empty group emitted when both closes fire.
- ShortSegmentMerger.MergeShortSegments works on the list as a value and returns the new list. The source returns `None` and mutates the list and the segment objects in place, so `out` is the list's contents when the loop ends. Aliasing of those objects by other lists is not modelled.
- `need_lower` of `preprocess_segments` is unused in the source and so left out.
- `SubtitleData` is not part of this model. `split_asr_data` works on its segment list, and a chunk is that list's slice.
- LongSegmentSplitter.SplitRunsAsWritten bounds the recursion of `split_long_segment` as written by a fuel parameter. A `None` result stands for a recursion that does not return, within that depth, where Python raises RecursionError.
- `has_data`, `__len__`, `__iter__`, `__str__` and the `transcript` property are trivial accessors and are not modelled.
- SrtCodec.SrtRoundTrip and AsrTranscript.FromSrtOfToSrt are stated only for segments whose texts are non-blank, trimmed and on one line, with times below 100 hours. Other texts do not survive the split and strip of `from_srt`; larger hour fields do not match the two-digit time pattern.
- AsrTranscript.AsrData.ToTxt has no contract of its own. `TxtLines` states what its text means.
- `srt2ass.py`, the LLM helpers, the CLIs and `aligner.py` are outside the modelled core.

## Findings

| source | as written | input that shows it | evidently intended | confidence | as-written member | corrected member |
|---|---|---|---|---|---|---|
| subtitle_processor/spliter.py:207-235 | With two fragments, the single pause is vacuously "all equal", so `split_index = n // 2 = 1`. The first half is the whole list and the second is empty, so the call recurses on the same list. | Two fragments "a" and "b", each without a sentence mark, with a word budget of 1. `count_words("a b") = 2` exceeds it, and the recursion never ends (RecursionError). | Split between the two fragments, so that both halves are non-empty, as they are for three or more fragments. | not executed | LongSegmentSplitter.AsWrittenDiverges | LongSegmentSplitter.SplitLongSpec |
