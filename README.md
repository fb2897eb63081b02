# Sentence alignment and segment reshaping for speech-recognition subtitles

This project models the engine in `app/core/subtitle_processor/spliter.py`.
The engine takes timestamped speech-recognition segments (`ASRDataSeg`: a
text, a start time and an end time) and cuts them again into subtitle
lines, using a list of target sentences as the boundaries. It has eight
parts:

- `count_words`: a script-aware counter. Characters in ten Unicode
  ranges (CJK, kana, Hangul, Thai, Arabic, Cyrillic, Hebrew, Vietnamese)
  count one each. The rest counts by whitespace tokens.
- `preprocess_text`: the normaliser used before comparing texts. It
  lower-cases the text and rejoins its tokens with single spaces.
- `merge_segments_based_on_sentences`: the central fold over the
  sentences. It carries a cursor into the segments and a search slack
  (`max_shift`: 30, or 100 after a miss). For each sentence it searches
  windows of segments, sizes closest to the sentence's word count first.
  It keeps the first strictly best similarity and accepts a window that
  scores at least 0.5. Each accepted window is regrouped at long silences,
  and each group is merged into one segment, or cut again when it has too
  many words.
- `check_time_gaps`: a single pass that cuts a run of segments wherever
  the silence between neighbours exceeds 1500 ms.
- `split_long_segment`: recursive halving of an over-long group. It cuts
  at the largest silence in the middle two thirds, or at `n // 2` when all
  silences are equal.
- `split_asr_data` and `determine_num_segments`: cut a transcript into
  chunks. The count is the ceiling of words over a threshold, at least
  one. Each cut is snapped to the largest silence within 30 segments of an
  evenly spaced target.
- `optimize_subtitles`: a backward pass over an `ASRData` object's segment
  list. It folds a short segment into the one before it, in place.

Modules, one per part:

- `Text`: whitespace, `split`, `join`, `strip`, `lower` and
  `preprocess_text`.
- `WordCount`: `count_words`.
- `Segments`: the segment datatype and list helpers.
- `TimeGaps`: `check_time_gaps`.
- `Windows`: the order of the window sizes.
- `LongSplit`: `split_long_segment`.
- `Chunker`: `determine_num_segments` and `split_asr_data`.
- `Aligner`: `merge_segments_based_on_sentences`.
- `Optimizer`: `optimize_subtitles`, with `ASRData` as a class whose
  `segments` field is rewritten in place.

Timestamps are integer milliseconds. The source compares silences with a
tolerance of `1e-6`; on integers that is equality. `MAX_WORD_COUNT` is
imported from a module outside this model, so it is the parameter
`maxWords`. The similarity `difflib.SequenceMatcher(None, a, b).ratio()`
is the parameter `sim`. The model assumes only that `sim` never exceeds
1, which `ratio()` guarantees.

Loops in the source are `method`s with loop invariants, each proved
against a specification function or predicate:

- `CountWords`;
- `CheckTimeGaps`;
- `FindBestWindow` and `ScanStarts`;
- `MergeGroups`;
- `MergeSegmentsBasedOnSentences`, whose loop body is `AlignSentence`;
- `AdjustSplitPoint`, `AdjustedSplitPoints` and `CutAfter`;
- `OptimizeSubtitles`.

Expressions and recursion in the source are functions, with lemmas about
them: `Normalize`, `DetermineNumSegments` and `SplitLong`.

Where the design description of the program and the code disagree, the
model follows the code:

- **A rejected sentence does not move the cursor.** After a rejection
  the code sets the cursor from the end of the last accepted window,
  which leaves it where it was. It does not advance past the rejected
  span. When no earlier sentence was accepted, that variable is unset and
  the code raises an error; the model returns `NoEarlierMatch`.
- **Accepted windows need not cover every segment.** Each accepted
  window may start up to `max_shift` segments after the cursor, so
  segments can be skipped. The model proves the windows are ordered and
  disjoint, and that each starts at most 100 segments after the previous
  one ends. It does not prove coverage.
- **Three short fragments do not always collapse into one.** After the
  last two merge, the merged segment is the "current" segment at the next
  index, and it must itself have fewer than 5 words. Three fragments of 4
  words each, close in time, end as two segments.
- **With two segments the split index is not strictly between the
  ends.** See "## Findings".

## Model

| member | source | states |
|---|---|---|
| Text.Split | app/core/subtitle_processor/spliter.py:74 | every piece `str.split()` returns is a non-empty run without whitespace |
| Text.Strip | app/core/subtitle_processor/spliter.py:198 | the stripped text starts and ends with a non-whitespace character (or is empty) |
| Text.StripTokens | app/core/subtitle_processor/spliter.py:65 | stripping before splitting does not change the tokens |
| Text.Lower | app/core/subtitle_processor/spliter.py:74 | lower-casing keeps the length and lowers each character in place, the result is lower-case, and a text that is already lower-case comes back unchanged |
| Text.SplitJoin | app/core/subtitle_processor/spliter.py:74 | splitting tokens joined by single spaces gives the tokens back |
| Text.SplitLeadingSpaces | app/core/subtitle_processor/spliter.py:74 | leading whitespace yields no token |
| Text.SplitTrailingSpaces | app/core/subtitle_processor/spliter.py:74 | trailing whitespace yields no token |
| Text.NormalizeShape | app/core/subtitle_processor/spliter.py:70-74 | `preprocess_text` output is lower-case, has no leading, trailing or doubled whitespace, uses only `' '` between tokens, and has the tokens of the lower-cased input |
| Text.NormalizeIdempotent | app/core/subtitle_processor/spliter.py:70-74 | `preprocess_text` applied twice is `preprocess_text` applied once |
| WordCount.RangesDisjoint | app/core/subtitle_processor/spliter.py:40-51 | the ten script ranges are pairwise disjoint, so blanking one range never touches another |
| WordCount.CountWords | app/core/subtitle_processor/spliter.py:25-67 | the ten passes return the number of script characters plus the token count of the text with those characters blanked, which equals the one-scan unit count `Words` |
| WordCount.WordsIsMaskedCount | app/core/subtitle_processor/spliter.py:53-67 | counting script characters and runs of other non-space characters in one scan gives the same number as the passes |
| WordCount.WordsWithoutScript | app/core/subtitle_processor/spliter.py:64-67 | text with no script character counts its whitespace tokens |
| WordCount.WordsAllScript | app/core/subtitle_processor/spliter.py:53-62 | text made only of script characters counts one per character |
| WordCount.MaskedCountOfLatinText | app/core/subtitle_processor/spliter.py:25-67 | "hello world" counts 2 |
| WordCount.MaskedCountOfMixedText | app/core/subtitle_processor/spliter.py:25-67 | "你好 world" counts 3 |
| WordCount.WordsStrip | app/core/subtitle_processor/spliter.py:196-198 | stripping a text does not change its count |
| Segments.TextsConcat | app/core/subtitle_processor/spliter.py:226-227 | the joined text of two lists laid end to end is the two joined texts one after the other |
| TimeGaps.FirstBreakSpec | app/core/subtitle_processor/spliter.py:173-179 | no silence inside the first group exceeds the limit, and the one right after it does |
| TimeGaps.ExtendLastGroup | app/core/subtitle_processor/spliter.py:173-179 | appending a segment after a short silence to the open group keeps a partition by gaps |
| TimeGaps.StartNewGroup | app/core/subtitle_processor/spliter.py:173-179 | closing the group before a long silence and opening a new one keeps a partition by gaps |
| TimeGaps.CheckTimeGaps | app/core/subtitle_processor/spliter.py:158-184 | empty input gives no groups; the groups are non-empty, lay end to end to the input, have no silence above the limit inside, and are separated exactly by the silences above it |
| TimeGaps.GapGroupsIsPartition | app/core/subtitle_processor/spliter.py:158-184 | the recursive reference grouping is such a partition |
| TimeGaps.PartitionHead | app/core/subtitle_processor/spliter.py:170-179 | every partition by gaps starts with the group up to the first long silence, and the rest partitions the remainder |
| TimeGaps.GapPartitionUnique | app/core/subtitle_processor/spliter.py:158-184 | there is only one partition by gaps of a given list |
| TimeGaps.CheckTimeGapsIsGapGroups | app/core/subtitle_processor/spliter.py:158-184 | the single pass returns exactly the reference grouping |
| Windows.WindowSizesIsStableSort | app/core/subtitle_processor/spliter.py:103-105 | the sizes tried are exactly those in `[min, max]`, each once, ordered by distance from the word count and, at equal distance, increasing (the stable sort of an increasing range) |
| LongSplit.GapsEqualFromMeans | app/core/subtitle_processor/spliter.py:206-208 | the all-equal test holds exactly when every silence equals the first one |
| LongSplit.LeftmostMaxGap | app/core/subtitle_processor/spliter.py:217-221 | the index `max(range(lo, hi), key=gap)` picks lies in `[lo, hi)` |
| LongSplit.LeftmostMaxGapUnique | app/core/subtitle_processor/spliter.py:217-221 | an index holding the largest silence of the range, with every index before it strictly smaller, is the one `max(..., key=gap)` picks |
| LongSplit.LeftmostMaxGapIsLeftmostMax | app/core/subtitle_processor/spliter.py:214-221 | that index holds the largest silence in the range, and every index before it a strictly smaller one |
| LongSplit.SplitIndex | app/core/subtitle_processor/spliter.py:205-224 | the cut leaves both halves non-empty and shorter than the group |
| LongSplit.SplitIndexChoice | app/core/subtitle_processor/spliter.py:205-221 | the cut is at the leftmost largest silence in `[n/6, 5n/6)` when the silences differ, at `n/2` when they are all equal, and as written for every group of three or more |
| LongSplit.SplitLong | app/core/subtitle_processor/spliter.py:187-233 | the output is non-empty, starts at the group's first start and ends at its last end |
| LongSplit.SplitHalves | app/core/subtitle_processor/spliter.py:223-233 | the two halves' outputs together start at the group's start and end at its end |
| LongSplit.CutsCover | app/core/subtitle_processor/spliter.py:223-233 | the blocks behind the outputs are non-empty, lay end to end to the input, and there is one per output |
| LongSplit.CutHalvesCover | app/core/subtitle_processor/spliter.py:223-231 | the same holds for the two halves together |
| LongSplit.SplitLongBlocks | app/core/subtitle_processor/spliter.py:187-233 | each output is one block merged (stripped joined text, first start, last end) and fits in `maxWords` unless the block is a single segment |
| LongSplit.SplitLongStripped | app/core/subtitle_processor/spliter.py:196-203 | every output text is stripped |
| LongSplit.TwoSegmentsSplitAsWritten | app/core/subtitle_processor/spliter.py:206-224 | as written, a two-segment group is cut after both segments: the first half is the whole group and the second is empty |
| LongSplit.NonTerminatingExample | app/core/subtitle_processor/spliter.py:196-231 | a concrete two-segment group over the word limit whose first half, as written, is the group itself |
| Chunker.FloorDiv | app/core/subtitle_processor/spliter.py:246 | Python's `//` rounds toward minus infinity, for either sign of divisor |
| Chunker.FloorMod | app/core/subtitle_processor/spliter.py:317 | Python's `%` completes `//` and takes the divisor's sign |
| Chunker.DetermineNumSegments | app/core/subtitle_processor/spliter.py:311-319 | the chunk count is at least one |
| Chunker.DetermineNumSegmentsIsCeiling | app/core/subtitle_processor/spliter.py:311-319 | for a positive threshold the count is the ceiling of words over threshold (one for no words): enough chunks, and one fewer is too few |
| Chunker.DetermineNumSegmentsNegativeThreshold | app/core/subtitle_processor/spliter.py:311-319 | a negative threshold always gives one chunk |
| Chunker.AdjustSplitPoint | app/core/subtitle_processor/spliter.py:256-268 | the cut is the leftmost largest silence in `[max(0, p-30), min(n-1, p+30))` (the index `LeftmostMaxGap` picks) when one exceeds -1, and the target otherwise |
| Chunker.AdjustedSplitPoints | app/core/subtitle_processor/spliter.py:253-268 | one adjusted cut per target `i * words_per_segment`, `i` from 1 to `num_segments - 1`, each as above |
| Chunker.InsertSorted | app/core/subtitle_processor/spliter.py:270 | inserting into a strictly increasing list keeps it strictly increasing, adds exactly the new value, and adds at most one element |
| Chunker.SortedUnique | app/core/subtitle_processor/spliter.py:270 | `sorted(set(xs))` is strictly increasing, holds exactly the values of `xs`, and is no longer than `xs` |
| Chunker.ClampSlice | app/core/subtitle_processor/spliter.py:276 | a Python slice with a start past the end is empty, and its end is clipped to the length |
| Chunker.SlicedAtSnoc | app/core/subtitle_processor/spliter.py:272-280 | one more part sliced from just past the previous cut to just past the next one extends the slicing |
| Chunker.CutStep | app/core/subtitle_processor/spliter.py:275-280 | a loop step appends the slice `segs[prev:index + 1]` and moves `prev` past the cut |
| Chunker.CutTail | app/core/subtitle_processor/spliter.py:281-282 | the remainder after the last cut, when there is one, is the last part |
| Chunker.CutAfter | app/core/subtitle_processor/spliter.py:272-283 | part `k` is the slice from just past cut `k - 1` (from 0 for the first) to just past cut `k`, clipped like a Python slice; a non-empty remainder after the last cut is one more, last part; the parts lay end to end to the input |
| Chunker.SplitAtGaps | app/core/subtitle_processor/spliter.py:253-283 | one adjusted cut per target `(k + 1) * words_per_segment`, the cut points are those cuts sorted without duplicates, the parts are sliced at them, they lay end to end to the input, and there are at most `num_segments` of them |
| Chunker.SplitAsrData | app/core/subtitle_processor/spliter.py:236-283 | one chunk or no more segments than chunks gives the input as a single part; otherwise there is one adjusted cut per target `(k + 1) * (words // num_segments)`, each as `AdjustSplitPoint` states, the cut points are those cuts sorted without duplicates, the parts are sliced at them as `CutAfter` states, they lay end to end to the input, and there are at most `num_segments` of them |
| Aligner.SizesPositive | app/core/subtitle_processor/spliter.py:103-105 | every window size tried is at least one |
| Aligner.ScanStarts | app/core/subtitle_processor/spliter.py:109-122 | after every start for one size, the best is still the first strictly best run in search order, and all runs so far score no more than it (unless an exact match stopped the scan) |
| Aligner.FindBestWindow | app/core/subtitle_processor/spliter.py:98-124 | the best ratio bounds every run tried; when positive it is the score of the chosen run, which is the first in search order to reach it; when no run scores above zero nothing is chosen |
| Aligner.JudgeSentence | app/core/subtitle_processor/spliter.py:96-126 | the sentence is accepted exactly when some run tried scores at least 0.5; an accepted run starts within the slack after the cursor, ends inside the list, and is the first run in search order with the best score among all runs tried |
| Aligner.ExactMatchAccepted | app/core/subtitle_processor/spliter.py:96-126 | when a similarity that gives 1 on equal texts is used and some run tried normalises to the sentence, the sentence is accepted and the accepted run scores exactly 1 |
| Aligner.EmitGroupSpan | app/core/subtitle_processor/spliter.py:135-147 | what a non-empty group becomes starts at the group's first start and ends at its last end |
| Aligner.EmitSpan | app/core/subtitle_processor/spliter.py:134-147 | what an accepted run becomes starts at the run's first start and ends at its last end |
| Aligner.EmitGroupsSnoc | app/core/subtitle_processor/spliter.py:134-147 | emitting one more group appends exactly that group's output |
| Aligner.EmitByGroups | app/core/subtitle_processor/spliter.py:130-147 | emitting a run group by group over any partition by gaps is the same as emitting the run |
| Aligner.MergeGroup | app/core/subtitle_processor/spliter.py:135-147 | the output starts at the group's first start and ends at its last end; a group within the word limit becomes one segment with the joined text; a longer group is cut into non-empty blocks laid end to end to the group, each output being one block merged |
| Aligner.MergeGroups | app/core/subtitle_processor/spliter.py:134-147 | the loop over the groups outputs each group's result in order |
| Aligner.EmitMatched | app/core/subtitle_processor/spliter.py:130-147 | the accepted run is cut into its unique partition by gaps, and the output is each group emitted in order |
| Aligner.ExtendRuns | app/core/subtitle_processor/spliter.py:126-153 | a run starting at the cursor or within the slack after it keeps the accepted runs ordered, disjoint and spaced |
| Aligner.EmitsAt | app/core/subtitle_processor/spliter.py:126-149 | piece `i` of the output is exactly what accepted run `i` becomes |
| Aligner.EmitsAppend | app/core/subtitle_processor/spliter.py:126-149 | appending an accepted run and its emitted groups extends that correspondence |
| Aligner.AppendRun | app/core/subtitle_processor/spliter.py:126-149 | the accepting branch keeps the accepted runs ordered and spaced, and the output equal to their pieces laid end to end |
| Aligner.StepsAt | app/core/subtitle_processor/spliter.py:95-155 | in a trace of the fold, the decision on sentence `k` is the judgement of that sentence from the cursor and slack the first `k` decisions leave |
| Aligner.StepsSnoc | app/core/subtitle_processor/spliter.py:126-155 | one more decision extends the trace; an acceptance moves the cursor to one past the run with slack 30, a rejection keeps the cursor with slack 100, and only an acceptance adds a run |
| Aligner.StepAccept | app/core/subtitle_processor/spliter.py:126-153 | accepting the first best run of a matching sentence is a valid decision |
| Aligner.StepMiss | app/core/subtitle_processor/spliter.py:124-153 | rejecting a sentence with no matching run is a valid decision |
| Aligner.SentenceStep | app/core/subtitle_processor/spliter.py:95-155 | one iteration judges the next sentence from the current cursor and slack, records a valid decision, and moves cursor and slack as the source does |
| Aligner.AlignSentence | app/core/subtitle_processor/spliter.py:95-153 | one pass of the loop keeps the loop state (cursor and shift as the trace leaves them, runs accepted so far and their pieces) for one more sentence, and stops exactly when the first sentence finds no run |
| Aligner.MergeSegmentsBasedOnSentences | app/core/subtitle_processor/spliter.py:77-155 | the unset-variable error happens exactly when the first sentence finds no run; the decisions form a trace in which each sentence is judged from the cursor and slack the earlier decisions leave, and is accepted exactly when some run tried scores at least 0.5, with the first best run; on success the accepted runs are exactly the trace's runs, at most one per sentence, in order without overlap, the first within 30 segments of the beginning and each later one within 100 after the previous one ends, and the output is the runs' pieces laid end to end |
| Optimizer.MergeWithNext | app/core/subtitle_processor/spliter.py:307 | merging two neighbours shortens the list by one |
| Optimizer.AsrData.MergeWithNextSegment | app/core/subtitle_processor/spliter.py:307 | the object's list becomes the list with segments `i` and `i + 1` fused |
| Optimizer.MergeTest | app/core/subtitle_processor/spliter.py:302-306 | the test holds exactly when the silence is under 300 ms, the later segment has fewer than 5 words, and the two together have at most 12 |
| Optimizer.OptimizeSubtitles | app/core/subtitle_processor/spliter.py:286-308 | the object's list becomes the result of the pass from the last index down to 1 |
| Optimizer.StepShape | app/core/subtitle_processor/spliter.py:294-307 | a step at `i` shortens the list by exactly one when the rule fires and only then, never changes the segments before `i - 1`, and moves the segments after `i` down by one |
| Optimizer.FuseSpan | app/core/subtitle_processor/spliter.py:307 | a fused run has its members' texts in order, and its start and end are the earliest start and the latest end of its members |
| Optimizer.FuseConcat | app/core/subtitle_processor/spliter.py:307 | fusing two adjacent runs one after the other is fusing their concatenation |
| Optimizer.FlattenJoinAround | app/core/subtitle_processor/spliter.py:307 | joining two adjacent runs anywhere in a list of runs keeps the runs laid end to end the same |
| Optimizer.FlattenJoinNeighbours | app/core/subtitle_processor/spliter.py:307 | joining two neighbouring runs keeps the runs laid end to end the same |
| Optimizer.StepFused | app/core/subtitle_processor/spliter.py:294-307 | a step keeps the list a fusion of consecutive runs of the input |
| Optimizer.OptimizeIsFusion | app/core/subtitle_processor/spliter.py:286-308 | the pass's output is the input cut into consecutive non-empty runs, each fused into one segment |
| Optimizer.FusedTexts | app/core/subtitle_processor/spliter.py:286-308 | fusing consecutive runs keeps the joined text |
| Optimizer.OptimizeKeepsText | app/core/subtitle_processor/spliter.py:286-308 | the pass keeps the joined text, never lengthens the list, and leaves a non-empty list non-empty |

## Left out

- `merge_segments` (lines 322-372) is not modelled. It composes the
  modelled parts, but also fans out to a language-model service on a
  thread pool, filters segments with a Unicode `\w` regex and an ASCII
  test, and sorts by start time.
- `is_pure_punctuation` (lines 18-22) is not modelled. It depends only on
  Python's Unicode `\w` class.
- `main` (lines 374-398) and every logger call are not modelled. They are
  I/O.
- `difflib.SequenceMatcher(...).ratio()` is the parameter `sim`, so its
  Ratcliff/Obershelp computation is not modelled. The operations assume
  only `sim <= 1`. `ExactMatchAccepted` also assumes that identical
  strings score 1, which `ratio()` also guarantees.
- `ASRData`, `ASRDataSeg`, `to_txt`, `merge_with_next_segment` and
  `MAX_WORD_COUNT` are defined in files that are not part of this model.
  - `merge_with_next_segment` is taken to replace segments `i` and `i + 1`
    by one segment: the texts concatenated, the earlier start, the later
    end.
  - `to_txt` is taken to put each text on its own line; it is only
    counted.
  - `MAX_WORD_COUNT` is the parameter `maxWords`.
- Timestamps are integer milliseconds, so floating-point rounding is not
  modelled.
- Text.Lower: maps only ASCII, Latin-1 and basic Cyrillic capitals. Other
  characters are unchanged, so it is not full Unicode `str.lower()`.
- Text.IsSpace: is the fixed set of characters for which `str.isspace()`
  holds in Python 3. Unicode database updates are not tracked.
- Text.Normalize: has no contract of its own. Its properties are
  `NormalizeShape` and `NormalizeIdempotent`.
- Aligner.MergeSegmentsBasedOnSentences: the result is a segment list,
  not a fresh `ASRData`. The decision trace is a ghost result.
- Aligner.EmitGroup: is also defined on an empty group (it gives no
  segments). The source never passes one, because `check_time_gaps`
  groups are non-empty.
- Chunker.DetermineNumSegments: its `requires threshold != 0` leaves out
  the `ZeroDivisionError` the source raises at line 315 for a zero
  threshold. The one caller in the source (line 338) passes the constant
  `SEGMENT_THRESHOLD`, defined in a file that is not part of this model.
- Chunker.SplitAsrData: returns lists of segments rather than `ASRData`
  objects. "The original object" is therefore the same list of values,
  not the same object.
  - Its targets are word counts used as segment indices, as in the
    source. A target past the end can give an empty part, as the
    source's slicing does.
  - Its `requires numSegments != 0` is the source's own condition: line
    246 divides before the guard.
- Optimizer.OptimizeSubtitles: the source reads the list through an
  alias (`segments = asr_data.segments`) that `merge_with_next_segment`
  is taken to update. The model reads the object's field directly.

## Findings

| source | as written | input that shows it | evidently intended | confidence | as-written member | corrected member |
|---|---|---|---|---|---|---|
| app/core/subtitle_processor/spliter.py:206-231 | with two segments the only silence is "all equal", so `split_index = 2 // 2 = 1`; the first half `segs[:2]` is the whole group and the second half is empty, so the recursive call repeats its own arguments and never returns | segments `("a ", 0, 100)` and `("b", 100, 200)` with a word limit of 1 (the text "a b" has 2 words) | cut between the two segments (index 0), giving two one-segment halves | not executed | LongSplit.NonTerminatingExample | LongSplit.SplitIndex |
