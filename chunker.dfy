/**
 * `determine_num_segments` (spliter.py:311-319) and `split_asr_data`
 * (spliter.py:236-283): how many chunks a transcript is cut into, and where
 * the cuts fall (at the largest silence near evenly spaced targets).
 */
module Chunker {
  import opened WordCount
  import opened Segments
  import opened LongSplit

  /** `SPLIT_RANGE`: how far on each side of a target the cut may move. */
  const SplitRange: int := 30

  /** Python's `a // b`: rounds toward minus infinity. */
  function FloorDiv(a: int, b: int): (q: int)
    requires b != 0
    ensures b > 0 ==> q * b <= a < q * b + b
    ensures b < 0 ==> q * b >= a > q * b + b
  {
    if b > 0 then a / b else (-a) / (-b)
  }

  /** Python's `a % b`: takes the sign of `b`. */
  function FloorMod(a: int, b: int): (m: int)
    requires b != 0
    ensures a == FloorDiv(a, b) * b + m
    ensures b > 0 ==> 0 <= m < b
    ensures b < 0 ==> b < m <= 0
  {
    a - FloorDiv(a, b) * b
  }

  /** `determine_num_segments(word_count, threshold)`. */
  function DetermineNumSegments(wordCount: int, threshold: int): (n: int)
    requires threshold != 0
    ensures n >= 1
  {
    var q := FloorDiv(wordCount, threshold);
    var num := if FloorMod(wordCount, threshold) > 0 then q + 1 else q;
    if num < 1 then 1 else num
  }

  /**
   * For a positive threshold the count is the ceiling of the division, and
   * never below one: enough chunks of `threshold` words to hold every word,
   * and one fewer would not.
   */
  lemma DetermineNumSegmentsIsCeiling(wordCount: int, threshold: int)
    requires threshold > 0
    ensures var n := DetermineNumSegments(wordCount, threshold);
      (wordCount <= 0 ==> n == 1)
      && (wordCount > 0 ==> (n - 1) * threshold < wordCount <= n * threshold)
  {
    var q, m := FloorDiv(wordCount, threshold), FloorMod(wordCount, threshold);
    SignOfQuotient(wordCount, threshold);
    if wordCount > 0 && m > 0 {
      assert (q + 1) * threshold == q * threshold + threshold;
    } else if wordCount > 0 {
      assert (q - 1) * threshold == q * threshold - threshold;
    }
  }

  /** With a positive divisor the quotient has the dividend's sign, and is zero only for a dividend below the divisor. */
  lemma SignOfQuotient(a: int, b: int)
    requires b > 0
    ensures a > 0 ==> FloorDiv(a, b) >= 0
    ensures a > 0 && FloorMod(a, b) == 0 ==> FloorDiv(a, b) >= 1
    ensures a <= 0 ==> FloorDiv(a, b) <= 0
  {
    var q := FloorDiv(a, b);
    assert q <= -1 ==> q * b <= -b;
    assert q >= 1 ==> q * b >= b;
  }

  /** A negative threshold always gives a single chunk. */
  lemma DetermineNumSegmentsNegativeThreshold(wordCount: nat, threshold: int)
    requires threshold < 0
    ensures DetermineNumSegments(wordCount, threshold) == 1
  {
    var q := FloorDiv(wordCount, threshold);
    assert q >= 1 ==> q * threshold <= threshold;
  }

  /**
   * `ASRData.to_txt()` is not part of this model; it is taken to put each
   * segment's text on its own line.
   */
  function ToTxt(segs: seq<Seg>): string
  {
    if segs == [] then ""
    else if |segs| == 1 then segs[0].text
    else segs[0].text + "\n" + ToTxt(segs[1..])
  }

  /** No silence in `[lo, hi)` reaches zero (the source starts its running maximum at -1). */
  predicate NoGapAbove(segs: seq<Seg>, lo: int, hi: int, floor: int)
    requires 0 <= lo && (lo < hi ==> hi < |segs|)
  {
    forall j :: lo <= j < hi ==> Gap(segs, j) <= floor
  }

  /**
   * `best` is the cut near target `splitPoint`: the leftmost largest silence
   * in `[max(0, p - 30), min(n - 1, p + 30))`, provided one of them exceeds
   * -1; otherwise the target itself.
   */
  predicate IsAdjustedCut(segs: seq<Seg>, splitPoint: int, best: int)
    requires splitPoint >= 0
  {
    var lo, hi := Max(0, splitPoint - SplitRange), Min(|segs| - 1, splitPoint + SplitRange);
    if lo < hi && !NoGapAbove(segs, lo, hi, -1) then best == LeftmostMaxGap(segs, lo, hi)
    else best == splitPoint
  }

  /** The inner loop of `split_asr_data`, which moves one target to the largest silence near it. */
  method AdjustSplitPoint(segs: seq<Seg>, splitPoint: int) returns (best: int)
    requires splitPoint >= 0
    ensures IsAdjustedCut(segs, splitPoint, best)
    ensures best >= 0
  {
    var start := Max(0, splitPoint - SplitRange);
    var end := Min(|segs| - 1, splitPoint + SplitRange);
    var maxGap := -1;
    best := splitPoint;
    var j := start;
    while j < end
      invariant start <= j && (start < end ==> j <= end)
      invariant maxGap >= -1
      invariant maxGap == -1 ==> best == splitPoint && (start < end ==> NoGapAbove(segs, start, j, -1))
      invariant maxGap > -1 ==>
        start <= best < j <= end && maxGap == Gap(segs, best)
        && (forall i :: start <= i < j ==> Gap(segs, i) <= maxGap)
        && (forall i :: start <= i < best ==> Gap(segs, i) < maxGap)
    {
      var gap := segs[j + 1].startTime - segs[j].endTime;
      if gap > maxGap {
        maxGap := gap;
        best := j;
      }
      j := j + 1;
    }
    if maxGap > -1 {
      LeftmostMaxGapUnique(segs, start, end, best);
    }
  }

  function Max(a: int, b: int): int { if a >= b then a else b }
  function Min(a: int, b: int): int { if a <= b then a else b }

  /** `s` is strictly increasing. */
  predicate StrictlyIncreasing(s: seq<int>) {
    forall i, j :: 0 <= i < j < |s| ==> s[i] < s[j]
  }

  /** Puts `x` into an increasing list without repeating it. */
  function InsertSorted(x: int, s: seq<int>): (r: seq<int>)
    requires StrictlyIncreasing(s)
    ensures StrictlyIncreasing(r)
    ensures forall v :: v in r <==> v == x || v in s
    ensures |r| <= |s| + 1
  {
    if s == [] then [x]
    else if x < s[0] then [x] + s
    else if x == s[0] then s
    else
      var rest := InsertSorted(x, s[1..]);
      assert forall k :: 0 <= k < |rest| ==> rest[k] in rest && s[0] < rest[k];
      [s[0]] + rest
  }

  /** `sorted(set(xs))`: the distinct values of `xs`, increasing. */
  function SortedUnique(xs: seq<int>): (r: seq<int>)
    ensures StrictlyIncreasing(r)
    ensures forall v :: v in r <==> v in xs
    ensures |r| <= |xs|
  {
    if xs == [] then [] else InsertSorted(xs[|xs| - 1], SortedUnique(xs[..|xs| - 1]))
  }

  /** Python's slice `s[a:b]` for `a >= 0`: both ends clipped to the length. */
  function ClampSlice<T>(s: seq<T>, a: int, b: int): (r: seq<T>)
    requires 0 <= a
    ensures a <= b ==> r == s[Min(a, |s|)..Min(b, |s|)]
  {
    if a >= |s| || b <= a then [] else s[a..Min(b, |s|)]
  }

  /**
   * The first loop of `split_asr_data`: target `i * wordsPerSegment` for
   * `i` in `1 .. numSegments - 1`, each moved to the largest silence near it.
   */
  method AdjustedSplitPoints(segs: seq<Seg>, numSegments: int, wordsPerSegment: nat) returns (adjusted: seq<int>)
    requires numSegments >= 1
    ensures |adjusted| == numSegments - 1
    ensures forall k :: 0 <= k < |adjusted| ==> adjusted[k] >= 0 && IsAdjustedCut(segs, (k + 1) * wordsPerSegment, adjusted[k])
  {
    adjusted := [];
    var i := 1;
    while i < numSegments
      invariant 1 <= i <= numSegments
      invariant |adjusted| == i - 1
      invariant forall k :: 0 <= k < |adjusted| ==> adjusted[k] >= 0 && IsAdjustedCut(segs, (k + 1) * wordsPerSegment, adjusted[k])
    {
      var splitPoint := i * wordsPerSegment;
      var best := AdjustSplitPoint(segs, splitPoint);
      adjusted := adjusted + [best];
      i := i + 1;
    }
  }

  /** Where the parts after the last cut begin: just past the last index, or at 0 when there is none. */
  function TailStart(indices: seq<int>): int {
    if indices == [] then 0 else Last(indices) + 1
  }

  /**
   * Part `k` runs from just past the index before `indices[k]` (from 0 for
   * the first) to just past `indices[k]`, clipped like a Python slice.
   */
  predicate SlicedAt(segs: seq<Seg>, indices: seq<int>, parts: seq<seq<Seg>>)
    requires |parts| <= |indices|
    requires forall k :: 0 <= k < |indices| ==> indices[k] >= 0
  {
    forall k :: 0 <= k < |parts| ==>
      parts[k] == ClampSlice(segs, if k == 0 then 0 else indices[k - 1] + 1, indices[k] + 1)
  }

  lemma {:induction false} SlicedAtSnoc(segs: seq<Seg>, indices: seq<int>, parts: seq<seq<Seg>>, prev: int, part: seq<Seg>)
    requires |parts| < |indices|
    requires forall k :: 0 <= k < |indices| ==> indices[k] >= 0
    requires SlicedAt(segs, indices, parts)
    requires prev == if |parts| == 0 then 0 else indices[|parts| - 1] + 1
    requires part == ClampSlice(segs, prev, indices[|parts|] + 1)
    ensures SlicedAt(segs, indices, parts + [part])
  {
    var ps := parts + [part];
    forall k | 0 <= k < |ps|
      ensures ps[k] == ClampSlice(segs, if k == 0 then 0 else indices[k - 1] + 1, indices[k] + 1)
    {
      if k < |parts| {
        assert ps[k] == parts[k];
      }
    }
  }

  /**
   * The parts are the input cut after each index: one part per index as
   * `SlicedAt` says, and what follows the last index, when anything does,
   * as one more part.
   */
  predicate CutAt(segs: seq<Seg>, indices: seq<int>, parts: seq<seq<Seg>>)
    requires forall k :: 0 <= k < |indices| ==> indices[k] >= 0
  {
    |parts| == |indices| + (if TailStart(indices) < |segs| then 1 else 0)
    && SlicedAt(segs, indices, parts[..|indices|])
    && (TailStart(indices) < |segs| ==> Last(parts) == segs[TailStart(indices)..])
  }

  /**
   * The last loop of `split_asr_data`: cut after each index in turn (as
   * Python slices do, past the end gives an empty part), then keep what is
   * left as the last part. Laid end to end the parts give back the input.
   */
  method CutAfter(segs: seq<Seg>, indices: seq<int>) returns (parts: seq<seq<Seg>>)
    requires StrictlyIncreasing(indices)
    requires forall k :: 0 <= k < |indices| ==> indices[k] >= 0
    ensures CutAt(segs, indices, parts)
    ensures Flatten(parts) == segs
    ensures |parts| <= |indices| + 1
  {
    var totalSegs := |segs|;
    parts := [];
    var prev := 0;
    var k := 0;
    while k < |indices|
      invariant 0 <= k <= |indices| && |parts| == k
      invariant prev >= 0 && prev == if k == 0 then 0 else indices[k - 1] + 1
      invariant forall j :: k <= j < |indices| ==> prev <= indices[j] + 1
      invariant SlicedAt(segs, indices, parts)
      invariant Flatten(parts) == segs[..Min(prev, totalSegs)]
    {
      var index := indices[k];
      var part := ClampSlice(segs, prev, index + 1);
      CutStep(segs, parts, prev, index);
      SlicedAtSnoc(segs, indices, parts, prev, part);
      parts := parts + [part];
      prev := index + 1;
      k := k + 1;
    }
    assert parts[..|indices|] == parts;
    CutTail(segs, parts, prev);
    if prev < totalSegs {
      parts := parts + [segs[prev..]];
    }
  }

  /** Cutting after `index` extends the covered prefix from `prev` to `index + 1`. */
  lemma CutStep(segs: seq<Seg>, parts: seq<seq<Seg>>, prev: int, index: int)
    requires 0 <= prev <= index + 1
    requires Flatten(parts) == segs[..Min(prev, |segs|)]
    ensures Flatten(parts + [ClampSlice(segs, prev, index + 1)]) == segs[..Min(index + 1, |segs|)]
  {
    var part := ClampSlice(segs, prev, index + 1);
    FlattenAppend(parts, part);
    assert segs[..Min(index + 1, |segs|)] == segs[..Min(prev, |segs|)] + part;
  }

  /** What is left after the last cut, added as one more part, completes the input. */
  lemma CutTail(segs: seq<Seg>, parts: seq<seq<Seg>>, prev: int)
    requires 0 <= prev
    requires Flatten(parts) == segs[..Min(prev, |segs|)]
    ensures prev < |segs| ==> Flatten(parts + [segs[prev..]]) == segs
    ensures prev >= |segs| ==> Flatten(parts) == segs
  {
    if prev < |segs| {
      FlattenAppend(parts, segs[prev..]);
      assert segs == segs[..prev] + segs[prev..];
    } else {
      assert segs[..Min(prev, |segs|)] == segs;
    }
  }

  /**
   * The cutting half of `split_asr_data`, for more than one chunk and more
   * segments than chunks: target `k + 1` is `(k + 1) * wordsPerSegment`,
   * `adjusted[k]` is that target moved to the largest silence near it, the
   * cut indices are the distinct adjusted targets in increasing order, and
   * the parts are the input cut after each of them.
   */
  method SplitAtGaps(segs: seq<Seg>, numSegments: int, wordsPerSegment: nat)
      returns (parts: seq<seq<Seg>>, ghost adjusted: seq<int>, ghost indices: seq<int>)
    requires 1 < numSegments < |segs|
    ensures |adjusted| == numSegments - 1
    ensures forall k :: 0 <= k < |adjusted| ==> adjusted[k] >= 0 && IsAdjustedCut(segs, (k + 1) * wordsPerSegment, adjusted[k])
    ensures indices == SortedUnique(adjusted)
    ensures forall k :: 0 <= k < |indices| ==> indices[k] >= 0
    ensures CutAt(segs, indices, parts)
    ensures Flatten(parts) == segs
    ensures |parts| <= numSegments
  {
    var adjustedSplitIndices := AdjustedSplitPoints(segs, numSegments, wordsPerSegment);
    adjusted := adjustedSplitIndices;
    adjustedSplitIndices := SortedUnique(adjustedSplitIndices);
    indices := adjustedSplitIndices;
    forall k | 0 <= k < |indices| ensures indices[k] >= 0 {
      assert indices[k] in adjusted;
    }
    parts := CutAfter(segs, adjustedSplitIndices);
  }

  /**
   * `split_asr_data(asr_data, num_segments)`: nothing to do for one chunk or
   * for no more segments than chunks. Otherwise the input is cut as
   * `SplitAtGaps` states, with `words // numSegments` words per chunk. Laid
   * end to end the parts give back the input, and there are at most
   * `numSegments` of them.
   */
  method SplitAsrData(segs: seq<Seg>, numSegments: int)
      returns (parts: seq<seq<Seg>>, ghost adjusted: seq<int>, ghost indices: seq<int>)
    requires numSegments != 0
    ensures numSegments <= 1 || |segs| <= numSegments ==> parts == [segs]
    ensures !(numSegments <= 1 || |segs| <= numSegments) ==>
      var w := FloorDiv(Words(ToTxt(segs)), numSegments);
      w >= 0 && |adjusted| == numSegments - 1
      && (forall k :: 0 <= k < |adjusted| ==> adjusted[k] >= 0 && IsAdjustedCut(segs, (k + 1) * w, adjusted[k]))
      && indices == SortedUnique(adjusted)
      && (forall k :: 0 <= k < |indices| ==> indices[k] >= 0)
      && CutAt(segs, indices, parts)
    ensures Flatten(parts) == segs
    ensures |parts| <= Max(1, numSegments)
  {
    var totalSegs := |segs|;
    var totalWordCount := CountWords(ToTxt(segs));
    var wordsPerSegment := FloorDiv(totalWordCount, numSegments);
    if numSegments <= 1 || totalSegs <= numSegments {
      parts, adjusted, indices := [segs], [], [];
      assert Flatten(parts) == segs + Flatten<Seg>([]);
      return;
    }
    parts, adjusted, indices := SplitAtGaps(segs, numSegments, wordsPerSegment);
  }
}
