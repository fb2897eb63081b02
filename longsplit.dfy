/**
 * `split_long_segment` (spliter.py:187-233): a merged group whose text has
 * too many words is cut in two at its longest silence (searched in the
 * middle two thirds), or in the middle when all silences are equal, and
 * each half is split again until it fits or is a single segment.
 */
module LongSplit {
  import opened Text
  import opened WordCount
  import opened Segments

  /**
   * All silences between neighbours from index `i` on equal the first one.
   * The source compares with a tolerance of 1e-6; on integer milliseconds
   * that is equality.
   */
  predicate GapsEqualFrom(segs: seq<Seg>, i: nat)
    requires |segs| >= 2
    decreases |segs| - i
  {
    i + 1 >= |segs| || (Gap(segs, i) == Gap(segs, 0) && GapsEqualFrom(segs, i + 1))
  }

  predicate AllGapsEqual(segs: seq<Seg>)
    requires |segs| >= 2
  {
    GapsEqualFrom(segs, 0)
  }

  lemma {:induction false} GapsEqualFromMeans(segs: seq<Seg>, i: nat)
    requires |segs| >= 2
    ensures GapsEqualFrom(segs, i) <==> forall j :: i <= j < |segs| - 1 ==> Gap(segs, j) == Gap(segs, 0)
    decreases |segs| - i
  {
    if i + 1 < |segs| {
      GapsEqualFromMeans(segs, i + 1);
    }
  }

  /** `max(range(lo, hi), key=gap)`: Python keeps the first of equal maxima. */
  function LeftmostMaxGap(segs: seq<Seg>, lo: nat, hi: nat): (m: nat)
    requires lo < hi && hi < |segs|
    ensures lo <= m < hi
    decreases hi - lo
  {
    if lo + 1 == hi then lo
    else
      var m := LeftmostMaxGap(segs, lo + 1, hi);
      if Gap(segs, lo) >= Gap(segs, m) then lo else m
  }

  /** The chosen index holds the largest silence in `[lo, hi)`, and every one before it is strictly smaller. */
  lemma {:induction false} LeftmostMaxGapIsLeftmostMax(segs: seq<Seg>, lo: nat, hi: nat)
    requires lo < hi && hi < |segs|
    ensures var m := LeftmostMaxGap(segs, lo, hi);
      (forall i :: lo <= i < hi ==> Gap(segs, i) <= Gap(segs, m))
      && (forall i :: lo <= i < m ==> Gap(segs, i) < Gap(segs, m))
    decreases hi - lo
  {
    if lo + 1 < hi {
      LeftmostMaxGapIsLeftmostMax(segs, lo + 1, hi);
    }
  }

  /** An index with the largest silence in `[lo, hi)` and only smaller ones before it is the one `LeftmostMaxGap` picks. */
  lemma LeftmostMaxGapUnique(segs: seq<Seg>, lo: nat, hi: nat, b: int)
    requires lo < hi && hi < |segs| && lo <= b < hi
    requires forall i :: lo <= i < hi ==> Gap(segs, i) <= Gap(segs, b)
    requires forall i :: lo <= i < b ==> Gap(segs, i) < Gap(segs, b)
    ensures b == LeftmostMaxGap(segs, lo, hi)
  {
    LeftmostMaxGapIsLeftmostMax(segs, lo, hi);
  }

  /** The split index exactly as the source computes it (spliter.py:206-221). */
  function SplitIndexAsWritten(segs: seq<Seg>): nat
    requires |segs| >= 2
  {
    var n := |segs|;
    if AllGapsEqual(segs) then n / 2
    else if n / 6 < 5 * n / 6 then LeftmostMaxGap(segs, n / 6, 5 * n / 6)
    else n / 2
  }

  /**
   * The split index the model uses: the source's, except that two segments
   * are cut between them (index 0) rather than after both (index 1).
   */
  function SplitIndex(segs: seq<Seg>): (k: nat)
    requires |segs| >= 2
    ensures k <= |segs| - 2
  {
    var n := |segs|;
    if n == 2 then 0 else SplitIndexAsWritten(segs)
  }

  /**
   * Where the cut falls: at the leftmost largest silence in the middle two
   * thirds `[n/6, 5n/6)` when the silences differ, at `n/2` when they are
   * all equal, and as the source has it for every group of three or more.
   */
  lemma SplitIndexChoice(segs: seq<Seg>)
    requires |segs| >= 2
    ensures var n, k := |segs|, SplitIndex(segs);
      (n >= 3 ==> k == SplitIndexAsWritten(segs))
      && (AllGapsEqual(segs) && n >= 3 ==> k == n / 2)
      && (!AllGapsEqual(segs) ==>
        n / 6 <= k < 5 * n / 6
        && (forall i :: n / 6 <= i < 5 * n / 6 ==> Gap(segs, i) <= Gap(segs, k))
        && (forall i :: n / 6 <= i < k ==> Gap(segs, i) < Gap(segs, k)))
  {
    var n := |segs|;
    GapsEqualFromMeans(segs, 0);
    if !AllGapsEqual(segs) {
      assert n >= 3 && n / 6 < 5 * n / 6;
      LeftmostMaxGapIsLeftmostMax(segs, n / 6, 5 * n / 6);
    }
  }

  /**
   * `split_long_segment(text, segs)`: one segment spanning `segs` with the
   * stripped text when the text fits in `maxWords` or there is a single
   * segment; otherwise the results for the two halves, in order.
   */
  function SplitLong(text: string, segs: seq<Seg>, maxWords: nat): (r: seq<Seg>)
    requires segs != []
    ensures r != []
    ensures r[0].startTime == segs[0].startTime && Last(r).endTime == Last(segs).endTime
    decreases |segs|, 1
  {
    if Words(text) <= maxWords || |segs| == 1 then
      [Seg(Strip(text), segs[0].startTime, Last(segs).endTime)]
    else
      SplitHalves(segs, maxWords)
  }

  /** The two recursive calls of `split_long_segment` on `segs[:k+1]` and `segs[k+1:]`, `k` the split index, each with its own joined text. */
  function SplitHalves(segs: seq<Seg>, maxWords: nat): (r: seq<Seg>)
    requires |segs| >= 2
    ensures r != []
    ensures r[0].startTime == segs[0].startTime && Last(r).endTime == Last(segs).endTime
    decreases |segs|, 0
  {
    var k := SplitIndex(segs);
    var first, second := segs[..k + 1], segs[k + 1..];
    SplitLong(Texts(first), first, maxWords) + SplitLong(Texts(second), second, maxWords)
  }

  /** Output segment `out` is block `b` merged: its stripped text, its first start and its last end. */
  predicate MergedFrom(out: Seg, text: string, b: seq<Seg>)
    requires b != []
  {
    out == Seg(Strip(text), b[0].startTime, Last(b).endTime)
  }

  /** Output `r[j]` is block `blocks[j]` merged, and fits in `maxWords` unless the block is one segment. */
  predicate BlocksMerged(r: seq<Seg>, blocks: seq<seq<Seg>>, maxWords: nat)
  {
    |r| == |blocks|
    && forall j :: 0 <= j < |blocks| ==>
      blocks[j] != [] && MergedFrom(r[j], Texts(blocks[j]), blocks[j])
      && (|blocks[j]| == 1 || Words(r[j].text) <= maxWords)
  }

  /** The blocks of input segments that `split_long_segment` merges into its outputs, in order. */
  function Cuts(text: string, segs: seq<Seg>, maxWords: nat): seq<seq<Seg>>
    requires segs != []
    decreases |segs|, 1
  {
    if Words(text) <= maxWords || |segs| == 1 then [segs]
    else CutHalves(segs, maxWords)
  }

  function CutHalves(segs: seq<Seg>, maxWords: nat): seq<seq<Seg>>
    requires |segs| >= 2
    decreases |segs|, 0
  {
    var k := SplitIndex(segs);
    var first, second := segs[..k + 1], segs[k + 1..];
    Cuts(Texts(first), first, maxWords) + Cuts(Texts(second), second, maxWords)
  }

  /** The blocks cover the input in order, none is empty, and there is one per output segment. */
  lemma {:induction false} CutsCover(text: string, segs: seq<Seg>, maxWords: nat)
    requires segs != []
    ensures var blocks := Cuts(text, segs, maxWords);
      Flatten(blocks) == segs && NonEmptyGroups(blocks) && |blocks| == |SplitLong(text, segs, maxWords)|
    decreases |segs|, 1
  {
    if Words(text) <= maxWords || |segs| == 1 {
      assert Flatten([segs]) == segs + Flatten<Seg>([]);
    } else {
      CutHalvesCover(segs, maxWords);
    }
  }

  lemma {:induction false} CutHalvesCover(segs: seq<Seg>, maxWords: nat)
    requires |segs| >= 2
    ensures var blocks := CutHalves(segs, maxWords);
      Flatten(blocks) == segs && NonEmptyGroups(blocks) && |blocks| == |SplitHalves(segs, maxWords)|
    decreases |segs|, 0
  {
    var k := SplitIndex(segs);
    var first, second := segs[..k + 1], segs[k + 1..];
    var b1, b2 := Cuts(Texts(first), first, maxWords), Cuts(Texts(second), second, maxWords);
    assert CutHalves(segs, maxWords) == b1 + b2;
    assert |SplitHalves(segs, maxWords)| == |b1| + |b2| by {
      CutsCover(Texts(first), first, maxWords);
      CutsCover(Texts(second), second, maxWords);
    }
    assert Flatten(b1 + b2) == segs by {
      CutsCover(Texts(first), first, maxWords);
      CutsCover(Texts(second), second, maxWords);
      FlattenConcat(b1, b2);
      assert segs == first + second;
    }
    assert NonEmptyGroups(b1 + b2) by {
      CutsCover(Texts(first), first, maxWords);
      CutsCover(Texts(second), second, maxWords);
      NonEmptyConcat(b1, b2);
    }
  }

  /**
   * Every segment `split_long_segment` returns is one block of the input
   * merged, and each block fits in `maxWords` or is a single segment. When
   * nothing is cut, the one output carries the stripped text the caller gave.
   */
  lemma {:induction false} SplitLongBlocks(text: string, segs: seq<Seg>, maxWords: nat)
    requires segs != []
    ensures var r, blocks := SplitLong(text, segs, maxWords), Cuts(text, segs, maxWords);
      (|blocks| == 1 ==>
        blocks == [segs] && MergedFrom(r[0], text, segs) && (|segs| == 1 || Words(r[0].text) <= maxWords))
      && (|blocks| > 1 ==> BlocksMerged(r, blocks, maxWords))
    decreases |segs|, 1
  {
    if Words(text) <= maxWords || |segs| == 1 {
      WordsStrip(text);
    } else {
      SplitHalvesBlocks(segs, maxWords);
    }
  }

  lemma {:induction false} SplitHalvesBlocks(segs: seq<Seg>, maxWords: nat)
    requires |segs| >= 2
    ensures BlocksMerged(SplitHalves(segs, maxWords), CutHalves(segs, maxWords), maxWords)
    ensures |CutHalves(segs, maxWords)| > 1
    decreases |segs|, 0
  {
    var k := SplitIndex(segs);
    var first, second := segs[..k + 1], segs[k + 1..];
    var b1, b2 := Cuts(Texts(first), first, maxWords), Cuts(Texts(second), second, maxWords);
    var r1, r2 := SplitLong(Texts(first), first, maxWords), SplitLong(Texts(second), second, maxWords);
    HalfMerged(first, maxWords);
    HalfMerged(second, maxWords);
    CombineHalves(r1, b1, r2, b2, maxWords);
  }

  /** Every text `split_long_segment` returns is stripped. */
  lemma SplitLongStripped(text: string, segs: seq<Seg>, maxWords: nat)
    requires segs != []
    ensures var r := SplitLong(text, segs, maxWords);
      forall j :: 0 <= j < |r| ==> IsStripped(r[j].text)
  {
    var r, blocks := SplitLong(text, segs, maxWords), Cuts(text, segs, maxWords);
    CutsCover(text, segs, maxWords);
    SplitLongBlocks(text, segs, maxWords);
    forall j | 0 <= j < |r| ensures IsStripped(r[j].text) {
      assert r[j].text == Strip(if |blocks| == 1 then text else Texts(blocks[j]));
    }
  }

  /** One half, cut again: as many outputs as blocks, each block merged. */
  lemma {:induction false} HalfMerged(half: seq<Seg>, maxWords: nat)
    requires half != []
    ensures var b, r := Cuts(Texts(half), half, maxWords), SplitLong(Texts(half), half, maxWords);
      |r| == |b| && NonEmptyGroups(b) && BlocksMerged(r, b, maxWords)
    decreases |half|, 2
  {
    var b, r := Cuts(Texts(half), half, maxWords), SplitLong(Texts(half), half, maxWords);
    CutsCover(Texts(half), half, maxWords);
    SplitLongBlocks(Texts(half), half, maxWords);
    if |b| == 1 {
      OneBlockMerged(half, r, maxWords);
    }
  }

  lemma CombineHalves(r1: seq<Seg>, b1: seq<seq<Seg>>, r2: seq<Seg>, b2: seq<seq<Seg>>, maxWords: nat)
    requires |r1| == |b1| && NonEmptyGroups(b1) && BlocksMerged(r1, b1, maxWords)
    requires |r2| == |b2| && NonEmptyGroups(b2) && BlocksMerged(r2, b2, maxWords)
    ensures NonEmptyGroups(b1 + b2) && BlocksMerged(r1 + r2, b1 + b2, maxWords)
  {
    var r, blocks := r1 + r2, b1 + b2;
    forall j | 0 <= j < |blocks|
      ensures MergedFrom(r[j], Texts(blocks[j]), blocks[j])
      ensures |blocks[j]| == 1 || Words(r[j].text) <= maxWords
    {
      if j < |b1| {
        assert r[j] == r1[j] && blocks[j] == b1[j];
      } else {
        assert r[j] == r2[j - |b1|] && blocks[j] == b2[j - |b1|];
      }
    }
  }

  /** A half that was not cut is one block: the merged half itself. */
  lemma {:induction false} OneBlockMerged(segs: seq<Seg>, r: seq<Seg>, maxWords: nat)
    requires segs != [] && |r| == 1
    requires MergedFrom(r[0], Texts(segs), segs) && (|segs| == 1 || Words(r[0].text) <= maxWords)
    ensures BlocksMerged(r, [segs], maxWords)
  {
  }

  /**
   * As written, a group of two segments whose text is too long is "split"
   * after its second segment: the first half is the whole group, so the
   * recursive call repeats its own arguments and never returns.
   */
  lemma TwoSegmentsSplitAsWritten(segs: seq<Seg>)
    requires |segs| == 2
    ensures SplitIndexAsWritten(segs) == 1
    ensures segs[..SplitIndexAsWritten(segs) + 1] == segs
    ensures segs[SplitIndexAsWritten(segs) + 1..] == []
  {
    GapsEqualFromMeans(segs, 0);
  }

  /** A concrete group on which the source's recursion does not terminate (with a limit of 1 word). */
  lemma NonTerminatingExample()
    ensures var segs := [Seg("a ", 0, 100), Seg("b", 100, 200)];
      Words(Texts(segs)) > 1 && |segs| != 1
      && segs[..SplitIndexAsWritten(segs) + 1] == segs
  {
    var segs := [Seg("a ", 0, 100), Seg("b", 100, 200)];
    assert Texts(segs) == "a b" by {
      assert Texts(segs[1..]) == "b" + Texts([]);
    }
    TwoSegmentsSplitAsWritten(segs);
    TwoLatinWords();
  }

  lemma TwoLatinWords()
    ensures Words("a b") == 2
  {
    var s := "a b";
    assert !IsScriptChar(s[0]) && !IsSpace(s[0]) && IsSpace(s[1]) && !IsScriptChar(s[2]) && !IsSpace(s[2]);
    assert s[1..][1..] == [s[2]] && [s[2]][1..] == [];
    assert Units([s[2]], false) == 1;
  }
}
