/**
 * `optimize_subtitles` (spliter.py:286-308): a last pass over the final
 * segment list, from the end towards the start, that folds a short segment
 * into the one before it when the two are close in time and the result is
 * still short.
 */
module Optimizer {
  import opened WordCount
  import opened Segments
  import opened Chunker

  /** The silence below which two neighbours may be merged, in milliseconds. */
  const MergeGap: int := 300
  /** A segment is short enough to be folded into its predecessor below this many words. */
  const ShortWords: int := 5
  /** The most words a merged segment may have. */
  const MergedWords: int := 12

  function Abs(x: int): nat { if x >= 0 then x else -x }

  /** Segment `cur` is folded into `prev`, the segment just before it. */
  predicate ShouldMerge(prev: Seg, cur: Seg) {
    var curWords := Words(cur.text);
    Abs(cur.startTime - prev.endTime) < MergeGap && curWords < ShortWords && curWords + Words(prev.text) <= MergedWords
  }

  /** Two segments as one: the texts one after the other, the earlier start and the later end. */
  function Fuse2(a: Seg, b: Seg): Seg {
    Seg(a.text + b.text, Min(a.startTime, b.startTime), Max(a.endTime, b.endTime))
  }

  /** `ASRData.merge_with_next_segment(i)`: segments `i` and `i + 1` replaced by the two fused. */
  function MergeWithNext(segs: seq<Seg>, i: int): (r: seq<Seg>)
    requires 0 <= i < |segs| - 1
    ensures |r| == |segs| - 1
  {
    segs[..i] + [Fuse2(segs[i], segs[i + 1])] + segs[i + 2..]
  }

  /** One iteration of the loop, at index `i`. */
  function Step(segs: seq<Seg>, i: int): seq<Seg>
    requires 1 <= i < |segs|
  {
    if ShouldMerge(segs[i - 1], segs[i]) then MergeWithNext(segs, i - 1) else segs
  }

  /** The iterations at `i`, `i - 1`, ..., `1`. */
  function OptimizeFrom(segs: seq<Seg>, i: int): seq<Seg>
    requires i < |segs|
    decreases i
  {
    if i <= 0 then segs else OptimizeFrom(Step(segs, i), i - 1)
  }

  /** The whole pass: every index from the last down to `1`. */
  function Optimize(segs: seq<Seg>): seq<Seg>
  {
    OptimizeFrom(segs, |segs| - 1)
  }

  /** `ASRData`: the object whose segment list the pass rewrites in place. */
  class AsrData {
    var segments: seq<Seg>

    constructor(segs: seq<Seg>)
      ensures segments == segs
    {
      segments := segs;
    }

    /** Replaces segments `i` and `i + 1` by one segment covering both. */
    method MergeWithNextSegment(i: int)
      requires 0 <= i < |segments| - 1
      modifies this
      ensures segments == MergeWithNext(old(segments), i)
    {
      segments := segments[..i] + [Fuse2(segments[i], segments[i + 1])] + segments[i + 2..];
    }
  }

  /** The loop body's test: the silence, the word counts and the limits of the merge rule. */
  method MergeTest(prevSeg: Seg, currentSeg: Seg) returns (merge: bool)
    ensures merge <==> ShouldMerge(prevSeg, currentSeg)
  {
    var timeGap := Abs(currentSeg.startTime - prevSeg.endTime);
    var currentWords := CountWords(currentSeg.text);
    var prevWords := CountWords(prevSeg.text);
    var totalWords := currentWords + prevWords;
    merge := timeGap < MergeGap && currentWords < ShortWords && totalWords <= MergedWords;
  }

  /** `optimize_subtitles(asr_data)`: rewrites `asr.segments` to the result of the pass. */
  method OptimizeSubtitles(asr: AsrData)
    modifies asr
    ensures asr.segments == Optimize(old(asr.segments))
  {
    var i := |asr.segments| - 1;
    while i > 0
      invariant i < |asr.segments|
      invariant OptimizeFrom(asr.segments, i) == Optimize(old(asr.segments))
      decreases i
    {
      ghost var before := asr.segments;
      var merge := MergeTest(asr.segments[i - 1], asr.segments[i]);
      if merge {
        asr.MergeWithNextSegment(i - 1);
      }
      assert asr.segments == Step(before, i);
      i := i - 1;
    }
  }

  /**
   * A step shortens the list by exactly one when, and only when, the rule
   * fires; it never changes the segments before `i - 1`, and the segments
   * after `i` only move down by one.
   */
  lemma StepShape(segs: seq<Seg>, i: int)
    requires 1 <= i < |segs|
    ensures var r := Step(segs, i);
      (|r| == |segs| - 1 <==> ShouldMerge(segs[i - 1], segs[i]))
      && |r| >= |segs| - 1
      && r[..i - 1] == segs[..i - 1]
      && (ShouldMerge(segs[i - 1], segs[i]) ==>
            r[i - 1] == Fuse2(segs[i - 1], segs[i]) && r[i..] == segs[i + 1..])
  {
    if ShouldMerge(segs[i - 1], segs[i]) {
      var r := Step(segs, i);
      assert r[i..] == segs[i + 1..];
    }
  }

  /**
   * Each output segment of `r` is a run of consecutive input segments fused
   * together; `groups` lists the runs in order.
   */
  ghost predicate FusedFrom(segs: seq<Seg>, r: seq<Seg>, groups: seq<seq<Seg>>) {
    Flatten(groups) == segs && NonEmptyGroups(groups) && |groups| == |r|
    && forall j :: 0 <= j < |r| ==> r[j] == Fuse(groups[j])
  }

  /** A non-empty run fused into one segment, left to right. */
  function Fuse(g: seq<Seg>): Seg
    requires g != []
  {
    if |g| == 1 then g[0] else Fuse2(g[0], Fuse(g[1..]))
  }

  /** The fused run has the texts of its members in order, the earliest start and the latest end. */
  lemma {:induction false} FuseSpan(g: seq<Seg>)
    requires g != []
    ensures Fuse(g).text == Texts(g)
    ensures forall k :: 0 <= k < |g| ==> Fuse(g).startTime <= g[k].startTime && g[k].endTime <= Fuse(g).endTime
    ensures exists k :: 0 <= k < |g| && Fuse(g).startTime == g[k].startTime
    ensures exists k :: 0 <= k < |g| && Fuse(g).endTime == g[k].endTime
  {
    if |g| > 1 {
      FuseSpan(g[1..]);
      var f := Fuse(g[1..]);
      var ks :| 0 <= ks < |g[1..]| && f.startTime == g[1..][ks].startTime;
      var ke :| 0 <= ke < |g[1..]| && f.endTime == g[1..][ke].endTime;
      forall k | 0 <= k < |g| ensures Fuse(g).startTime <= g[k].startTime && g[k].endTime <= Fuse(g).endTime {
        if k > 0 {
          assert g[k] == g[1..][k - 1];
        }
      }
      if Fuse(g).startTime != g[0].startTime {
        assert Fuse(g).startTime == g[ks + 1].startTime;
      }
      if Fuse(g).endTime != g[0].endTime {
        assert Fuse(g).endTime == g[ke + 1].endTime;
      }
      assert Texts(g) == g[0].text + Texts(g[1..]);
    } else {
      assert Texts(g) == g[0].text + Texts(g[1..]);
    }
  }

  /** Fusing two adjacent runs is fusing their concatenation. */
  lemma {:induction false} FuseConcat(a: seq<Seg>, b: seq<Seg>)
    requires a != [] && b != []
    ensures Fuse(a + b) == Fuse2(Fuse(a), Fuse(b))
    decreases |a|
  {
    if |a| == 1 {
      assert (a + b)[1..] == b;
    } else {
      assert (a + b)[1..] == a[1..] + b;
      FuseConcat(a[1..], b);
      var x, y, z := a[0], Fuse(a[1..]), Fuse(b);
      assert Fuse2(x, Fuse2(y, z)) == Fuse2(Fuse2(x, y), z) by {
        assert x.text + (y.text + z.text) == (x.text + y.text) + z.text;
      }
    }
  }

  lemma FlattenOne<T>(g: seq<T>)
    ensures Flatten([g]) == g
  {
    assert Flatten([g]) == g + Flatten<T>([]);
  }

  lemma FlattenAround<T>(pre: seq<seq<T>>, mid: seq<seq<T>>, post: seq<seq<T>>)
    ensures Flatten(pre + mid + post) == Flatten(pre) + Flatten(mid) + Flatten(post)
  {
    FlattenConcat(pre + mid, post);
    FlattenConcat(pre, mid);
  }

  lemma FlattenPair<T>(a: seq<T>, b: seq<T>)
    ensures Flatten([a, b]) == Flatten([a + b])
  {
    FlattenConcat([a], [b]);
    assert [a, b] == [a] + [b];
    FlattenOne(a);
    FlattenOne(b);
    FlattenOne(a + b);
  }

  /** Joining two adjacent groups `a` and `b` anywhere in a list leaves it flattening the same. */
  lemma FlattenJoinAround<T>(pre: seq<seq<T>>, a: seq<T>, b: seq<T>, post: seq<seq<T>>)
    ensures Flatten(pre + [a + b] + post) == Flatten(pre + [a, b] + post)
  {
    FlattenAround(pre, [a, b], post);
    FlattenAround(pre, [a + b], post);
    FlattenPair(a, b);
  }

  /** Joining two neighbouring groups leaves the flattened list as it was. */
  lemma FlattenJoinNeighbours<T>(groups: seq<seq<T>>, i: int)
    requires 1 <= i < |groups|
    ensures Flatten(groups[..i - 1] + [groups[i - 1] + groups[i]] + groups[i + 1..]) == Flatten(groups)
  {
    var pre, a, b, post := groups[..i - 1], groups[i - 1], groups[i], groups[i + 1..];
    assert groups == pre + [a, b] + post;
    FlattenJoinAround(pre, a, b, post);
  }

  /** Merging output segments `i - 1` and `i` corresponds to joining their runs. */
  lemma MergeFused(orig: seq<Seg>, segs: seq<Seg>, groups: seq<seq<Seg>>, i: int)
    requires 1 <= i < |segs| && FusedFrom(orig, segs, groups)
    ensures FusedFrom(orig, MergeWithNext(segs, i - 1), groups[..i - 1] + [groups[i - 1] + groups[i]] + groups[i + 1..])
  {
    var r := MergeWithNext(segs, i - 1);
    var g2 := groups[..i - 1] + [groups[i - 1] + groups[i]] + groups[i + 1..];
    FuseConcat(groups[i - 1], groups[i]);
    FlattenJoinNeighbours(groups, i);
    forall j | 0 <= j < |r| ensures r[j] == Fuse(g2[j]) && g2[j] != [] {
      if j < i - 1 {
        assert r[j] == segs[j] && g2[j] == groups[j];
      } else if j > i - 1 {
        assert r[j] == segs[j + 1] && g2[j] == groups[j + 1];
      }
    }
  }

  /** A step keeps the output a fusion of consecutive runs of the input. */
  lemma StepFused(orig: seq<Seg>, segs: seq<Seg>, groups: seq<seq<Seg>>, i: int)
    requires 1 <= i < |segs| && FusedFrom(orig, segs, groups)
    ensures var g2 := if ShouldMerge(segs[i - 1], segs[i]) then groups[..i - 1] + [groups[i - 1] + groups[i]] + groups[i + 1..] else groups;
      FusedFrom(orig, Step(segs, i), g2)
  {
    if ShouldMerge(segs[i - 1], segs[i]) {
      MergeFused(orig, segs, groups, i);
    }
  }

  /** The iterations from `i` down keep the output a fusion of consecutive runs. */
  lemma {:induction false} OptimizeFromFused(orig: seq<Seg>, segs: seq<Seg>, groups: seq<seq<Seg>>, i: int)
      returns (final: seq<seq<Seg>>)
    requires i < |segs| && FusedFrom(orig, segs, groups)
    ensures FusedFrom(orig, OptimizeFrom(segs, i), final)
    decreases i
  {
    if i <= 0 {
      final := groups;
    } else {
      StepFused(orig, segs, groups, i);
      var g2 := if ShouldMerge(segs[i - 1], segs[i]) then groups[..i - 1] + [groups[i - 1] + groups[i]] + groups[i + 1..] else groups;
      final := OptimizeFromFused(orig, Step(segs, i), g2, i - 1);
    }
  }

  /**
   * The pass only fuses neighbours: its output is the input cut into runs of
   * consecutive segments, each run fused into one segment. In particular the
   * joined text is unchanged and every output segment spans its run.
   */
  lemma OptimizeIsFusion(segs: seq<Seg>) returns (groups: seq<seq<Seg>>)
    ensures FusedFrom(segs, Optimize(segs), groups)
  {
    SinglesFused(segs);
    groups := OptimizeFromFused(segs, segs, Singles(segs), |segs| - 1);
  }

  /** Every segment in a run of its own. */
  function Singles(segs: seq<Seg>): seq<seq<Seg>>
  {
    if segs == [] then [] else [[segs[0]]] + Singles(segs[1..])
  }

  /** Before the first step, the output is the input with every segment fused from itself alone. */
  lemma {:induction false} SinglesFused(segs: seq<Seg>)
    ensures FusedFrom(segs, segs, Singles(segs))
  {
    if segs != [] {
      SinglesFused(segs[1..]);
      var gs := Singles(segs);
      assert gs[1..] == Singles(segs[1..]);
      assert Flatten(gs) == segs by {
        assert Flatten(gs) == [segs[0]] + Flatten(gs[1..]);
        assert segs == [segs[0]] + segs[1..];
      }
      forall j | 0 <= j < |segs| ensures gs[j] != [] && segs[j] == Fuse(gs[j]) {
        if j > 0 {
          assert gs[j] == Singles(segs[1..])[j - 1] && segs[j] == segs[1..][j - 1];
        }
      }
    }
  }

  /** Fusing runs keeps the joined text. */
  lemma {:induction false} FusedTexts(segs: seq<Seg>, r: seq<Seg>, groups: seq<seq<Seg>>)
    requires FusedFrom(segs, r, groups)
    ensures Texts(r) == Texts(segs)
    decreases |groups|
  {
    if groups != [] {
      FuseSpan(groups[0]);
      var rest := Flatten(groups[1..]);
      assert FusedFrom(rest, r[1..], groups[1..]) by {
        forall j | 0 <= j < |r[1..]| ensures r[1..][j] == Fuse(groups[1..][j]) && groups[1..][j] != [] {
          assert r[1..][j] == r[j + 1];
        }
      }
      FusedTexts(rest, r[1..], groups[1..]);
      TextsConcat(groups[0], rest);
    }
  }

  /** The pass keeps the joined text, never lengthens the list, and leaves a non-empty list non-empty. */
  lemma OptimizeKeepsText(segs: seq<Seg>)
    ensures Texts(Optimize(segs)) == Texts(segs)
    ensures |Optimize(segs)| <= |segs| && (segs != [] ==> Optimize(segs) != [])
  {
    var groups := OptimizeIsFusion(segs);
    FusedTexts(segs, Optimize(segs), groups);
    FlattenLength(groups);
  }

  lemma {:induction false} FlattenLength(groups: seq<seq<Seg>>)
    requires NonEmptyGroups(groups)
    ensures |groups| <= |Flatten(groups)| && (groups != [] ==> Flatten(groups) != [])
  {
    if groups != [] {
      FlattenLength(groups[1..]);
    }
  }
}
