/**
 * `check_time_gaps` (spliter.py:158-184): cuts an ordered run of segments
 * into groups wherever the silence between two neighbours exceeds a limit.
 */
module TimeGaps {
  import opened Segments

  /** `MAX_GAP`: the longest silence allowed inside one group, in milliseconds. */
  const MaxGap: int := 1500

  /** No silence inside `g` is longer than `maxGap`. */
  predicate GapsWithin(g: seq<Seg>, maxGap: int) {
    forall i :: 0 <= i < |g| - 1 ==> g[i + 1].startTime - g[i].endTime <= maxGap
  }

  /**
   * `groups` lists the segments of `segs` in order, in non-empty groups,
   * with a cut exactly where the silence is longer than `maxGap`.
   */
  predicate IsGapPartition(segs: seq<Seg>, groups: seq<seq<Seg>>, maxGap: int) {
    Flatten(groups) == segs
    && NonEmptyGroups(groups)
    && (forall k :: 0 <= k < |groups| ==> GapsWithin(groups[k], maxGap))
    && (forall k :: 0 <= k < |groups| - 1 ==> groups[k + 1][0].startTime - Last(groups[k]).endTime > maxGap)
  }

  /** Length of the first group: up to and including the segment before the first long silence. */
  function FirstBreak(segs: seq<Seg>, maxGap: int): (k: nat)
    requires segs != []
    ensures 1 <= k <= |segs|
    decreases |segs|
  {
    if |segs| == 1 || Gap(segs, 0) > maxGap then 1
    else 1 + FirstBreak(segs[1..], maxGap)
  }

  /** No silence inside the first group is long, and the one right after it is. */
  lemma {:induction false} FirstBreakSpec(segs: seq<Seg>, maxGap: int)
    requires segs != []
    ensures var k := FirstBreak(segs, maxGap);
      (forall i :: 0 <= i < k - 1 ==> Gap(segs, i) <= maxGap)
      && (k < |segs| ==> Gap(segs, k - 1) > maxGap)
    decreases |segs|
  {
    if |segs| > 1 && Gap(segs, 0) <= maxGap {
      FirstBreakSpec(segs[1..], maxGap);
      var k := FirstBreak(segs, maxGap);
      assert forall i :: 0 <= i < |segs| - 2 ==> Gap(segs[1..], i) == Gap(segs, i + 1);
      assert forall i :: 1 <= i < k - 1 ==> Gap(segs, i) == Gap(segs[1..], i - 1) <= maxGap;
    }
  }

  /** A reference definition of the grouping: the first group, then the groups of the rest. */
  function GapGroups(segs: seq<Seg>, maxGap: int): seq<seq<Seg>>
    decreases |segs|
  {
    if segs == [] then []
    else
      var k := FirstBreak(segs, maxGap);
      [segs[..k]] + GapGroups(segs[k..], maxGap)
  }

  /** The reference grouping is a partition by gaps. */
  lemma {:induction false} GapGroupsIsPartition(segs: seq<Seg>, maxGap: int)
    ensures IsGapPartition(segs, GapGroups(segs, maxGap), maxGap)
    decreases |segs|
  {
    if segs != [] {
      var k := FirstBreak(segs, maxGap);
      GapGroupsIsPartition(segs[k..], maxGap);
      PrependFirstGroup(segs, k, GapGroups(segs[k..], maxGap), maxGap);
    } else {
      assert Flatten<Seg>([]) == [];
    }
  }

  lemma PrependFirstGroup(segs: seq<Seg>, k: nat, rest: seq<seq<Seg>>, maxGap: int)
    requires segs != [] && k == FirstBreak(segs, maxGap)
    requires IsGapPartition(segs[k..], rest, maxGap)
    ensures IsGapPartition(segs, [segs[..k]] + rest, maxGap)
  {
    FirstBreakSpec(segs, maxGap);
    var groups := [segs[..k]] + rest;
    assert Flatten(groups) == segs by {
      assert groups[1..] == rest;
      assert segs == segs[..k] + segs[k..];
    }
    assert GapsWithin(groups[0], maxGap) by {
      assert forall i :: 0 <= i < k - 1 ==> groups[0][i + 1].startTime - groups[0][i].endTime == Gap(segs, i);
    }
    forall j | 1 <= j < |groups| ensures groups[j] != [] && GapsWithin(groups[j], maxGap) {
      assert groups[j] == rest[j - 1];
    }
    if rest != [] {
      assert rest[0][0] == Flatten(rest)[0] == segs[k];
      assert groups[1][0].startTime - Last(groups[0]).endTime == Gap(segs, k - 1);
    }
    forall j | 1 <= j < |groups| - 1 ensures groups[j + 1][0].startTime - Last(groups[j]).endTime > maxGap {
      assert groups[j] == rest[j - 1] && groups[j + 1] == rest[j];
    }
  }

  /** Every partition by gaps begins with the same first group. */
  lemma PartitionHead(segs: seq<Seg>, groups: seq<seq<Seg>>, maxGap: int)
    requires segs != [] && IsGapPartition(segs, groups, maxGap)
    ensures groups != [] && groups[0] == segs[..FirstBreak(segs, maxGap)]
    ensures IsGapPartition(segs[|groups[0]|..], groups[1..], maxGap)
  {
    HeadIsFirstGroup(segs, groups, maxGap);
    TailPartition(segs, groups, maxGap);
  }

  lemma HeadIsFirstGroup(segs: seq<Seg>, groups: seq<seq<Seg>>, maxGap: int)
    requires segs != [] && IsGapPartition(segs, groups, maxGap)
    ensures groups != [] && groups[0] == segs[..FirstBreak(segs, maxGap)]
  {
    var h := groups[0];
    var n := |h|;
    assert segs == h + Flatten(groups[1..]);
    assert forall i :: 0 <= i < n - 1 ==> Gap(segs, i) == h[i + 1].startTime - h[i].endTime;
    if n < |segs| {
      assert groups[1..] != [] && groups[1][0] == segs[n];
      assert Last(h) == segs[n - 1];
    }
    var k := FirstBreak(segs, maxGap);
    FirstBreakSpec(segs, maxGap);
    assert forall i :: 0 <= i < n - 1 ==> Gap(segs, i) <= maxGap;
    assert n < |segs| ==> Gap(segs, n - 1) > maxGap;
    assert n == k;
  }

  lemma TailPartition(segs: seq<Seg>, groups: seq<seq<Seg>>, maxGap: int)
    requires groups != [] && IsGapPartition(segs, groups, maxGap)
    ensures IsGapPartition(segs[|groups[0]|..], groups[1..], maxGap)
  {
    assert segs == groups[0] + Flatten(groups[1..]);
    assert segs[|groups[0]|..] == Flatten(groups[1..]);
    assert forall k :: 0 <= k < |groups| - 1 ==> groups[1..][k] == groups[k + 1];
  }

  /** The partition by gaps is unique. */
  lemma {:induction false} GapPartitionUnique(segs: seq<Seg>, g1: seq<seq<Seg>>, g2: seq<seq<Seg>>, maxGap: int)
    requires IsGapPartition(segs, g1, maxGap) && IsGapPartition(segs, g2, maxGap)
    ensures g1 == g2
    decreases |segs|
  {
    if segs == [] {
      EmptyPartition(g1, maxGap);
      EmptyPartition(g2, maxGap);
    } else {
      PartitionHead(segs, g1, maxGap);
      PartitionHead(segs, g2, maxGap);
      GapPartitionUnique(segs[|g1[0]|..], g1[1..], g2[1..], maxGap);
      assert g1 == [g1[0]] + g1[1..] && g2 == [g2[0]] + g2[1..];
    }
  }

  lemma EmptyPartition(groups: seq<seq<Seg>>, maxGap: int)
    requires IsGapPartition([], groups, maxGap)
    ensures groups == []
  {
    if groups != [] {
      assert false;
    }
  }

  lemma ExtendLastGroup(s: seq<Seg>, gs: seq<seq<Seg>>, c: seq<Seg>, x: Seg, maxGap: int)
    requires c != [] && IsGapPartition(s, gs + [c], maxGap)
    requires x.startTime - Last(c).endTime <= maxGap
    ensures IsGapPartition(s + [x], gs + [c + [x]], maxGap)
  {
    var before, after := gs + [c], gs + [c + [x]];
    assert Flatten(after) == s + [x] by {
      FlattenAppend(gs, c);
      FlattenAppend(gs, c + [x]);
    }
    assert before[|gs|] == c && after[|gs|] == c + [x];
    GapsWithinSnoc(c, x, maxGap);
    forall k | 0 <= k < |after| ensures after[k] != [] && GapsWithin(after[k], maxGap) {
      if k < |gs| {
        assert after[k] == before[k];
      }
    }
    forall k | 0 <= k < |after| - 1 ensures after[k + 1][0].startTime - Last(after[k]).endTime > maxGap {
      assert after[k] == before[k] && after[k + 1][0] == before[k + 1][0];
    }
  }

  lemma GapsWithinSnoc(c: seq<Seg>, x: Seg, maxGap: int)
    requires c != [] && GapsWithin(c, maxGap) && x.startTime - Last(c).endTime <= maxGap
    ensures GapsWithin(c + [x], maxGap)
  {
    var e := c + [x];
    forall i | 0 <= i < |e| - 1 ensures e[i + 1].startTime - e[i].endTime <= maxGap {
      if i < |c| - 1 {
        assert e[i] == c[i] && e[i + 1] == c[i + 1];
      }
    }
  }

  lemma StartNewGroup(s: seq<Seg>, gs: seq<seq<Seg>>, c: seq<Seg>, x: Seg, maxGap: int)
    requires c != [] && IsGapPartition(s, gs + [c], maxGap)
    requires x.startTime - Last(c).endTime > maxGap
    ensures IsGapPartition(s + [x], gs + [c] + [[x]], maxGap)
  {
    FlattenAppend(gs, c);
    FlattenAppend(gs + [c], [x]);
    var before, after := gs + [c], gs + [c] + [[x]];
    assert forall k :: 0 <= k < |before| ==> after[k] == before[k];
  }

  /**
   * `check_time_gaps`: one pass that closes the current group whenever the
   * silence before the next segment exceeds `maxGap`.
   */
  method CheckTimeGaps(segs: seq<Seg>, maxGap: int) returns (result: seq<seq<Seg>>)
    ensures segs == [] ==> result == []
    ensures IsGapPartition(segs, result, maxGap)
  {
    if segs == [] {
      return [];
    }
    result := [];
    var currentGroup := [segs[0]];
    assert Flatten([currentGroup]) == currentGroup + Flatten<Seg>([]);
    assert [] + [currentGroup] == [currentGroup];
    var i := 1;
    while i < |segs|
      invariant 1 <= i <= |segs|
      invariant currentGroup != [] && Last(currentGroup) == segs[i - 1]
      invariant IsGapPartition(segs[..i], result + [currentGroup], maxGap)
    {
      var timeGap := segs[i].startTime - segs[i - 1].endTime;
      assert segs[..i + 1] == segs[..i] + [segs[i]];
      if timeGap > maxGap {
        StartNewGroup(segs[..i], result, currentGroup, segs[i], maxGap);
        result := result + [currentGroup];
        currentGroup := [];
        assert currentGroup + [segs[i]] == [segs[i]];
      } else {
        ExtendLastGroup(segs[..i], result, currentGroup, segs[i], maxGap);
      }
      currentGroup := currentGroup + [segs[i]];
      i := i + 1;
    }
    assert segs[..i] == segs;
    if currentGroup != [] {
      result := result + [currentGroup];
    }
  }

  /** The single pass agrees with the reference definition. */
  lemma CheckTimeGapsIsGapGroups(segs: seq<Seg>, groups: seq<seq<Seg>>, maxGap: int)
    requires IsGapPartition(segs, groups, maxGap)
    ensures groups == GapGroups(segs, maxGap)
  {
    GapGroupsIsPartition(segs, maxGap);
    GapPartitionUnique(segs, groups, GapGroups(segs, maxGap), maxGap);
  }
}
