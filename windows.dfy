/**
 * The window sizes `merge_segments_based_on_sentences` tries for one
 * sentence (spliter.py:103-105): every size in `[lo, hi]`, closest to the
 * sentence's word count first, and the smaller of two equally close sizes
 * first (Python's `sorted` is stable and the range is increasing).
 */
module Windows {

  function Dist(x: int, c: int): nat {
    if x >= c then x - c else c - x
  }

  /** The order of `sorted(range(lo, hi + 1), key=lambda x: abs(x - c))`. */
  predicate KeyLess(x: int, y: int, c: int) {
    Dist(x, c) < Dist(y, c) || (Dist(x, c) == Dist(y, c) && x < y)
  }

  predicate SortedByKey(s: seq<int>, c: int) {
    forall i, j :: 0 <= i < j < |s| ==> KeyLess(s[i], s[j], c)
  }

  /** The sizes at distance exactly `d` from `c`, the smaller first. */
  function AtDistance(lo: int, hi: int, c: int, d: nat): (r: seq<int>)
    ensures forall x :: x in r <==> lo <= x <= hi && Dist(x, c) == d
    ensures SortedByKey(r, c)
  {
    (if lo <= c - d <= hi then [c - d] else [])
    + (if d > 0 && lo <= c + d <= hi then [c + d] else [])
  }

  /** The sizes in `[lo, hi]` at distance `d` or more from `c`, in key order. */
  function FromDistance(lo: int, hi: int, c: int, d: nat): seq<int>
    decreases (if c - lo > hi - c then c - lo else hi - c) + 1 - d
  {
    if c - d < lo && c + d > hi then []
    else AtDistance(lo, hi, c, d) + FromDistance(lo, hi, c, d + 1)
  }

  lemma {:induction false} FromDistanceSpec(lo: int, hi: int, c: int, d: nat)
    ensures var r := FromDistance(lo, hi, c, d);
      (forall x :: x in r <==> lo <= x <= hi && Dist(x, c) >= d) && SortedByKey(r, c)
    decreases (if c - lo > hi - c then c - lo else hi - c) + 1 - d
  {
    if c - d < lo && c + d > hi {
      forall x | lo <= x <= hi ensures Dist(x, c) < d { }
    } else {
      FromDistanceSpec(lo, hi, c, d + 1);
      var here, rest := AtDistance(lo, hi, c, d), FromDistance(lo, hi, c, d + 1);
      var r := here + rest;
      forall i, j | 0 <= i < j < |r| ensures KeyLess(r[i], r[j], c) {
        if j < |here| {
        } else if i >= |here| {
          assert r[i] == rest[i - |here|] && r[j] == rest[j - |here|];
        } else {
          assert r[i] == here[i] && here[i] in here;
          assert r[j] == rest[j - |here|] && rest[j - |here|] in rest;
        }
      }
    }
  }

  /** `sorted(range(lo, hi + 1), key=lambda x: abs(x - c))`. */
  function WindowSizes(lo: int, hi: int, c: int): (r: seq<int>)
  {
    FromDistance(lo, hi, c, 0)
  }

  /**
   * The sizes tried are exactly `lo .. hi`, each once, in order of distance
   * from `c` and, at equal distance, increasing.
   */
  lemma WindowSizesIsStableSort(lo: int, hi: int, c: int)
    ensures var r := WindowSizes(lo, hi, c);
      (forall x :: x in r <==> lo <= x <= hi)
      && SortedByKey(r, c)
      && (forall i, j :: 0 <= i < j < |r| ==> r[i] != r[j])
  {
    FromDistanceSpec(lo, hi, c, 0);
  }
}
