/**
 * The recognised-speech segment (`ASRDataSeg`) and the list helpers the
 * splitter builds on: joining texts, flattening groups, and the silence
 * between two neighbouring segments.
 */
module Segments {

  /** One recognised piece of text and its time span, in integer milliseconds. */
  datatype Seg = Seg(text: string, startTime: int, endTime: int)

  function Last<T>(s: seq<T>): T
    requires s != []
  {
    s[|s| - 1]
  }

  /** `''.join(seg.text for seg in segs)`. */
  function Texts(segs: seq<Seg>): string
  {
    if segs == [] then "" else segs[0].text + Texts(segs[1..])
  }

  /** The groups laid end to end. */
  function Flatten<T>(groups: seq<seq<T>>): seq<T>
  {
    if groups == [] then [] else groups[0] + Flatten(groups[1..])
  }

  /** The silence between segment `i` and segment `i + 1` (negative when they overlap). */
  function Gap(segs: seq<Seg>, i: nat): int
    requires i + 1 < |segs|
  {
    segs[i + 1].startTime - segs[i].endTime
  }

  lemma {:induction false} TextsConcat(a: seq<Seg>, b: seq<Seg>)
    ensures Texts(a + b) == Texts(a) + Texts(b)
  {
    if a == [] {
      assert a + b == b;
    } else {
      assert (a + b)[1..] == a[1..] + b;
      TextsConcat(a[1..], b);
    }
  }

  lemma {:induction false} FlattenConcat<T>(a: seq<seq<T>>, b: seq<seq<T>>)
    ensures Flatten(a + b) == Flatten(a) + Flatten(b)
  {
    if a == [] {
      assert a + b == b;
    } else {
      assert (a + b)[1..] == a[1..] + b;
      FlattenConcat(a[1..], b);
    }
  }

  lemma FlattenAppend<T>(a: seq<seq<T>>, g: seq<T>)
    ensures Flatten(a + [g]) == Flatten(a) + g
  {
    FlattenConcat(a, [g]);
    assert Flatten([g]) == g + Flatten([g][1..]);
  }

  /** Every group is non-empty. */
  predicate NonEmptyGroups<T>(groups: seq<seq<T>>) {
    forall k :: 0 <= k < |groups| ==> groups[k] != []
  }

  lemma NonEmptyConcat<T>(a: seq<seq<T>>, b: seq<seq<T>>)
    requires NonEmptyGroups(a) && NonEmptyGroups(b)
    ensures NonEmptyGroups(a + b)
  {
    forall k | 0 <= k < |a + b| ensures (a + b)[k] != [] {
      if k < |a| {
        assert (a + b)[k] == a[k];
      } else {
        assert (a + b)[k] == b[k - |a|];
      }
    }
  }
}
