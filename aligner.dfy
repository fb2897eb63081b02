/**
 * `merge_segments_based_on_sentences` (spliter.py:77-155): walks the
 * recognised segments with a cursor and, for each sentence in turn, looks
 * for the run of segments whose joined text is most similar to it. A run
 * that is similar enough is merged (cut again at long silences and at long
 * texts) and the cursor moves past it; otherwise the search widens.
 *
 * The similarity measure (`difflib.SequenceMatcher(...).ratio()`) is the
 * parameter `sim`; like `ratio()` it never exceeds 1.
 */
module Aligner {
  import opened Text
  import opened WordCount
  import opened Segments
  import opened TimeGaps
  import opened LongSplit
  import opened Windows
  import opened Chunker

  /** The similarity a run must reach to be accepted. */
  const Threshold: real := 0.5

  /** How far past the cursor a run may start after an accepted sentence. */
  const ShiftAfterMatch: int := 30

  /** How far past the cursor a run may start after a rejected sentence. */
  const ShiftAfterMiss: int := 100

  /** One past the last start tried for runs of `size` segments. */
  function MaxStart(asrIndex: int, maxShift: int, asrLen: int, size: int): int {
    Min(asrIndex + maxShift + 1, asrLen - size + 1)
  }

  /** The run lengths tried for a sentence of `wordCount` words, in the order tried. */
  function Sizes(segs: seq<Seg>, asrIndex: int, wordCount: nat): seq<int> {
    WindowSizes(Max(1, wordCount / 2), Min(wordCount * 2, |segs| - asrIndex), wordCount)
  }

  /** The run of `size` segments from `start` is one the search tries (`v` indexes the sizes). */
  predicate Tried(segs: seq<Seg>, sizes: seq<int>, asrIndex: int, maxShift: int, v: int, start: int) {
    0 <= v < |sizes| && 1 <= sizes[v] && 0 <= asrIndex <= start < MaxStart(asrIndex, maxShift, |segs|, sizes[v])
  }

  /** The similarity of the normalised sentence and the normalised joined run. */
  function Ratio(segs: seq<Seg>, sentence: string, sim: (string, string) -> real, start: int, size: int): real
    requires 0 <= start && 0 <= size && start + size <= |segs|
  {
    sim(sentence, Normalize(Texts(segs[start..start + size])))
  }

  /** Some run the search tries is similar enough to the sentence. */
  ghost predicate Matches(segs: seq<Seg>, sentence: string, wordCount: nat, asrIndex: int, maxShift: int, sim: (string, string) -> real) {
    var sizes := Sizes(segs, asrIndex, wordCount);
    exists v, start :: Tried(segs, sizes, asrIndex, maxShift, v, start)
      && Ratio(segs, sentence, sim, start, sizes[v]) >= Threshold
  }

  /** Every run length tried is at least one. */
  lemma SizesPositive(segs: seq<Seg>, asrIndex: int, wordCount: nat)
    ensures var sizes := Sizes(segs, asrIndex, wordCount);
      forall v :: 0 <= v < |sizes| ==> sizes[v] >= 1
  {
    var sizes := Sizes(segs, asrIndex, wordCount);
    WindowSizesIsStableSort(Max(1, wordCount / 2), Min(wordCount * 2, |segs| - asrIndex), wordCount);
    forall v | 0 <= v < |sizes| ensures sizes[v] >= 1 {
      assert sizes[v] in sizes;
    }
  }

  /**
   * The search's best so far is consistent: when something was found it is
   * the run `(pos, size)` (size number `bestV` in search order), it scores
   * `ratio > 0`, and every run tried before it scores less.
   */
  ghost predicate Sound(segs: seq<Seg>, sentence: string, sim: (string, string) -> real, sizes: seq<int>, asrIndex: int, maxShift: int,
                  ratio: real, pos: int, size: int, found: bool, bestV: int) {
    (found ==>
      Tried(segs, sizes, asrIndex, maxShift, bestV, pos) && sizes[bestV] == size
      && ratio == Ratio(segs, sentence, sim, pos, size) && ratio > 0.0
      && forall v, p :: Tried(segs, sizes, asrIndex, maxShift, v, p) && (v < bestV || (v == bestV && p < pos)) ==>
        Ratio(segs, sentence, sim, p, sizes[v]) < ratio)
    && (!found ==> ratio == 0.0)
    && ratio <= 1.0
  }

  /** Every run before size number `w`, start `start` in search order scores at most `ratio`. */
  ghost predicate Covers(segs: seq<Seg>, sentence: string, sim: (string, string) -> real, sizes: seq<int>, asrIndex: int, maxShift: int,
                   w: int, start: int, ratio: real) {
    forall v, p :: Tried(segs, sizes, asrIndex, maxShift, v, p) && (v < w || (v == w && p < start)) ==>
      Ratio(segs, sentence, sim, p, sizes[v]) <= ratio
  }

  /** A run scored no higher than the best so far extends what the best covers. */
  lemma CoversNext(segs: seq<Seg>, sentence: string, sim: (string, string) -> real, sizes: seq<int>, asrIndex: int, maxShift: int,
                   w: int, start: int, ratio: real, best: real)
    requires Covers(segs, sentence, sim, sizes, asrIndex, maxShift, w, start, ratio)
    requires Tried(segs, sizes, asrIndex, maxShift, w, start)
    requires ratio <= best && Ratio(segs, sentence, sim, start, sizes[w]) <= best
    ensures Covers(segs, sentence, sim, sizes, asrIndex, maxShift, w, start + 1, best)
  {
  }

  /** A run that scores higher than every run before it is the new best. */
  lemma SoundImprove(segs: seq<Seg>, sentence: string, sim: (string, string) -> real, sizes: seq<int>, asrIndex: int, maxShift: int,
                     w: int, start: int, ratio0: real, pos0: int, size0: int, found0: bool, v0: int)
    requires Sound(segs, sentence, sim, sizes, asrIndex, maxShift, ratio0, pos0, size0, found0, v0)
    requires Covers(segs, sentence, sim, sizes, asrIndex, maxShift, w, start, ratio0)
    requires Tried(segs, sizes, asrIndex, maxShift, w, start)
    requires Ratio(segs, sentence, sim, start, sizes[w]) > ratio0
    requires Ratio(segs, sentence, sim, start, sizes[w]) <= 1.0
    ensures Sound(segs, sentence, sim, sizes, asrIndex, maxShift, Ratio(segs, sentence, sim, start, sizes[w]), start, sizes[w], true, w)
  {
  }

  /** Once every start of run length number `w` is scored, the coverage moves to the next length. */
  lemma CoversRow(segs: seq<Seg>, sentence: string, sim: (string, string) -> real, sizes: seq<int>, asrIndex: int, maxShift: int,
                  w: int, start: int, ratio: real)
    requires 0 <= w < |sizes| && start >= MaxStart(asrIndex, maxShift, |segs|, sizes[w])
    requires Covers(segs, sentence, sim, sizes, asrIndex, maxShift, w, start, ratio)
    ensures Covers(segs, sentence, sim, sizes, asrIndex, maxShift, w + 1, asrIndex, ratio)
  {
  }

  /**
   * The inner search loop: every start for run length number `w`, keeping
   * the first run that scores higher than the best so far, and stopping at
   * an exact match.
   */
  method ScanStarts(segs: seq<Seg>, sentence: string, sim: (string, string) -> real, sizes: seq<int>, asrIndex: nat, maxShift: int, w: int,
                    ratio0: real, pos0: int, size0: int, found0: bool, ghost v0: int)
      returns (bestRatio: real, bestPos: int, bestSize: int, found: bool, ghost bestV: int)
    requires 0 <= w < |sizes| && sizes[w] >= 1
    requires forall a, b :: sim(a, b) <= 1.0
    requires Sound(segs, sentence, sim, sizes, asrIndex, maxShift, ratio0, pos0, size0, found0, v0)
    requires Covers(segs, sentence, sim, sizes, asrIndex, maxShift, w, asrIndex, ratio0)
    requires ratio0 < 1.0 && (found0 ==> v0 < w)
    ensures Sound(segs, sentence, sim, sizes, asrIndex, maxShift, bestRatio, bestPos, bestSize, found, bestV)
    ensures found ==> bestV <= w
    ensures bestRatio == 1.0 || Covers(segs, sentence, sim, sizes, asrIndex, maxShift, w + 1, asrIndex, bestRatio)
  {
    bestRatio, bestPos, bestSize, found, bestV := ratio0, pos0, size0, found0, v0;
    var size := sizes[w];
    var maxStart := MaxStart(asrIndex, maxShift, |segs|, size);
    var start := asrIndex;
    while start < maxStart
      invariant asrIndex <= start
      invariant Sound(segs, sentence, sim, sizes, asrIndex, maxShift, bestRatio, bestPos, bestSize, found, bestV)
      invariant found ==> bestV <= w
      invariant bestRatio < 1.0
      invariant Covers(segs, sentence, sim, sizes, asrIndex, maxShift, w, start, bestRatio)
    {
      var ratio := Ratio(segs, sentence, sim, start, size);
      assert Tried(segs, sizes, asrIndex, maxShift, w, start);
      var before := bestRatio;
      if ratio > bestRatio {
        SoundImprove(segs, sentence, sim, sizes, asrIndex, maxShift, w, start, bestRatio, bestPos, bestSize, found, bestV);
        bestRatio, bestPos, bestSize, found, bestV := ratio, start, size, true, w;
      }
      CoversNext(segs, sentence, sim, sizes, asrIndex, maxShift, w, start, before, bestRatio);
      if ratio == 1.0 {
        return;
      }
      start := start + 1;
    }
    CoversRow(segs, sentence, sim, sizes, asrIndex, maxShift, w, start, bestRatio);
  }

  /**
   * The two nested search loops: the best similarity over every run tried,
   * and the first run in search order (run length first, then start) that
   * reaches it; nothing is found when no run scores above zero.
   */
  method FindBestWindow(segs: seq<Seg>, sentence: string, wordCount: nat, asrIndex: nat, maxShift: int, sim: (string, string) -> real)
      returns (bestRatio: real, bestPos: int, bestSize: int, found: bool, ghost bestV: int)
    requires asrIndex <= |segs|
    requires forall a, b :: sim(a, b) <= 1.0
    ensures var sizes := Sizes(segs, asrIndex, wordCount);
      && (found ==>
        Tried(segs, sizes, asrIndex, maxShift, bestV, bestPos) && sizes[bestV] == bestSize
        && bestRatio == Ratio(segs, sentence, sim, bestPos, bestSize) && bestRatio > 0.0)
      && (!found ==> bestRatio == 0.0)
      && (forall v, p :: Tried(segs, sizes, asrIndex, maxShift, v, p) ==>
        Ratio(segs, sentence, sim, p, sizes[v]) <= bestRatio)
      && (found ==> forall v, p :: Tried(segs, sizes, asrIndex, maxShift, v, p) && (v < bestV || (v == bestV && p < bestPos)) ==>
        Ratio(segs, sentence, sim, p, sizes[v]) < bestRatio)
  {
    var sizes := Sizes(segs, asrIndex, wordCount);
    SizesPositive(segs, asrIndex, wordCount);
    bestRatio, bestPos, bestSize, found, bestV := 0.0, 0, 0, false, 0;
    var w := 0;
    while w < |sizes|
      invariant 0 <= w <= |sizes|
      invariant Sound(segs, sentence, sim, sizes, asrIndex, maxShift, bestRatio, bestPos, bestSize, found, bestV)
      invariant found ==> bestV < w
      invariant bestRatio < 1.0
      invariant Covers(segs, sentence, sim, sizes, asrIndex, maxShift, w, asrIndex, bestRatio)
    {
      bestRatio, bestPos, bestSize, found, bestV :=
        ScanStarts(segs, sentence, sim, sizes, asrIndex, maxShift, w, bestRatio, bestPos, bestSize, found, bestV);
      if bestRatio == 1.0 {
        return;
      }
      w := w + 1;
    }
  }

  /** One group of a merged run: its joined text, or that text cut again when it has too many words (a group is never empty). */
  function EmitGroup(g: seq<Seg>, maxWords: nat): seq<Seg>
  {
    if g == [] then []
    else
      var text := Texts(g);
      if Words(text) > maxWords then SplitLong(text, g, maxWords)
      else [Seg(text, g[0].startTime, Last(g).endTime)]
  }

  /** `EmitGroup` as a value, so that the run-level definitions below can take it as a parameter. */
  function GroupEmitter(maxWords: nat): seq<Seg> -> seq<Seg>
  {
    g => EmitGroup(g, maxWords)
  }

  /** What an accepted run becomes: its groups between long silences, each passed to `emit` in turn. */
  function Emit(run: seq<Seg>, emit: seq<Seg> -> seq<Seg>): seq<Seg>
    decreases |run|
  {
    if run == [] then []
    else
      var k := FirstBreak(run, MaxGap);
      emit(run[..k]) + Emit(run[k..], emit)
  }

  /**
   * `(pos, size)` is the run the search keeps: one it tries, scoring at least
   * as much as every run tried and strictly more than every run tried before
   * it in search order (run length first, then start).
   */
  ghost predicate IsBestRun(segs: seq<Seg>, sentence: string, wordCount: nat, asrIndex: int, maxShift: int,
                            sim: (string, string) -> real, pos: int, size: int) {
    var sizes := Sizes(segs, asrIndex, wordCount);
    exists v :: Tried(segs, sizes, asrIndex, maxShift, v, pos) && sizes[v] == size
      && (forall w, p :: Tried(segs, sizes, asrIndex, maxShift, w, p) ==>
            Ratio(segs, sentence, sim, p, sizes[w]) <= Ratio(segs, sentence, sim, pos, size))
      && (forall w, p :: Tried(segs, sizes, asrIndex, maxShift, w, p) && (w < v || (w == v && p < pos)) ==>
            Ratio(segs, sentence, sim, p, sizes[w]) < Ratio(segs, sentence, sim, pos, size))
  }

  /**
   * With a similarity that scores identical texts 1.0, a sentence equal to
   * the normalised text of a run the search tries matches, and the best run
   * it keeps scores exactly 1.0.
   */
  lemma ExactMatchAccepted(segs: seq<Seg>, sentence: string, wordCount: nat, asrIndex: int, maxShift: int,
                           sim: (string, string) -> real, v: int, start: int, pos: int, size: int)
    requires forall a, b :: sim(a, b) <= 1.0
    requires forall a :: sim(a, a) == 1.0
    requires Tried(segs, Sizes(segs, asrIndex, wordCount), asrIndex, maxShift, v, start)
    requires Normalize(Texts(segs[start..start + Sizes(segs, asrIndex, wordCount)[v]])) == sentence
    ensures Matches(segs, sentence, wordCount, asrIndex, maxShift, sim)
    ensures IsBestRun(segs, sentence, wordCount, asrIndex, maxShift, sim, pos, size) ==>
      0 <= pos && 0 <= size && pos + size <= |segs| && Ratio(segs, sentence, sim, pos, size) == 1.0
  {
    var sizes := Sizes(segs, asrIndex, wordCount);
    assert Ratio(segs, sentence, sim, start, sizes[v]) == 1.0;
    if IsBestRun(segs, sentence, wordCount, asrIndex, maxShift, sim, pos, size) {
      var w :| Tried(segs, sizes, asrIndex, maxShift, w, pos) && sizes[w] == size;
      assert Ratio(segs, sentence, sim, start, sizes[v]) <= Ratio(segs, sentence, sim, pos, size);
    }
  }

  /**
   * The acceptance test for one sentence: the best run is taken when its
   * similarity reaches `Threshold`, which happens exactly when some run tried
   * reaches it. An accepted run is the first best run of the search; it
   * starts at the cursor or at most `maxShift` segments after it.
   */
  method JudgeSentence(segs: seq<Seg>, sentence: string, wordCount: nat, asrIndex: nat, maxShift: int, sim: (string, string) -> real)
      returns (accept: bool, pos: int, size: int)
    requires asrIndex <= |segs|
    requires forall a, b :: sim(a, b) <= 1.0
    ensures accept <==> Matches(segs, sentence, wordCount, asrIndex, maxShift, sim)
    ensures accept ==> asrIndex <= pos <= asrIndex + maxShift && 1 <= size && pos + size <= |segs|
    ensures accept ==> IsBestRun(segs, sentence, wordCount, asrIndex, maxShift, sim, pos, size)
  {
    var bestRatio, bestPos, bestSize, found, bestV := FindBestWindow(segs, sentence, wordCount, asrIndex, maxShift, sim);
    ghost var sizes := Sizes(segs, asrIndex, wordCount);
    accept, pos, size := bestRatio >= Threshold && found, bestPos, bestSize;
    if accept {
      assert Tried(segs, sizes, asrIndex, maxShift, bestV, bestPos);
    }
  }

  /** What a non-empty group becomes starts where the group starts and ends where it ends. */
  lemma EmitGroupSpan(g: seq<Seg>, maxWords: nat)
    requires g != []
    ensures var out := GroupEmitter(maxWords)(g);
      out != [] && out[0].startTime == g[0].startTime && Last(out).endTime == Last(g).endTime
  {
    assert GroupEmitter(maxWords)(g) == EmitGroup(g, maxWords);
  }

  /** What a non-empty run becomes starts where the run starts and ends where it ends. */
  lemma {:induction false} EmitSpan(run: seq<Seg>, maxWords: nat)
    requires run != []
    ensures var out := Emit(run, GroupEmitter(maxWords));
      out != [] && out[0].startTime == run[0].startTime && Last(out).endTime == Last(run).endTime
    decreases |run|
  {
    var emit := GroupEmitter(maxWords);
    var k := FirstBreak(run, MaxGap);
    var head, rest := emit(run[..k]), Emit(run[k..], emit);
    assert Emit(run, emit) == head + rest;
    EmitGroupSpan(run[..k], maxWords);
    if k < |run| {
      EmitSpan(run[k..], maxWords);
      assert Last(run[k..]) == Last(run);
    } else {
      assert rest == [];
    }
  }

  /** The groups passed to `emit` one after another. */
  function EmitGroups(groups: seq<seq<Seg>>, emit: seq<Seg> -> seq<Seg>): seq<Seg>
  {
    if groups == [] then [] else emit(groups[0]) + EmitGroups(groups[1..], emit)
  }

  /** Emitting one more group appends what that group becomes. */
  lemma {:induction false} EmitGroupsSnoc(groups: seq<seq<Seg>>, g: seq<Seg>, emit: seq<Seg> -> seq<Seg>)
    ensures EmitGroups(groups + [g], emit) == EmitGroups(groups, emit) + emit(g)
    decreases |groups|
  {
    if groups == [] {
      assert [g][1..] == [];
    } else {
      assert (groups + [g])[1..] == groups[1..] + [g];
      EmitGroupsSnoc(groups[1..], g, emit);
    }
  }

  /** Emitting a run group by group, over any partition of it by gaps, is `Emit`. */
  lemma {:induction false} EmitByGroups(run: seq<Seg>, groups: seq<seq<Seg>>, emit: seq<Seg> -> seq<Seg>)
    requires IsGapPartition(run, groups, MaxGap)
    ensures Emit(run, emit) == EmitGroups(groups, emit)
    decreases |run|
  {
    if run == [] {
      EmptyPartition(groups, MaxGap);
    } else {
      PartitionHead(run, groups, MaxGap);
      EmitByGroups(run[|groups[0]|..], groups[1..], emit);
    }
  }

  /** A run `(start, size)` of at least one segment inside `segs`. */
  predicate InBounds(segs: seq<Seg>, w: (int, int)) {
    0 <= w.0 && 1 <= w.1 && w.0 + w.1 <= |segs|
  }

  predicate AllInBounds(segs: seq<Seg>, runs: seq<(int, int)>) {
    forall i :: 0 <= i < |runs| ==> InBounds(segs, runs[i])
  }

  /** Accepted runs, in order, each ending no later than the next one starts. */
  predicate Ordered(segs: seq<Seg>, runs: seq<(int, int)>) {
    AllInBounds(segs, runs)
    && (forall i :: 0 <= i < |runs| - 1 ==> runs[i].0 + runs[i].1 <= runs[i + 1].0)
  }

  /** Each run starts no more than `ShiftAfterMiss` segments after the previous one ends. */
  predicate Spaced(runs: seq<(int, int)>) {
    forall i :: 0 <= i < |runs| - 1 ==> runs[i + 1].0 <= runs[i].0 + runs[i].1 + ShiftAfterMiss
  }

  /** A run that starts where the last one ended, or a little after, keeps the runs ordered and spaced. */
  lemma ExtendRuns(segs: seq<Seg>, runs: seq<(int, int)>, start: int, size: int)
    requires Ordered(segs, runs) && Spaced(runs) && InBounds(segs, (start, size))
    requires runs != [] ==> Last(runs).0 + Last(runs).1 <= start <= Last(runs).0 + Last(runs).1 + ShiftAfterMiss
    ensures Ordered(segs, runs + [(start, size)]) && Spaced(runs + [(start, size)])
  {
    var rw := runs + [(start, size)];
    forall i | 0 <= i < |rw| ensures InBounds(segs, rw[i]) {
      if i < |runs| {
        assert rw[i] == runs[i];
      }
    }
    forall i | 0 <= i < |rw| - 1
      ensures rw[i].0 + rw[i].1 <= rw[i + 1].0 <= rw[i].0 + rw[i].1 + ShiftAfterMiss
    {
      assert rw[i] == runs[i];
      if i + 1 < |runs| {
        assert rw[i + 1] == runs[i + 1];
      }
    }
  }

  /** `Emit` with its emitter fixed, as a value: what one accepted run becomes. */
  function RunEmitter(emit: seq<Seg> -> seq<Seg>): seq<Seg> -> seq<Seg>
  {
    run => Emit(run, emit)
  }

  /** `pieces[i]` is what run `runs[i]` of `segs` becomes under `f`. */
  ghost predicate Emits(segs: seq<Seg>, runs: seq<(int, int)>, pieces: seq<seq<Seg>>, f: seq<Seg> -> seq<Seg>)
    decreases |runs|
  {
    |pieces| == |runs|
    && (runs != [] ==>
      var w := Last(runs);
      InBounds(segs, w) && Last(pieces) == f(segs[w.0..w.0 + w.1])
      && Emits(segs, runs[..|runs| - 1], pieces[..|pieces| - 1], f))
  }

  /** `Emits` read index by index. */
  lemma {:induction false} EmitsAt(segs: seq<Seg>, runs: seq<(int, int)>, pieces: seq<seq<Seg>>, f: seq<Seg> -> seq<Seg>, i: int)
    requires Emits(segs, runs, pieces, f) && 0 <= i < |runs|
    ensures InBounds(segs, runs[i]) && pieces[i] == f(segs[runs[i].0..runs[i].0 + runs[i].1])
    decreases |runs|
  {
    if i < |runs| - 1 {
      var rs, ps := runs[..|runs| - 1], pieces[..|pieces| - 1];
      EmitsAt(segs, rs, ps, f, i);
      assert rs[i] == runs[i] && ps[i] == pieces[i];
    }
  }

  lemma EmitsSnoc(segs: seq<Seg>, runs: seq<(int, int)>, pieces: seq<seq<Seg>>, start: int, size: int,
                  piece: seq<Seg>, f: seq<Seg> -> seq<Seg>)
    requires Emits(segs, runs, pieces, f) && InBounds(segs, (start, size))
    requires piece == f(segs[start..start + size])
    ensures Emits(segs, runs + [(start, size)], pieces + [piece], f)
  {
    assert (runs + [(start, size)])[..|runs|] == runs && (pieces + [piece])[..|pieces|] == pieces;
  }

  /** Adding a run emitted group by group, over its partition by gaps, extends `Emits`. */
  lemma EmitsAppend(segs: seq<Seg>, runs: seq<(int, int)>, pieces: seq<seq<Seg>>, start: int, size: int,
                    groups: seq<seq<Seg>>, piece: seq<Seg>, emit: seq<Seg> -> seq<Seg>)
    requires Emits(segs, runs, pieces, RunEmitter(emit)) && InBounds(segs, (start, size))
    requires IsGapPartition(segs[start..start + size], groups, MaxGap) && piece == EmitGroups(groups, emit)
    ensures Emits(segs, runs + [(start, size)], pieces + [piece], RunEmitter(emit))
  {
    assert piece == RunEmitter(emit)(segs[start..start + size]) by {
      EmitByGroups(segs[start..start + size], groups, emit);
    }
    EmitsSnoc(segs, runs, pieces, start, size, piece, RunEmitter(emit));
  }

  /** One group of a merged run, as the loop body emits it. */
  method MergeGroup(group: seq<Seg>, maxWords: nat) returns (out: seq<Seg>)
    requires group != []
    ensures out == GroupEmitter(maxWords)(group)
    ensures out != [] && out[0].startTime == group[0].startTime && Last(out).endTime == Last(group).endTime
    ensures Words(Texts(group)) <= maxWords ==> out == [Seg(Texts(group), group[0].startTime, Last(group).endTime)]
    ensures Words(Texts(group)) > maxWords ==>
      var blocks := Cuts(Texts(group), group, maxWords);
      Flatten(blocks) == group && NonEmptyGroups(blocks) && BlocksMerged(out, blocks, maxWords)
  {
    var mergedText := Texts(group);
    var mergedSeg := Seg(mergedText, group[0].startTime, Last(group).endTime);
    var n := CountWords(mergedText);
    if n > maxWords {
      out := SplitLong(mergedText, group, maxWords);
      CutsCover(mergedText, group, maxWords);
      HalfMerged(group, maxWords);
    } else {
      out := [mergedSeg];
    }
  }

  /** The body of the accepting branch: cut the run at long silences and emit each group. */
  method EmitMatched(run: seq<Seg>, maxWords: nat) returns (out: seq<Seg>, ghost groups: seq<seq<Seg>>)
    ensures IsGapPartition(run, groups, MaxGap)
    ensures out == EmitGroups(groups, GroupEmitter(maxWords))
  {
    var cut := CheckTimeGaps(run, MaxGap);
    groups := cut;
    out := MergeGroups(cut, maxWords);
  }

  /** The loop over the groups of one run. */
  method MergeGroups(groups: seq<seq<Seg>>, maxWords: nat) returns (out: seq<Seg>)
    requires NonEmptyGroups(groups)
    ensures out == EmitGroups(groups, GroupEmitter(maxWords))
  {
    ghost var emit := GroupEmitter(maxWords);
    out := [];
    var i := 0;
    while i < |groups|
      invariant 0 <= i <= |groups|
      invariant out == EmitGroups(groups[..i], emit)
    {
      var group := groups[i];
      var emitted := MergeGroup(group, maxWords);
      assert groups[..i + 1] == groups[..i] + [group];
      EmitGroupsSnoc(groups[..i], group, emit);
      out := out + emitted;
      i := i + 1;
    }
    assert groups[..i] == groups;
  }

  /**
   * What the accepted runs so far amount to: they are ordered and spaced, the
   * first starts within `ShiftAfterMatch` of the beginning, and `out` is their
   * emitted pieces one after another.
   */
  ghost predicate Accepted(segs: seq<Seg>, runs: seq<(int, int)>, pieces: seq<seq<Seg>>, out: seq<Seg>, maxWords: nat) {
    Ordered(segs, runs) && Spaced(runs) && (runs != [] ==> runs[0].0 <= ShiftAfterMatch)
    && out == Flatten(pieces) && Emits(segs, runs, pieces, RunEmitter(GroupEmitter(maxWords)))
  }

  /** The accepting branch: the run of `size` segments from `start` merged and added to the output. */
  method AppendRun(segs: seq<Seg>, ghost runs: seq<(int, int)>, ghost pieces: seq<seq<Seg>>, newSegments: seq<Seg>,
                   start: int, size: int, maxWords: nat)
      returns (out: seq<Seg>, ghost piece: seq<Seg>)
    requires Accepted(segs, runs, pieces, newSegments, maxWords)
    requires 0 <= start && 1 <= size && start + size <= |segs|
    requires runs == [] ==> start <= ShiftAfterMatch
    requires runs != [] ==> Last(runs).0 + Last(runs).1 <= start <= Last(runs).0 + Last(runs).1 + ShiftAfterMiss
    ensures Accepted(segs, runs + [(start, size)], pieces + [piece], out, maxWords)
  {
    ghost var groups;
    var emitted;
    emitted, groups := EmitMatched(segs[start..start + size], maxWords);
    piece := emitted;
    ExtendRuns(segs, runs, start, size);
    EmitsAppend(segs, runs, pieces, start, size, groups, piece, GroupEmitter(maxWords));
    FlattenAppend(pieces, piece);
    out := newSegments + emitted;
  }

  /** The outcome: the merged segments, or the error raised when the first sentence finds no run. */
  datatype Alignment = Aligned(segments: seq<Seg>) | NoEarlierMatch

  /**
   * One sentence's step of the alignment: from cursor `st.0` with shift
   * `st.1`, the normalised sentence `s` picks a run exactly when some tried
   * run matches it, and the run it picks is the first best one.
   */
  ghost predicate StepOK(segs: seq<Seg>, s: string, sim: (string, string) -> real, st: (int, int), pick: Option<(int, int)>) {
    (pick.Some? <==> Matches(segs, s, Words(s), st.0, st.1, sim))
    && (pick.Some? ==> IsBestRun(segs, s, Words(s), st.0, st.1, sim, pick.value.0, pick.value.1))
  }

  /** A rule for one step of a trace: normalised sentence, cursor and shift, pick. */
  type Rule = (string, (int, int), Option<(int, int)>) -> bool

  /** `StepOK` on `segs` and `sim`, as a rule for `Steps`. */
  ghost function StepRule(segs: seq<Seg>, sim: (string, string) -> real): Rule {
    (s, st, pick) => StepOK(segs, s, sim, st, pick)
  }

  /**
   * The cursor and shift after the picks so far: segment 0 with
   * `ShiftAfterMatch` at the start, just past a picked run with
   * `ShiftAfterMatch`, and the same cursor with `ShiftAfterMiss` after a
   * sentence that picks nothing.
   */
  function Cursor(picks: seq<Option<(int, int)>>): (int, int) {
    if picks == [] then (0, ShiftAfterMatch)
    else if Last(picks).Some? then (Last(picks).value.0 + Last(picks).value.1, ShiftAfterMatch)
    else (Cursor(picks[..|picks| - 1]).0, ShiftAfterMiss)
  }

  /** Each of the first `|picks|` sentences takes its step under `ok` from the cursor the earlier picks leave. */
  ghost predicate Steps(sentences: seq<string>, ok: Rule, picks: seq<Option<(int, int)>>)
    decreases |picks|
  {
    |picks| <= |sentences|
    && (picks != [] ==>
          Steps(sentences, ok, picks[..|picks| - 1])
          && ok(Normalize(sentences[|picks| - 1]), Cursor(picks[..|picks| - 1]), Last(picks)))
  }

  /** Sentence `k` of a trace takes its step from the cursor that picks `0..k` leave. */
  lemma {:induction false} StepsAt(sentences: seq<string>, ok: Rule, picks: seq<Option<(int, int)>>, k: int)
    requires Steps(sentences, ok, picks)
    requires 0 <= k < |picks|
    ensures ok(Normalize(sentences[k]), Cursor(picks[..k]), picks[k])
    decreases |picks|
  {
    var n := |picks|;
    if k < n - 1 {
      StepsAt(sentences, ok, picks[..n - 1], k);
      assert picks[..n - 1][..k] == picks[..k];
    }
  }

  /** The runs picked, in order, skipping the sentences that picked none. */
  function Chosen(picks: seq<Option<(int, int)>>): seq<(int, int)> {
    if picks == [] then []
    else Chosen(picks[..|picks| - 1]) + (if Last(picks).Some? then [Last(picks).value] else [])
  }

  lemma {:induction false} StepsSnoc(sentences: seq<string>, ok: Rule, picks: seq<Option<(int, int)>>, s: string, pick: Option<(int, int)>)
    requires Steps(sentences, ok, picks) && |picks| < |sentences|
    requires s == Normalize(sentences[|picks|]) && ok(s, Cursor(picks), pick)
    ensures Steps(sentences, ok, picks + [pick])
    ensures pick.Some? ==> Cursor(picks + [pick]).0 == pick.value.0 + pick.value.1 && Cursor(picks + [pick]).1 == ShiftAfterMatch
    ensures pick.None? ==> Cursor(picks + [pick]).0 == Cursor(picks).0 && Cursor(picks + [pick]).1 == ShiftAfterMiss
    ensures Chosen(picks + [pick]) == Chosen(picks) + (if pick.Some? then [pick.value] else [])
  {
    assert (picks + [pick])[..|picks|] == picks;
  }

  /** A sentence that matches takes its step by picking its first best run. */
  lemma StepAccept(segs: seq<Seg>, s: string, sim: (string, string) -> real, st: (int, int), pos: int, size: int)
    requires Matches(segs, s, Words(s), st.0, st.1, sim)
    requires IsBestRun(segs, s, Words(s), st.0, st.1, sim, pos, size)
    ensures StepRule(segs, sim)(s, st, Some((pos, size)))
  {
  }

  /** A sentence that does not match takes its step by picking nothing. */
  lemma StepMiss(segs: seq<Seg>, s: string, sim: (string, string) -> real, st: (int, int))
    requires !Matches(segs, s, Words(s), st.0, st.1, sim)
    ensures StepRule(segs, sim)(s, st, None)
  {
  }

  /**
   * One turn of the alignment loop: the normalised sentence's words are
   * counted and its best run judged. Whether it accepts is whether it
   * matches, and the trace `picks` grows by this sentence's step, which
   * moves the cursor as `Cursor` says.
   */
  method SentenceStep(segs: seq<Seg>, sentenceProc: string, asrIndex: nat, maxShift: int, sim: (string, string) -> real,
                      ghost sentences: seq<string>, ghost picks: seq<Option<(int, int)>>)
      returns (accept: bool, pos: int, size: int, ghost picks': seq<Option<(int, int)>>)
    requires asrIndex <= |segs|
    requires forall a, b :: sim(a, b) <= 1.0
    requires Steps(sentences, StepRule(segs, sim), picks) && |picks| < |sentences|
    requires sentenceProc == Normalize(sentences[|picks|])
    requires Cursor(picks).0 == asrIndex && Cursor(picks).1 == maxShift
    ensures accept <==> Matches(segs, sentenceProc, Words(sentenceProc), asrIndex, maxShift, sim)
    ensures accept ==> asrIndex <= pos <= asrIndex + maxShift && 1 <= size && pos + size <= |segs|
    ensures |picks'| == |picks| + 1 && Steps(sentences, StepRule(segs, sim), picks')
    ensures Chosen(picks') == Chosen(picks) + (if accept then [(pos, size)] else [])
    ensures accept ==> Cursor(picks').0 == pos + size && Cursor(picks').1 == ShiftAfterMatch
    ensures !accept ==> Cursor(picks').0 == asrIndex && Cursor(picks').1 == ShiftAfterMiss
  {
    var wordCount := CountWords(sentenceProc);
    accept, pos, size := JudgeSentence(segs, sentenceProc, wordCount, asrIndex, maxShift, sim);
    ghost var pick: Option<(int, int)>;
    if accept {
      pick := Some((pos, size));
      StepAccept(segs, sentenceProc, sim, Cursor(picks), pos, size);
    } else {
      pick := None;
      StepMiss(segs, sentenceProc, sim, Cursor(picks));
    }
    StepsSnoc(sentences, StepRule(segs, sim), picks, sentenceProc, pick);
    picks' := picks + [pick];
  }

  /**
   * The state of `merge_segments_based_on_sentences` after its first `k`
   * sentences: the cursor `asrIndex` and the shift `maxShift` are those the
   * trace `picks` leaves, `endSegIndex` is unset exactly while no run has
   * been accepted (which, past the first sentence, means the first one
   * matched), and the accepted runs are the picked ones, with `out` their
   * emitted pieces.
   */
  ghost predicate FoldInv(segs: seq<Seg>, sentences: seq<string>, maxWords: nat, sim: (string, string) -> real, k: int,
                          asrIndex: int, maxShift: int, endSegIndex: Option<int>,
                          runs: seq<(int, int)>, pieces: seq<seq<Seg>>, out: seq<Seg>, picks: seq<Option<(int, int)>>)
  {
    0 <= k <= |sentences| && 0 <= asrIndex <= |segs|
    && (k > 0 ==> endSegIndex.Some?)
    && (k > 0 ==> Matches(segs, Normalize(sentences[0]), Words(Normalize(sentences[0])), 0, ShiftAfterMatch, sim))
    && (endSegIndex.None? ==> asrIndex == 0 && runs == [])
    && (endSegIndex.Some? ==> runs != [] && asrIndex == endSegIndex.value + 1 == Last(runs).0 + Last(runs).1)
    && Accepted(segs, runs, pieces, out, maxWords)
    && |picks| == k && Steps(sentences, StepRule(segs, sim), picks) && runs == Chosen(picks)
    && Cursor(picks).0 == asrIndex && Cursor(picks).1 == maxShift
  }

  /**
   * One pass of the loop of `merge_segments_based_on_sentences`, for
   * sentence `k`: an accepted run is merged and appended, and the cursor
   * moves past it with the shift back at 30; a rejected sentence sets the
   * shift to 100 and leaves the cursor at the end of the last accepted run.
   * When no run has been accepted yet, that end is unset, and `stop` reports
   * the error the source raises there.
   */
  method AlignSentence(segs: seq<Seg>, sentences: seq<string>, maxWords: nat, sim: (string, string) -> real, k: int,
                       asrIndex: int, maxShift: int, endSegIndex: Option<int>, newSegments: seq<Seg>,
                       ghost runs: seq<(int, int)>, ghost pieces: seq<seq<Seg>>, ghost picks: seq<Option<(int, int)>>)
      returns (stop: bool, asrIndex': int, maxShift': int, endSegIndex': Option<int>, newSegments': seq<Seg>,
               ghost runs': seq<(int, int)>, ghost pieces': seq<seq<Seg>>, ghost picks': seq<Option<(int, int)>>)
    requires forall a, b :: sim(a, b) <= 1.0
    requires k < |sentences|
    requires FoldInv(segs, sentences, maxWords, sim, k, asrIndex, maxShift, endSegIndex, runs, pieces, newSegments, picks)
    ensures stop <==> k == 0 && !Matches(segs, Normalize(sentences[0]), Words(Normalize(sentences[0])), 0, ShiftAfterMatch, sim)
    ensures Steps(sentences, StepRule(segs, sim), picks')
    ensures !stop ==> FoldInv(segs, sentences, maxWords, sim, k + 1, asrIndex', maxShift', endSegIndex', runs', pieces', newSegments', picks')
  {
    var sentenceProc := Normalize(sentences[k]);
    var accept, bestPos, bestSize;
    accept, bestPos, bestSize, picks' := SentenceStep(segs, sentenceProc, asrIndex, maxShift, sim, sentences, picks);
    stop := false;
    if accept {
      var startSegIndex := bestPos;
      var end := bestPos + bestSize - 1;
      ghost var piece;
      newSegments', piece := AppendRun(segs, runs, pieces, newSegments, startSegIndex, bestSize, maxWords);
      runs', pieces' := runs + [(startSegIndex, bestSize)], pieces + [piece];
      maxShift' := ShiftAfterMatch;
      asrIndex' := end + 1;
      endSegIndex' := Some(end);
    } else {
      newSegments', runs', pieces' := newSegments, runs, pieces;
      maxShift' := ShiftAfterMiss;
      endSegIndex' := endSegIndex;
      if endSegIndex.None? {
        stop, asrIndex' := true, asrIndex;
        return;
      }
      asrIndex' := endSegIndex.value + 1;
    }
  }

  /**
   * `merge_segments_based_on_sentences`. The first sentence that finds no
   * run before any has found one reads an unset variable; the outcome is
   * then `NoEarlierMatch`. Otherwise every sentence takes one step of
   * `Steps` (it picks its first best run exactly when one matches, from the
   * cursor and shift `Cursor` gives), the runs are the picked ones in order
   * and without overlap, and the output is their emitted pieces one after
   * another.
   */
  method MergeSegmentsBasedOnSentences(segs: seq<Seg>, sentences: seq<string>, maxWords: nat, sim: (string, string) -> real)
      returns (r: Alignment, ghost runs: seq<(int, int)>, ghost pieces: seq<seq<Seg>>, ghost picks: seq<Option<(int, int)>>)
    requires forall a, b :: sim(a, b) <= 1.0
    ensures r.NoEarlierMatch? <==>
      |sentences| > 0 && !Matches(segs, Normalize(sentences[0]), Words(Normalize(sentences[0])), 0, ShiftAfterMatch, sim)
    ensures Steps(sentences, StepRule(segs, sim), picks)
    ensures r.Aligned? ==>
      |picks| == |sentences| && runs == Chosen(picks) && Accepted(segs, runs, pieces, r.segments, maxWords)
  {
    var asrIndex := 0;
    var maxShift := ShiftAfterMatch;
    var newSegments := [];
    var endSegIndex: Option<int> := None;
    runs, pieces, picks := [], [], [];
    var k := 0;
    while k < |sentences|
      invariant FoldInv(segs, sentences, maxWords, sim, k, asrIndex, maxShift, endSegIndex, runs, pieces, newSegments, picks)
    {
      var stop;
      stop, asrIndex, maxShift, endSegIndex, newSegments, runs, pieces, picks :=
        AlignSentence(segs, sentences, maxWords, sim, k, asrIndex, maxShift, endSegIndex, newSegments, runs, pieces, picks);
      if stop {
        return NoEarlierMatch, runs, pieces, picks;
      }
      k := k + 1;
    }
    r := Aligned(newSegments);
  }

  datatype Option<T> = None | Some(value: T)
}
