/**
 * `count_words` (spliter.py:25-67): a script-aware unit counter. Every
 * character in one of ten code-point ranges (CJK ideographs, kana, Hangul,
 * Thai, Arabic, Cyrillic, Hebrew, Latin Extended Additional) counts as one
 * unit and is blanked out; what is left is counted by whitespace tokens.
 */
module WordCount {
  import opened Text

  /** An inclusive range of code points, as in the character class `[\uXXXX-\uYYYY]`. */
  datatype Range = Range(lo: int, hi: int)

  /** The ten script ranges, in the order in which `count_words` applies them. */
  const Ranges: seq<Range> := [
    Range(0x4E00, 0x9FFF),  // CJK unified ideographs
    Range(0x3040, 0x309F),  // hiragana
    Range(0x30A0, 0x30FF),  // katakana
    Range(0xAC00, 0xD7AF),  // Hangul syllables
    Range(0x0E00, 0x0E7F),  // Thai
    Range(0x0600, 0x06FF),  // Arabic
    Range(0x0400, 0x04FF),  // Cyrillic
    Range(0x0590, 0x05FF),  // Hebrew
    Range(0x1E00, 0x1EFF),  // Latin Extended Additional (Vietnamese)
    Range(0x3130, 0x318F)   // Hangul compatibility jamo
  ]

  predicate InRange(c: char, r: Range) {
    r.lo <= c as int <= r.hi
  }

  /** The character lies in one of the ranges `rs`. */
  predicate InAny(c: char, rs: seq<Range>)
  {
    exists k :: 0 <= k < |rs| && InRange(c, rs[k])
  }

  /** A character that `count_words` counts as one unit on its own. */
  predicate IsScriptChar(c: char) {
    InAny(c, Ranges)
  }

  /** `len(re.findall(pattern, s))` for the pattern of range `r`. */
  function CountIn(s: string, r: Range): (n: nat)
    ensures n <= |s|
  {
    if s == [] then 0 else (if InRange(s[0], r) then 1 else 0) + CountIn(s[1..], r)
  }

  /** `re.sub(pattern, ' ', s)` for the pattern of range `r`. */
  function Blank(s: string, r: Range): (b: string)
    ensures |b| == |s|
    ensures forall i :: 0 <= i < |s| ==> b[i] == if InRange(s[i], r) then ' ' else s[i]
  {
    seq(|s|, i requires 0 <= i < |s| => if InRange(s[i], r) then ' ' else s[i])
  }

  /** The number of characters of `s` that lie in one of the ranges `rs`. */
  function CountInAny(s: string, rs: seq<Range>): nat
  {
    if s == [] then 0 else (if InAny(s[0], rs) then 1 else 0) + CountInAny(s[1..], rs)
  }

  /** `s` with every character of the ranges `rs` replaced by a space. */
  function MaskWith(s: string, rs: seq<Range>): (m: string)
    ensures |m| == |s|
    ensures forall i :: 0 <= i < |s| ==> m[i] == if InAny(s[i], rs) then ' ' else s[i]
  {
    seq(|s|, i requires 0 <= i < |s| => if InAny(s[i], rs) then ' ' else s[i])
  }

  /**
   * The value of `count_words` as its passes compute it: the script
   * characters, plus the whitespace tokens of what is left once they are
   * blanked out.
   */
  function MaskedCount(s: string): nat
  {
    CountInAny(s, Ranges) + |Split(MaskWith(s, Ranges))|
  }

  /**
   * The same count read off in one scan: each script character is one unit,
   * and so is each maximal run of characters that are neither whitespace nor
   * script characters. `inRun` says a run is open before `s`.
   */
  function Units(s: string, inRun: bool): nat
    decreases |s|
  {
    if s == [] then 0
    else if IsScriptChar(s[0]) then 1 + Units(s[1..], false)
    else if IsSpace(s[0]) then Units(s[1..], false)
    else (if inRun then 0 else 1) + Units(s[1..], true)
  }

  /** `count_words(s)`. */
  function Words(s: string): nat
  {
    Units(s, false)
  }

  /** Scanning and blank-then-split agree, whatever token has been read so far. */
  lemma {:induction false} UnitsMasked(s: string, cur: string)
    ensures CountInAny(s, Ranges) + |SplitFrom(MaskWith(s, Ranges), cur)|
      == Units(s, cur != []) + (if cur != [] then 1 else 0)
    decreases |s|
  {
    var m := MaskWith(s, Ranges);
    if s != [] {
      assert m[1..] == MaskWith(s[1..], Ranges);
      if IsScriptChar(s[0]) || IsSpace(s[0]) {
        assert IsSpace(m[0]);
        UnitsMasked(s[1..], []);
      } else {
        assert m[0] == s[0];
        UnitsMasked(s[1..], cur + [s[0]]);
      }
    }
  }

  /** The one-scan count is the value `count_words` computes. */
  lemma WordsIsMaskedCount(s: string)
    ensures Words(s) == MaskedCount(s)
  {
    UnitsMasked(s, []);
  }

  /** The ranges are pairwise disjoint. */
  lemma RangesDisjoint()
    ensures forall i, j :: 0 <= i < j < |Ranges| ==> Ranges[i].hi < Ranges[j].lo || Ranges[j].hi < Ranges[i].lo
  {
  }

  lemma {:induction false} CountInAfterMask(s: string, rs: seq<Range>, r: Range)
    requires !InRange(' ', r)
    requires forall j :: 0 <= j < |rs| ==> rs[j].hi < r.lo || r.hi < rs[j].lo
    ensures CountIn(MaskWith(s, rs), r) == CountIn(s, r)
  {
    if s != [] {
      assert MaskWith(s, rs)[1..] == MaskWith(s[1..], rs);
      CountInAfterMask(s[1..], rs, r);
    }
  }

  lemma {:induction false} CountInAnyExtend(s: string, rs: seq<Range>, r: Range)
    requires forall j :: 0 <= j < |rs| ==> rs[j].hi < r.lo || r.hi < rs[j].lo
    ensures CountInAny(s, rs + [r]) == CountInAny(s, rs) + CountIn(s, r)
  {
    if s != [] {
      CountInAnyExtend(s[1..], rs, r);
      var c := s[0];
      if InRange(c, r) {
        assert (rs + [r])[|rs|] == r;
      }
      if InAny(c, rs + [r]) {
        var k :| 0 <= k < |rs + [r]| && InRange(c, (rs + [r])[k]);
        if k < |rs| { assert (rs + [r])[k] == rs[k]; }
      }
      if InAny(c, rs) {
        var k :| 0 <= k < |rs| && InRange(c, rs[k]);
        assert (rs + [r])[k] == rs[k];
      }
    }
  }

  lemma BlankAfterMask(s: string, rs: seq<Range>, r: Range)
    requires !InRange(' ', r)
    ensures Blank(MaskWith(s, rs), r) == MaskWith(s, rs + [r])
  {
    forall i | 0 <= i < |s| ensures Blank(MaskWith(s, rs), r)[i] == MaskWith(s, rs + [r])[i] {
      var c := s[i];
      if InAny(c, rs) {
        var k :| 0 <= k < |rs| && InRange(c, rs[k]);
        assert (rs + [r])[k] == rs[k];
      } else if InRange(c, r) {
        assert (rs + [r])[|rs|] == r;
      } else {
        assert forall k :: 0 <= k < |rs + [r]| ==> (rs + [r])[k] == if k < |rs| then rs[k] else r;
      }
    }
  }

  lemma {:induction false} CountInNone(s: string)
    ensures CountInAny(s, []) == 0 && MaskWith(s, []) == s
  {
    if s != [] {
      CountInNone(s[1..]);
    }
  }

  /**
   * `count_words`: one pass per script range, each counting that range's
   * characters in the current text and then blanking them out.
   */
  method CountWords(text: string) returns (n: nat)
    ensures n == CountInAny(text, Ranges) + |Split(MaskWith(text, Ranges))|
    ensures n == Words(text)
  {
    WordsIsMaskedCount(text);
    RangesDisjoint();
    CountInNone(text);
    var nonEnglish := 0;
    var remaining := text;
    var k := 0;
    while k < |Ranges|
      invariant 0 <= k <= |Ranges|
      invariant remaining == MaskWith(text, Ranges[..k])
      invariant nonEnglish == CountInAny(text, Ranges[..k])
    {
      var r := Ranges[k];
      assert !InRange(' ', r);
      assert Ranges[..k + 1] == Ranges[..k] + [r];
      CountInAfterMask(text, Ranges[..k], r);
      CountInAnyExtend(text, Ranges[..k], r);
      BlankAfterMask(text, Ranges[..k], r);
      var chars := CountIn(remaining, r);
      nonEnglish := nonEnglish + chars;
      remaining := Blank(remaining, r);
      k := k + 1;
    }
    assert Ranges[..k] == Ranges;
    StripTokens(remaining);
    var englishWords := |Split(Strip(remaining))|;
    n := nonEnglish + englishWords;
  }

  /** Text without script characters counts exactly its whitespace tokens. */
  lemma {:induction false} WordsWithoutScript(s: string)
    requires forall i :: 0 <= i < |s| ==> !IsScriptChar(s[i])
    ensures Words(s) == |Split(s)|
  {
    WordsIsMaskedCount(s);
    assert MaskWith(s, Ranges) == s;
    CountInAnyZero(s);
  }

  lemma {:induction false} CountInAnyZero(s: string)
    requires forall i :: 0 <= i < |s| ==> !IsScriptChar(s[i])
    ensures CountInAny(s, Ranges) == 0
  {
    if s != [] {
      assert !IsScriptChar(s[0]);
      CountInAnyZero(s[1..]);
    }
  }

  /** Text made only of script characters counts one unit per character. */
  lemma {:induction false} WordsAllScript(s: string)
    requires forall i :: 0 <= i < |s| ==> IsScriptChar(s[i])
    ensures Words(s) == |s|
  {
    WordsIsMaskedCount(s);
    CountInAnyAll(s);
    var m := MaskWith(s, Ranges);
    assert forall i :: 0 <= i < |m| ==> IsSpace(m[i]);
    SplitFromAllSpace(m);
  }

  lemma {:induction false} CountInAnyAll(s: string)
    requires forall i :: 0 <= i < |s| ==> IsScriptChar(s[i])
    ensures CountInAny(s, Ranges) == |s|
  {
    if s != [] {
      assert IsScriptChar(s[0]);
      CountInAnyAll(s[1..]);
    }
  }

  lemma MaskedCountOfLatinText()
    ensures MaskedCount("hello world") == 2
  {
    WordsIsMaskedCount("hello world");
    LatinTextHasNoScript();
    WordsWithoutScript("hello world");
    LatinTextTokens();
  }

  lemma LatinTextHasNoScript()
    ensures forall i :: 0 <= i < |"hello world"| ==> !IsScriptChar("hello world"[i])
  {
    var s := "hello world";
    forall i | 0 <= i < |s| ensures !IsScriptChar(s[i]) {
      assert s[i] as int < 0x400;
    }
  }

  lemma LatinTextTokens()
    ensures Split("hello world") == ["hello", "world"]
  {
    assert AllTokens(["hello", "world"]);
    assert "hello world" == Join(["hello", "world"]);
    SplitJoin(["hello", "world"]);
  }

  lemma MaskedCountOfMixedText()
    ensures MaskedCount("\U{4F60}\U{597D} world") == 3
  {
    var s := "\U{4F60}\U{597D} world";
    MixedTextCount();
    MixedTextMask();
    SplitLeadingSpaces("   ", "world");
    assert "world" == Join(["world"]);
    SplitJoin(["world"]);
  }

  lemma MixedTextCount()
    ensures CountInAny("\U{4F60}\U{597D} world", Ranges) == 2
  {
    var s := "\U{4F60}\U{597D} world";
    assert InRange(s[0], Ranges[0]) && InRange(s[1], Ranges[0]);
    assert s[1..][1..] == s[2..];
    forall i | 0 <= i < |s[2..]| ensures !IsScriptChar(s[2..][i]) {
      assert s[2..][i] as int < 0x400;
    }
    CountInAnyZero(s[2..]);
  }

  lemma MixedTextMask()
    ensures MaskWith("\U{4F60}\U{597D} world", Ranges) == "   " + "world"
  {
    var s := "\U{4F60}\U{597D} world";
    assert InRange(s[0], Ranges[0]) && InRange(s[1], Ranges[0]);
    forall i | 2 <= i < |s| ensures !IsScriptChar(s[i]) {
      assert s[i] as int < 0x400;
    }
  }

  /** Stripping the text does not change its count. */
  lemma {:induction false} WordsStrip(s: string)
    ensures Words(Strip(s)) == Words(s)
    decreases |s|
  {
    if s != [] && IsSpace(s[0]) {
      WordsStrip(s[1..]);
    } else if s != [] && IsSpace(s[|s| - 1]) {
      var x := s[..|s| - 1];
      assert s == x + [s[|s| - 1]];
      UnitsTrailingSpace(x, s[|s| - 1], false);
      WordsStrip(x);
    }
  }

  lemma {:induction false} UnitsTrailingSpace(x: string, c: char, inRun: bool)
    requires IsSpace(c)
    ensures Units(x + [c], inRun) == Units(x, inRun)
    decreases |x|
  {
    if x == [] {
      assert !IsScriptChar(c);
      assert Units([c], inRun) == Units([], false);
    } else {
      assert (x + [c])[0] == x[0] && (x + [c])[1..] == x[1..] + [c];
      UnitsTrailingSpace(x[1..], c, false);
      UnitsTrailingSpace(x[1..], c, true);
    }
  }
}
