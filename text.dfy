/**
 * Text primitives used by the subtitle splitter: Python's notion of
 * whitespace, `str.split()` with no separator, `' '.join`, `str.strip()`,
 * `str.lower()`, and the comparison normaliser `preprocess_text`.
 */
module Text {

  /** The characters for which Python's `str.isspace()` holds. */
  predicate IsSpace(c: char) {
    var n := c as int;
    n == 0x20 || 0x09 <= n <= 0x0D || 0x1C <= n <= 0x1F || n == 0x85 || n == 0xA0
    || n == 0x1680 || 0x2000 <= n <= 0x200A || n == 0x2028 || n == 0x2029
    || n == 0x202F || n == 0x205F || n == 0x3000
  }

  /** A token of `str.split()`: non-empty, no whitespace. */
  predicate IsToken(t: string) {
    t != [] && forall i :: 0 <= i < |t| ==> !IsSpace(t[i])
  }

  predicate AllTokens(ts: seq<string>) {
    forall k :: 0 <= k < |ts| ==> IsToken(ts[k])
  }

  /** Python's `s.split()`: the maximal runs of non-whitespace, in order. */
  function Split(s: string): (r: seq<string>)
    ensures AllTokens(r)
  {
    SplitFrom(s, [])
  }

  /** Scans `s` left to right; `cur` is the token read so far. */
  function SplitFrom(s: string, cur: string): (r: seq<string>)
    ensures (forall i :: 0 <= i < |cur| ==> !IsSpace(cur[i])) ==> AllTokens(r)
    decreases |s|
  {
    if s == [] then
      (if cur == [] then [] else [cur])
    else if IsSpace(s[0]) then
      (if cur == [] then [] else [cur]) + SplitFrom(s[1..], [])
    else
      SplitFrom(s[1..], cur + [s[0]])
  }

  /** Python's `' '.join(ts)`. */
  function Join(ts: seq<string>): string
  {
    if |ts| == 0 then ""
    else if |ts| == 1 then ts[0]
    else ts[0] + " " + Join(ts[1..])
  }

  /** Python's `s.strip()`: drops whitespace from both ends. */
  function Strip(s: string): (r: string)
    ensures IsStripped(r)
    decreases |s|
  {
    if s != [] && IsSpace(s[0]) then Strip(s[1..])
    else if s != [] && IsSpace(s[|s| - 1]) then Strip(s[..|s| - 1])
    else s
  }

  /** Stripping keeps the whitespace tokens. */
  lemma {:induction false} StripTokens(s: string)
    ensures Split(Strip(s)) == Split(s)
    decreases |s|
  {
    if s != [] && IsSpace(s[0]) {
      assert s == [s[0]] + s[1..];
      SplitLeadingSpaces([s[0]], s[1..]);
      StripTokens(s[1..]);
    } else if s != [] && IsSpace(s[|s| - 1]) {
      assert s == s[..|s| - 1] + [s[|s| - 1]];
      SplitTrailingSpaces(s[..|s| - 1], [s[|s| - 1]]);
      StripTokens(s[..|s| - 1]);
    }
  }

  predicate IsStripped(r: string) {
    r == [] || (!IsSpace(r[0]) && !IsSpace(r[|r| - 1]))
  }

  /** One character of `str.lower()`; see README for the subset of Unicode covered. */
  function LowerChar(c: char): char
  {
    var n := c as int;
    if 0x41 <= n <= 0x5A || (0xC0 <= n <= 0xDE && n != 0xD7) || 0x410 <= n <= 0x42F then
      (n + 0x20) as char
    else if 0x400 <= n <= 0x40F then
      (n + 0x50) as char
    else c
  }

  /** Every character is already lower-case. */
  predicate IsLowered(s: string) {
    forall i :: 0 <= i < |s| ==> LowerChar(s[i]) == s[i]
  }

  /**
   * Python's `s.lower()`: each character lowered in place; the result is
   * lower-case, and a lower-case string is left as it is.
   */
  function Lower(s: string): (r: string)
    ensures |r| == |s| && forall i :: 0 <= i < |s| ==> r[i] == LowerChar(s[i])
    ensures IsLowered(r)
    ensures IsLowered(s) ==> r == s
  {
    seq(|s|, i requires 0 <= i < |s| => LowerChar(s[i]))
  }

  /** No whitespace except single `' '` characters strictly between two non-whitespace characters. */
  predicate IsCanonical(r: string) {
    forall i :: 0 <= i < |r| && IsSpace(r[i]) ==>
      r[i] == ' ' && 0 < i < |r| - 1 && !IsSpace(r[i - 1]) && !IsSpace(r[i + 1])
  }

  /** `preprocess_text`: lower-case, then rejoin the whitespace tokens with single spaces. */
  function Normalize(s: string): (r: string)
  {
    Join(Split(Lower(s)))
  }


  lemma {:induction false} SplitFromPreservesLowered(s: string, cur: string)
    requires IsLowered(s) && IsLowered(cur)
    ensures forall k :: 0 <= k < |SplitFrom(s, cur)| ==> IsLowered(SplitFrom(s, cur)[k])
  {
    if s != [] {
      assert IsLowered(s[1..]) by {
        forall i | 0 <= i < |s[1..]| ensures LowerChar(s[1..][i]) == s[1..][i] {
          assert s[1..][i] == s[i + 1];
        }
      }
      SplitFromPreservesLowered(s[1..], []);
      SplitFromPreservesLowered(s[1..], cur + [s[0]]);
    }
  }

  lemma {:induction false} JoinLowered(ts: seq<string>)
    requires forall k :: 0 <= k < |ts| ==> IsLowered(ts[k])
    ensures IsLowered(Join(ts))
  {
    if |ts| > 1 {
      JoinLowered(ts[1..]);
      var a, j := ts[0], Join(ts[1..]);
      var r := Join(ts);
      assert r == a + " " + j;
      forall i | 0 <= i < |r| ensures LowerChar(r[i]) == r[i] {
        if i < |a| {
          assert r[i] == a[i];
        } else if i > |a| {
          assert r[i] == j[i - |a| - 1];
        }
      }
    }
  }

  lemma {:induction false} JoinCanonical(ts: seq<string>)
    requires AllTokens(ts)
    ensures IsCanonical(Join(ts))
    ensures |ts| > 0 ==> |Join(ts)| > 0 && !IsSpace(Join(ts)[0]) && !IsSpace(Join(ts)[|Join(ts)| - 1])
  {
    if |ts| > 1 {
      JoinCanonical(ts[1..]);
      var a, j := ts[0], Join(ts[1..]);
      var r := Join(ts);
      assert r == a + " " + j;
      assert forall i :: 0 <= i < |a| ==> r[i] == a[i];
      assert r[|a|] == ' ';
      assert forall i :: |a| < i < |r| ==> r[i] == j[i - |a| - 1];
    }
  }

  /** Reading a run of non-whitespace only extends the current token. */
  lemma {:induction false} SplitFromToken(t: string, x: string, cur: string)
    requires forall i :: 0 <= i < |t| ==> !IsSpace(t[i])
    ensures SplitFrom(t + x, cur) == SplitFrom(x, cur + t)
  {
    if t == [] {
      assert t + x == x && cur + t == cur;
    } else {
      assert (t + x)[0] == t[0] && (t + x)[1..] == t[1..] + x;
      SplitFromToken(t[1..], x, cur + [t[0]]);
      assert cur + [t[0]] + t[1..] == cur + t;
    }
  }

  /** A run of whitespace with nothing before it yields no token. */
  lemma {:induction false} SplitFromAllSpace(w: string)
    requires forall i :: 0 <= i < |w| ==> IsSpace(w[i])
    ensures SplitFrom(w, []) == []
  {
    if w != [] {
      SplitFromAllSpace(w[1..]);
    }
  }

  lemma {:induction false} SplitFromLeadingSpaces(w: string, x: string)
    requires forall i :: 0 <= i < |w| ==> IsSpace(w[i])
    ensures SplitFrom(w + x, []) == SplitFrom(x, [])
  {
    if w == [] {
      assert w + x == x;
    } else {
      assert (w + x)[0] == w[0] && (w + x)[1..] == w[1..] + x;
      SplitFromLeadingSpaces(w[1..], x);
    }
  }

  lemma {:induction false} SplitFromTrailingSpaces(x: string, w: string, cur: string)
    requires forall i :: 0 <= i < |w| ==> IsSpace(w[i])
    ensures SplitFrom(x + w, cur) == SplitFrom(x, cur)
  {
    if x == [] {
      assert x + w == w;
      if w != [] {
        SplitFromAllSpace(w[1..]);
        assert SplitFrom(w, cur) == (if cur == [] then [] else [cur]) + SplitFrom(w[1..], []);
      }
    } else {
      assert (x + w)[0] == x[0] && (x + w)[1..] == x[1..] + w;
      SplitFromTrailingSpaces(x[1..], w, []);
      SplitFromTrailingSpaces(x[1..], w, cur + [x[0]]);
    }
  }

  /** Leading whitespace does not change the tokens. */
  lemma SplitLeadingSpaces(w: string, x: string)
    requires forall i :: 0 <= i < |w| ==> IsSpace(w[i])
    ensures Split(w + x) == Split(x)
  {
    SplitFromLeadingSpaces(w, x);
  }

  /** Trailing whitespace does not change the tokens. */
  lemma SplitTrailingSpaces(x: string, w: string)
    requires forall i :: 0 <= i < |w| ==> IsSpace(w[i])
    ensures Split(x + w) == Split(x)
  {
    SplitFromTrailingSpaces(x, w, []);
  }

  /** Splitting a joined token list gives the tokens back. */
  lemma {:induction false} SplitJoin(ts: seq<string>)
    requires AllTokens(ts)
    ensures Split(Join(ts)) == ts
  {
    if |ts| == 1 {
      assert ts[0] + [] == ts[0] && [] + ts[0] == ts[0];
      SplitFromToken(ts[0], [], []);
    } else if |ts| > 1 {
      var j := Join(ts[1..]);
      var rest := " " + j;
      assert Join(ts) == ts[0] + rest;
      SplitFromToken(ts[0], rest, []);
      assert [] + ts[0] == ts[0];
      assert rest[0] == ' ' && rest[1..] == j;
      assert SplitFrom(rest, ts[0]) == [ts[0]] + SplitFrom(j, []);
      SplitJoin(ts[1..]);
      assert ts == [ts[0]] + ts[1..];
    }
  }

  /**
   * The normalised text is lower-case, has no leading, trailing or doubled
   * whitespace, uses `' '` as its only whitespace, and has the same tokens as
   * the lower-cased input.
   */
  lemma NormalizeShape(s: string)
    ensures var r := Normalize(s);
      IsStripped(r) && IsLowered(r) && IsCanonical(r) && Split(r) == Split(Lower(s))
  {
    var ts := Split(Lower(s));
    JoinCanonical(ts);
    SplitFromPreservesLowered(Lower(s), []);
    JoinLowered(ts);
    SplitJoin(ts);
  }

  /** `preprocess_text` is idempotent. */
  lemma NormalizeIdempotent(s: string)
    ensures Normalize(Normalize(s)) == Normalize(s)
  {
    NormalizeShape(s);
  }
}
