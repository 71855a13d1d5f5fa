/**
  The handful of Python `str` builtins the detector relies on: `isspace`,
  `lower`, `startswith`, `strip` and the argument-less `split`.

  `strip()`, `split()` and the regular-expression class `\s` (on `str`
  patterns) all cut at the code points for which `str.isspace()` holds.
  Lowercasing is modelled for ASCII letters only.

  The scans work on positions in one fixed string rather than on ever
  shorter slices of it.
 */
module Text {

  /** The code points for which Python's `str.isspace()` holds: the ASCII
      controls U+0009 to U+000D and U+001C to U+001F, the space, U+0085,
      U+00A0, U+1680, U+2000 to U+200A, U+2028, U+2029, U+202F, U+205F and
      U+3000. */
  predicate IsSpace(c: char) {
    || '\t' <= c <= '\r'
    || '\U{001C}' <= c <= ' '
    || c == '\U{0085}' || c == '\U{00A0}' || c == '\U{1680}'
    || '\U{2000}' <= c <= '\U{200A}'
    || c == '\U{2028}' || c == '\U{2029}' || c == '\U{202F}' || c == '\U{205F}'
    || c == '\U{3000}'
  }

  predicate IsUpper(c: char) {
    'A' <= c <= 'Z'
  }

  /** `c.lower()` for ASCII letters; every other code point is left as it is. */
  function Lower(c: char): (r: char)
    ensures IsUpper(c) ==> r as int == c as int + 32
    ensures !IsUpper(c) ==> r == c
  {
    if IsUpper(c) then (c as int + 32) as char else c
  }

  /** `s.lower()`, character by character. */
  function LowerStr(s: string): (r: string)
    ensures |r| == |s|
    ensures forall i :: 0 <= i < |s| ==> r[i] == Lower(s[i])
  {
    seq(|s|, i requires 0 <= i < |s| => Lower(s[i]))
  }

  predicate StartsWith(s: string, prefix: string) {
    |prefix| <= |s| && s[..|prefix|] == prefix
  }

  /** Every character of `s` from `lo` up to `hi` is whitespace. */
  predicate SpaceIn(s: string, lo: nat, hi: nat)
    requires lo <= hi <= |s|
  {
    forall i :: lo <= i < hi ==> IsSpace(s[i])
  }

  /** No character of `s` from `lo` up to `hi` is whitespace. */
  predicate NoSpaceIn(s: string, lo: nat, hi: nat)
    requires lo <= hi <= |s|
  {
    forall i :: lo <= i < hi ==> !IsSpace(s[i])
  }

  predicate AllSpace(s: string) {
    SpaceIn(s, 0, |s|)
  }

  predicate NoSpace(s: string) {
    NoSpaceIn(s, 0, |s|)
  }

  /** Neither the first nor the last character is whitespace. */
  predicate IsStripped(s: string) {
    s == [] || (!IsSpace(s[0]) && !IsSpace(s[|s| - 1]))
  }

  // ---------------------------------------------------------------------
  // Scans
  // ---------------------------------------------------------------------

  /** The first position at or after `i` that is not whitespace, or `|s|`:
      where a whitespace run starting at `i` ends. */
  function SkipSpace(s: string, i: nat): (j: nat)
    requires i <= |s|
    ensures i <= j <= |s|
    ensures SpaceIn(s, i, j)
    ensures j == |s| || !IsSpace(s[j])
    decreases |s| - i
  {
    if i < |s| && IsSpace(s[i]) then SkipSpace(s, i + 1) else i
  }

  /** The first position at or after `i` that is whitespace, or `|s|`:
      where a word starting at `i` ends. */
  function SkipWord(s: string, i: nat): (j: nat)
    requires i <= |s|
    ensures i <= j <= |s|
    ensures NoSpaceIn(s, i, j)
    ensures j == |s| || IsSpace(s[j])
    decreases |s| - i
  {
    if i < |s| && !IsSpace(s[i]) then SkipWord(s, i + 1) else i
  }

  /** Going back from `j`, no further than `lo`, the position just after the
      last character that is not whitespace. */
  function SkipSpaceBack(s: string, lo: nat, j: nat): (k: nat)
    requires lo <= j <= |s|
    ensures lo <= k <= j
    ensures SpaceIn(s, k, j)
    ensures k == lo || !IsSpace(s[k - 1])
    decreases j - lo
  {
    if lo < j && IsSpace(s[j - 1]) then SkipSpaceBack(s, lo, j - 1) else j
  }

  // Each scan has exactly one possible result.

  lemma {:induction false} SkipSpaceAt(s: string, i: nat, j: nat)
    requires i <= j <= |s| && SpaceIn(s, i, j) && (j == |s| || !IsSpace(s[j]))
    ensures SkipSpace(s, i) == j
    decreases j - i
  {
    if i < j {
      SkipSpaceAt(s, i + 1, j);
    }
  }

  lemma {:induction false} SkipWordAt(s: string, i: nat, j: nat)
    requires i <= j <= |s| && NoSpaceIn(s, i, j) && (j == |s| || IsSpace(s[j]))
    ensures SkipWord(s, i) == j
    decreases j - i
  {
    if i < j {
      SkipWordAt(s, i + 1, j);
    }
  }

  lemma {:induction false} SkipSpaceBackAt(s: string, lo: nat, j: nat, k: nat)
    requires lo <= k <= j <= |s| && SpaceIn(s, k, j) && (k == lo || !IsSpace(s[k - 1]))
    ensures SkipSpaceBack(s, lo, j) == k
    decreases j - k
  {
    if k < j {
      SkipSpaceBackAt(s, lo, j - 1, k);
    }
  }

  // ---------------------------------------------------------------------
  // strip()
  // ---------------------------------------------------------------------

  /** Where `Strip(s)` starts inside `s`: the number of leading whitespace
      characters. */
  function StripOffset(s: string): (a: nat)
    ensures a <= |s|
    ensures SpaceIn(s, 0, a)
    ensures a == |s| || !IsSpace(s[a])
  {
    SkipSpace(s, 0)
  }

  /** Where `Strip(s)` ends inside `s`. */
  function StripEnd(s: string): (b: nat)
    ensures StripOffset(s) <= b <= |s|
    ensures SpaceIn(s, b, |s|)
    ensures b == StripOffset(s) || !IsSpace(s[b - 1])
  {
    SkipSpaceBack(s, StripOffset(s), |s|)
  }

  /** `s.strip()`: the slice of `s` starting at `StripOffset(s)`, with only
      whitespace cut away on either side and none left at either end. */
  function Strip(s: string): (r: string)
    ensures IsStripped(r)
    ensures StripOffset(s) + |r| <= |s| && r == s[StripOffset(s)..StripOffset(s) + |r|]
    ensures SpaceIn(s, 0, StripOffset(s)) && SpaceIn(s, StripOffset(s) + |r|, |s|)
  {
    var a, b := StripOffset(s), StripEnd(s);
    assert a < b ==> s[a..b][0] == s[a] && s[a..b][b - a - 1] == s[b - 1];
    s[a..b]
  }

  /** `strip()` leaves nothing exactly when the text is all whitespace. */
  lemma StripEmpty(s: string)
    ensures Strip(s) == [] <==> AllSpace(s)
  {
    var a := StripOffset(s);
    if a < |s| {
      assert StripEnd(s) != a;
    }
  }

  /** `strip()` has exactly one possible result: any whitespace-bounded slice
      of `s` whose ends are not whitespace is `Strip(s)`. */
  lemma StripUnique(s: string, a: nat, b: nat)
    requires a <= b <= |s|
    requires SpaceIn(s, 0, a) && SpaceIn(s, b, |s|)
    requires IsStripped(s[a..b])
    ensures Strip(s) == s[a..b]
  {
    if a == b {
      StripEmpty(s);
    } else {
      assert !IsSpace(s[a]) && !IsSpace(s[b - 1]) by {
        assert s[a..b][0] == s[a] && s[a..b][b - a - 1] == s[b - 1];
      }
      SkipSpaceAt(s, 0, a);
      SkipSpaceBackAt(s, a, |s|, b);
    }
  }

  /** Stripping twice is stripping once. */
  lemma StripIdempotent(s: string)
    ensures Strip(Strip(s)) == Strip(s)
  {
    var r := Strip(s);
    StripUnique(r, 0, |r|);
    assert r[0..|r|] == r;
  }

  // ---------------------------------------------------------------------
  // split()
  // ---------------------------------------------------------------------

  /** The longest prefix of `s` free of whitespace. */
  function FirstToken(s: string): (r: string)
    ensures |r| <= |s| && r == s[..|r|]
    ensures NoSpace(r)
    ensures |r| == |s| || IsSpace(s[|r|])
  {
    var j := SkipWord(s, 0);
    assert NoSpace(s[..j]) by {
      forall m | 0 <= m < j ensures !IsSpace(s[..j][m]) {
        assert s[..j][m] == s[m];
      }
    }
    s[..j]
  }

  /** The leading whitespace-free run ends at the first whitespace. */
  lemma FirstTokenIs(s: string, n: nat)
    requires n <= |s| && NoSpace(s[..n]) && (n == |s| || IsSpace(s[n]))
    ensures FirstToken(s) == s[..n]
  {
    assert NoSpaceIn(s, 0, n) by {
      forall m | 0 <= m < n ensures !IsSpace(s[m]) {
        assert s[..n][m] == s[m];
      }
    }
    SkipWordAt(s, 0, n);
  }

  /** The words `split()` finds from position `i` on: the maximal runs of
      non-whitespace characters, in order. */
  function WordsFrom(s: string, i: nat): (ws: seq<string>)
    requires i <= |s|
    ensures forall w | w in ws :: w != [] && NoSpace(w)
    decreases |s| - i
  {
    var j := SkipSpace(s, i);
    if j == |s| then []
    else
      var k := SkipWord(s, j);
      assert s[j..k] != [] && NoSpace(s[j..k]) by {
        assert s[j..k][0] == s[j];
        forall m | 0 <= m < k - j ensures !IsSpace(s[j..k][m]) {
          assert s[j..k][m] == s[j + m];
        }
      }
      [s[j..k]] + WordsFrom(s, k)
  }

  /** `s.split()` with no separator. */
  function Words(s: string): (ws: seq<string>)
    ensures forall w | w in ws :: w != [] && NoSpace(w)
  {
    WordsFrom(s, 0)
  }

  /** `split()` finds no word exactly when the text is all whitespace. */
  lemma WordsEmpty(s: string)
    ensures Words(s) == [] <==> AllSpace(s)
  {
    var j := SkipSpace(s, 0);
    if j < |s| {
      assert !IsSpace(s[j]);
    }
  }

  /** On a string that does not open with whitespace, the first word `split()`
      yields is the leading whitespace-free run. */
  lemma FirstWord(s: string)
    requires s != [] && !IsSpace(s[0])
    ensures Words(s) != [] && Words(s)[0] == FirstToken(s)
  {
    SkipSpaceAt(s, 0, 0);
    assert s[0..SkipWord(s, 0)] == s[..SkipWord(s, 0)];
  }

  // ---------------------------------------------------------------------
  // lower() keeps every whitespace decision
  // ---------------------------------------------------------------------

  lemma LowerKeepsSpace(c: char)
    ensures IsSpace(Lower(c)) <==> IsSpace(c)
  {
  }

  lemma LowerSpaceAt(s: string, m: nat)
    requires m < |s|
    ensures IsSpace(LowerStr(s)[m]) <==> IsSpace(s[m])
  {
    LowerKeepsSpace(s[m]);
  }

  lemma LowerSpaceIn(s: string, lo: nat, hi: nat)
    requires lo <= hi <= |s|
    ensures SpaceIn(LowerStr(s), lo, hi) <==> SpaceIn(s, lo, hi)
    ensures NoSpaceIn(LowerStr(s), lo, hi) <==> NoSpaceIn(s, lo, hi)
  {
    forall m | lo <= m < hi ensures IsSpace(LowerStr(s)[m]) <==> IsSpace(s[m]) {
      LowerSpaceAt(s, m);
    }
  }

  lemma LowerOfSlice(s: string, lo: nat, hi: nat)
    requires lo <= hi <= |s|
    ensures LowerStr(s)[lo..hi] == LowerStr(s[lo..hi])
  {
  }

  lemma SkipSpaceOfLower(s: string, i: nat)
    requires i <= |s|
    ensures SkipSpace(LowerStr(s), i) == SkipSpace(s, i)
  {
    var j := SkipSpace(s, i);
    LowerSpaceIn(s, i, j);
    if j < |s| {
      LowerSpaceAt(s, j);
    }
    SkipSpaceAt(LowerStr(s), i, j);
  }

  lemma SkipWordOfLower(s: string, i: nat)
    requires i <= |s|
    ensures SkipWord(LowerStr(s), i) == SkipWord(s, i)
  {
    var j := SkipWord(s, i);
    LowerSpaceIn(s, i, j);
    if j < |s| {
      LowerSpaceAt(s, j);
    }
    SkipWordAt(LowerStr(s), i, j);
  }

  lemma SkipSpaceBackOfLower(s: string, lo: nat, j: nat)
    requires lo <= j <= |s|
    ensures SkipSpaceBack(LowerStr(s), lo, j) == SkipSpaceBack(s, lo, j)
  {
    var k := SkipSpaceBack(s, lo, j);
    LowerSpaceIn(s, k, j);
    if lo < k {
      LowerSpaceAt(s, k - 1);
    }
    SkipSpaceBackAt(LowerStr(s), lo, j, k);
  }

  /** Lowercasing and stripping commute. */
  lemma StripOfLower(s: string)
    ensures Strip(LowerStr(s)) == LowerStr(Strip(s))
  {
    SkipSpaceOfLower(s, 0);
    SkipSpaceBackOfLower(s, StripOffset(s), |s|);
    LowerOfSlice(s, StripOffset(s), StripEnd(s));
  }

  /** The first word of the lowercased text is the lowercased first word. */
  lemma FirstTokenOfLower(s: string)
    ensures FirstToken(LowerStr(s)) == LowerStr(FirstToken(s))
  {
    SkipWordOfLower(s, 0);
    var j := SkipWord(s, 0);
    LowerOfSlice(s, 0, j);
    assert LowerStr(s)[..j] == LowerStr(s)[0..j];
    assert s[..j] == s[0..j];
  }

  /** `s.lower().split()[0] == s.split()[0].lower()` on a string that does
      not open with whitespace. */
  lemma FirstWordOfLower(s: string)
    requires s != [] && !IsSpace(s[0])
    ensures Words(LowerStr(s)) != []
    ensures Words(LowerStr(s))[0] == LowerStr(Words(s)[0])
  {
    LowerSpaceAt(s, 0);
    FirstWord(s);
    FirstWord(LowerStr(s));
    FirstTokenOfLower(s);
  }
}
