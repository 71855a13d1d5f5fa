/**
  Sentence splitting as `re.split(r'[.!?]+', text)` does it: the text is cut
  at every maximal run of `.`, `!` and `?`; the runs themselves are dropped,
  and the pieces before the first run and after the last one are kept even
  when they are empty.
 */
module Sentences {

  predicate IsDelimiter(c: char) {
    c == '.' || c == '!' || c == '?'
  }

  predicate NoDelimiter(s: string) {
    forall i :: 0 <= i < |s| ==> !IsDelimiter(s[i])
  }

  predicate AllDelimiters(s: string) {
    forall i :: 0 <= i < |s| ==> IsDelimiter(s[i])
  }

  lemma NoDelimiterSlice(s: string, lo: nat, hi: nat)
    requires NoDelimiter(s) && lo <= hi <= |s|
    ensures NoDelimiter(s[lo..hi])
  {
    forall m | 0 <= m < hi - lo ensures !IsDelimiter(s[lo..hi][m]) {
      assert s[lo..hi][m] == s[lo + m];
    }
  }

  /** The first delimiter at or after `i`, or `|s|` when there is none. */
  function NextDelimiter(s: string, i: nat): (j: nat)
    requires i <= |s|
    ensures i <= j <= |s|
    ensures NoDelimiter(s[i..j])
    ensures j == |s| || IsDelimiter(s[j])
    decreases |s| - i
  {
    if i == |s| || IsDelimiter(s[i]) then i
    else
      var j := NextDelimiter(s, i + 1);
      assert s[i..j] == [s[i]] + s[i + 1..j];
      j
  }

  /** The end of the delimiter run that starts at `i`: what `[.!?]+` consumes. */
  function DelimiterRunEnd(s: string, i: nat): (j: nat)
    requires i <= |s|
    ensures i <= j <= |s|
    ensures AllDelimiters(s[i..j])
    ensures j == |s| || !IsDelimiter(s[j])
    decreases |s| - i
  {
    if i < |s| && IsDelimiter(s[i]) then
      var j := DelimiterRunEnd(s, i + 1);
      assert s[i..j] == [s[i]] + s[i + 1..j];
      j
    else i
  }

  /** The pieces `re.split` returns. There is always at least one; none holds
      a delimiter; only the first and the last can be empty. */
  function Split(s: string): (pieces: seq<string>)
    ensures |pieces| >= 1
    ensures forall k :: 0 <= k < |pieces| ==> NoDelimiter(pieces[k])
    ensures forall k :: 0 < k < |pieces| - 1 ==> pieces[k] != []
    ensures NoDelimiter(s) ==> pieces == [s]
    ensures s != [] && !IsDelimiter(s[0]) ==> pieces[0] != []
    decreases |s|
  {
    var i := NextDelimiter(s, 0);
    if i == |s| then
      assert s[0..i] == s;
      [s]
    else
      var j := DelimiterRunEnd(s, i);
      var rest := Split(s[j..]);
      assert j < |s| ==> s[j..][0] == s[j];
      [s[..i]] + rest
  }

  /** The delimiter runs `re.split` cut at, in order. */
  function Separators(s: string): (seps: seq<string>)
    ensures |seps| == |Split(s)| - 1
    ensures forall k :: 0 <= k < |seps| ==> seps[k] != [] && AllDelimiters(seps[k])
    decreases |s|
  {
    var i := NextDelimiter(s, 0);
    if i == |s| then []
    else
      var j := DelimiterRunEnd(s, i);
      [s[i..j]] + Separators(s[j..])
  }

  /** Put the separators back between the pieces. */
  function Interleave(pieces: seq<string>, seps: seq<string>): string
    requires |pieces| == |seps| + 1
    decreases |seps|
  {
    if seps == [] then pieces[0]
    else pieces[0] + seps[0] + Interleave(pieces[1..], seps[1..])
  }

  /** One step of the split: the text up to the first run, the run, and the
      split of what follows it. */
  lemma SplitStep(s: string, i: nat, j: nat)
    requires i == NextDelimiter(s, 0) < |s| && j == DelimiterRunEnd(s, i)
    ensures Split(s) == [s[..i]] + Split(s[j..])
    ensures Separators(s) == [s[i..j]] + Separators(s[j..])
  {
  }

  /** Three consecutive slices make up the whole. */
  lemma SlicesJoin(s: string, i: nat, j: nat)
    requires i <= j <= |s|
    ensures s[..i] + s[i..j] + s[j..] == s
  {
    assert s[..i] + s[i..j] == s[..j];
    assert s[..j] + s[j..] == s;
  }

  /** Splitting loses nothing but the cut points: the pieces and the runs,
      put back together in order, give the original text. */
  lemma {:induction false} SplitRoundTrip(s: string)
    ensures Interleave(Split(s), Separators(s)) == s
    decreases |s|
  {
    var i := NextDelimiter(s, 0);
    if i == |s| {
      assert s[0..i] == s;
    } else {
      var j := DelimiterRunEnd(s, i);
      SplitStep(s, i, j);
      SlicesJoin(s, i, j);
      var pieces, seps := Split(s), Separators(s);
      assert pieces[1..] == Split(s[j..]) && seps[1..] == Separators(s[j..]);
      SplitRoundTrip(s[j..]);
    }
  }
}
