/**
  The detector's fixed rule tables: the question-word set, the inversion
  auxiliaries, and the five case-insensitive patterns, each written out as a
  predicate rather than handed to a regular-expression engine.

  Case-insensitive matching is ASCII case folding: a lowercase pattern word
  `w` matches the text at `i` when the text's slice there lowercases to `w`.
 */
module Rules {
  import opened Text

  /** `question_words`: interrogative openers and auxiliaries. */
  const QuestionWords: set<string> := {
    "what", "when", "where", "who", "whom", "whose", "which", "why", "how",
    "is", "are", "was", "were", "do", "does", "did", "can", "could",
    "will", "would", "should", "shall", "may", "might", "must",
    "am", "has", "have", "had"
  }

  /** The auxiliaries whose leading position is read as an inverted question. */
  const InversionWords: set<string> := {
    "is", "are", "was", "were", "do", "does", "did",
    "can", "could", "will", "would", "should", "shall",
    "may", "might", "must", "have", "has", "had"
  }

  // The alternatives of patterns 2 to 5.
  const LeadingQuestionWords: set<string> :=
    {"what", "when", "where", "who", "whom", "whose", "which", "why", "how"}
  const LeadingAuxiliaries: set<string> :=
    {"is", "are", "was", "were", "do", "does", "did", "can", "could", "will", "would", "should"}
  const CommandPhrases: set<string> :=
    {"tell me", "explain", "describe", "define", "calculate", "solve"}
  const EmbeddedWords: set<string> := {"what", "how", "why", "when", "where"}

  /** The five compiled patterns, in the order they are tried. */
  datatype Rule =
    | TrailingMark          // \?$
    | LeadingQuestionWord   // ^(what|...|how)\s+
    | LeadingAuxiliary      // ^(is|...|should)\s+
    | LeadingCommand        // ^(tell me|...|solve)\s+
    | EmbeddedQuestionWord  // (what|how|why|when|where)\s+.*\?*$

  const QuestionRules: seq<Rule> :=
    [TrailingMark, LeadingQuestionWord, LeadingAuxiliary, LeadingCommand, EmbeddedQuestionWord]

  /** The lowercase word `w` occurs in `t` at `i`, ignoring case. */
  predicate MatchesAt(t: string, i: nat, w: string) {
    i + |w| <= |t| && LowerStr(t[i..i + |w|]) == w
  }

  /** Where `$` can match without the MULTILINE flag: at the very end, or
      just before a newline that ends the text. */
  predicate EndAnchorAt(t: string, p: nat) {
    p == |t| || (p + 1 == |t| && t[p] == '\n')
  }

  /** Pattern 1, `\?$`. */
  predicate EndsWithMark(t: string) {
    exists p | 0 <= p < |t| :: t[p] == '?' && EndAnchorAt(t, p + 1)
  }

  /** Patterns 2 to 4, `^(alts)\s+`: `^` anchors at the start, so the
      search can only succeed at position 0. */
  predicate OpensWithThenSpace(t: string, alts: set<string>) {
    exists w | w in alts :: MatchesAt(t, 0, w) && |w| < |t| && IsSpace(t[|w|])
  }

  /** `.*\?*$` can match from `e`: `.` stops at a newline, so none may occur
      from `e` on except a newline that ends the text. */
  predicate RestOfLineFrom(t: string, e: nat) {
    forall m :: e <= m < |t| - 1 ==> t[m] != '\n'
  }

  /** Pattern 5 matched starting at `i`. The greedy `\s+` takes the whole
      whitespace run after the word, which is the best choice for `.*`. */
  predicate EmbeddedAt(t: string, i: nat) {
    exists w | w in EmbeddedWords :: EmbeddedWordAt(t, i, w)
  }

  /** Pattern 5 matched starting at `i` with the alternative `w`. */
  predicate EmbeddedWordAt(t: string, i: nat, w: string) {
    && MatchesAt(t, i, w)
    && i + |w| < |t| && IsSpace(t[i + |w|])
    && RestOfLineFrom(t, SkipSpace(t, i + |w|))
  }

  /** The left-to-right search for pattern 5 from position `i`. */
  function SearchEmbedded(t: string, i: nat): (found: bool)
    requires i <= |t|
    ensures found <==> exists j | i <= j < |t| :: EmbeddedAt(t, j)
    decreases |t| - i
  {
    if i == |t| then false else EmbeddedAt(t, i) || SearchEmbedded(t, i + 1)
  }

  /** Does one compiled pattern find a match in `t`? */
  predicate Matches(rule: Rule, t: string) {
    match rule
    case TrailingMark => EndsWithMark(t)
    case LeadingQuestionWord => OpensWithThenSpace(t, LeadingQuestionWords)
    case LeadingAuxiliary => OpensWithThenSpace(t, LeadingAuxiliaries)
    case LeadingCommand => OpensWithThenSpace(t, CommandPhrases)
    case EmbeddedQuestionWord => SearchEmbedded(t, 0)
  }

  /** The pattern loop: some pattern finds a match. */
  predicate AnyRuleMatches(t: string) {
    exists k | 0 <= k < |QuestionRules| :: Matches(QuestionRules[k], t)
  }

  // Pattern 5 exactly as the regular expression reads: the word at `i`,
  // `\s+` up to `k`, `.*\?*` up to `p`, and `$` at `p`.

  ghost predicate EmbeddedRegexMatch(t: string, i: nat, w: string, k: nat, p: nat) {
    && w in EmbeddedWords
    && MatchesAt(t, i, w)
    && i + |w| < k <= p <= |t|
    && SpaceIn(t, i + |w|, k)
    && (forall m :: k <= m < p ==> t[m] != '\n')
    && EndAnchorAt(t, p)
  }

  ghost predicate EmbeddedRegex(t: string) {
    exists i: nat, w: string, k: nat, p: nat :: EmbeddedRegexMatch(t, i, w, k, p)
  }

  /** The inversion auxiliaries are all question words, so the inversion
      test can never accept a text the first-word test rejected. */
  lemma InversionWithinQuestionWords()
    ensures InversionWords <= QuestionWords
    ensures QuestionWords - InversionWords == LeadingQuestionWords + {"am"}
  {
  }

  /** On a stripped text, pattern 1 says no more than the `endswith('?')`
      test before it: a final newline, the only other place `$` matches,
      would be whitespace. */
  lemma EndsWithMarkStripped(t: string)
    requires IsStripped(t)
    ensures EndsWithMark(t) <==> t != [] && t[|t| - 1] == '?'
  {
    if t != [] && t[|t| - 1] == '?' {
      assert EndAnchorAt(t, |t|);
    }
  }

  /** For alternatives free of whitespace, `^(alts)\s+` matches exactly when
      the first word, lowercased, is an alternative and something follows
      it. */
  lemma OpensWithWordThenSpace(t: string, alts: set<string>)
    requires forall w | w in alts :: NoSpace(w)
    ensures OpensWithThenSpace(t, alts) <==> |FirstToken(t)| < |t| && LowerStr(FirstToken(t)) in alts
  {
    if OpensWithThenSpace(t, alts) {
      var w :| w in alts && MatchesAt(t, 0, w) && |w| < |t| && IsSpace(t[|w|]);
      var n := |w|;
      assert t[0..n] == t[..n];
      assert NoSpace(t[..n]) by {
        forall m | 0 <= m < n ensures !IsSpace(t[..n][m]) {
          assert LowerStr(t[..n])[m] == w[m];
          LowerKeepsSpace(t[..n][m]);
        }
      }
      FirstTokenIs(t, n);
    }
    if |FirstToken(t)| < |t| && LowerStr(FirstToken(t)) in alts {
      var f := FirstToken(t);
      assert t[0..|f|] == f;
      assert MatchesAt(t, 0, LowerStr(f));
    }
  }

  /** Patterns 2 and 3 are first-word tests: the question word or the
      auxiliary must be the whole first word, in any case, with more text
      after it. */
  lemma LeadingPatternsAreFirstWordTests(t: string)
    ensures Matches(LeadingQuestionWord, t) <==>
      |FirstToken(t)| < |t| && LowerStr(FirstToken(t)) in LeadingQuestionWords
    ensures Matches(LeadingAuxiliary, t) <==>
      |FirstToken(t)| < |t| && LowerStr(FirstToken(t)) in LeadingAuxiliaries
  {
    LeadingWordsHaveNoSpace();
    OpensWithWordThenSpace(t, LeadingQuestionWords);
    OpensWithWordThenSpace(t, LeadingAuxiliaries);
  }

  lemma LeadingWordsHaveNoSpace()
    ensures forall w | w in LeadingQuestionWords :: NoSpace(w)
    ensures forall w | w in LeadingAuxiliaries :: NoSpace(w)
  {
  }

  lemma EmbeddedAtGivesRegex(t: string, i: nat)
    requires EmbeddedAt(t, i)
    ensures EmbeddedRegex(t)
  {
    var w :| w in EmbeddedWords && EmbeddedWordAt(t, i, w);
    var k := SkipSpace(t, i + |w|);
    var p := if k < |t| && t[|t| - 1] == '\n' then |t| - 1 else |t|;
    assert EndAnchorAt(t, p);
    assert forall m :: k <= m < p ==> t[m] != '\n';
    assert EmbeddedRegexMatch(t, i, w, k, p);
  }

  lemma RegexGivesEmbeddedAt(t: string, i: nat, w: string, k: nat, p: nat)
    requires EmbeddedRegexMatch(t, i, w, k, p)
    ensures i < |t| && EmbeddedAt(t, i)
  {
    var j := i + |w|;
    assert IsSpace(t[j]);
    var e := SkipSpace(t, j);
    assert k <= e;
    assert RestOfLineFrom(t, e);
    assert EmbeddedWordAt(t, i, w);
  }

  /** The pattern-5 search succeeds exactly when the regular expression has
      a match. */
  lemma SearchEmbeddedIsRegex(t: string)
    ensures SearchEmbedded(t, 0) <==> EmbeddedRegex(t)
  {
    if SearchEmbedded(t, 0) {
      var i :| 0 <= i < |t| && EmbeddedAt(t, i);
      EmbeddedAtGivesRegex(t, i);
    }
    if EmbeddedRegex(t) {
      var i: nat, w: string, k: nat, p: nat :| EmbeddedRegexMatch(t, i, w, k, p);
      RegexGivesEmbeddedAt(t, i, w, k, p);
    }
  }
}
