/**
  `get_question_type`: the coarse category of a question, found by a fixed
  precedence of prefix and first-word tests on the lowercased, stripped text.
 */
module QuestionTypes {
  import opened Text
  import opened Rules
  import opened QuestionDetector

  /** The categories `get_question_type` can name. */
  datatype QuestionType =
    | What | When | Where | Who | Whom | Whose | Which | Why | How
    | YesNo | Explanation | Calculation | Other
  {
    /** The label the source returns for the category. */
    function Label(): string {
      match this
      case What => "what"
      case When => "when"
      case Where => "where"
      case Who => "who"
      case Whom => "whom"
      case Whose => "whose"
      case Which => "which"
      case Why => "why"
      case How => "how"
      case YesNo => "yes/no"
      case Explanation => "explanation"
      case Calculation => "calculation"
      case Other => "other"
    }
  }

  /** The question-word categories, in the order they are tried. */
  const TypeWords: seq<QuestionType> := [What, When, Where, Who, Whom, Whose, Which, Why, How]

  /** The first words that make a yes/no question. */
  const YesNoStarters: set<string> := {
    "is", "are", "was", "were", "do", "does", "did",
    "can", "could", "will", "would", "should", "shall",
    "may", "might", "must", "have", "has", "had"
  }

  const ExplanationCommands: seq<string> := ["tell me", "explain", "describe", "define"]
  const CalculationCommands: seq<string> := ["calculate", "solve", "compute"]

  /** `any(s.startswith(p) for p in prefixes)`. */
  predicate AnyPrefix(s: string, prefixes: seq<string>) {
    exists k | 0 <= k < |prefixes| :: StartsWith(s, prefixes[k])
  }

  /** The text starts with the label of some question-word category. */
  predicate OpensWithTypeWord(s: string) {
    exists k | 0 <= k < |TypeWords| :: StartsWith(s, TypeWords[k].Label())
  }

  /** The position in `TypeWords`, from `k` on, of the first label `s`
      starts with, or `|TypeWords|` when there is none. */
  function FirstTypeWord(s: string, k: nat): (i: nat)
    requires k <= |TypeWords|
    ensures k <= i <= |TypeWords|
    ensures i < |TypeWords| ==> StartsWith(s, TypeWords[i].Label())
    ensures forall j :: k <= j < i ==> !StartsWith(s, TypeWords[j].Label())
    decreases |TypeWords| - k
  {
    if k == |TypeWords| || StartsWith(s, TypeWords[k].Label()) then k
    else FirstTypeWord(s, k + 1)
  }

  /** `question.lower().strip()`. */
  function Normalized(question: string): (s: string)
    ensures IsStripped(s)
  {
    Strip(LowerStr(question))
  }

  /** `s.split()[0] if s.split() else ''`: on a stripped text, the leading
      whitespace-free run. */
  function LeadingWord(s: string): (w: string)
    ensures IsStripped(s) ==> w == FirstToken(s)
  {
    WordsEmpty(s);
    assert IsStripped(s) && s != [] ==> Words(s) != [] && Words(s)[0] == FirstToken(s) by {
      if IsStripped(s) && s != [] {
        FirstWord(s);
      }
    }
    if Words(s) == [] then "" else Words(s)[0]
  }

  /** A prefix of a prefix is a prefix. */
  lemma PrefixOfPrefix(s: string, p: string, q: string)
    requires StartsWith(s, p) && StartsWith(p, q)
    ensures StartsWith(s, q)
  {
    assert s[..|q|] == s[..|p|][..|q|];
  }

  /** Every text that starts with "whom" or "whose" starts with "who". */
  lemma WhoShadows(s: string)
    ensures StartsWith(s, Whom.Label()) ==> StartsWith(s, Who.Label())
    ensures StartsWith(s, Whose.Label()) ==> StartsWith(s, Who.Label())
  {
    if StartsWith(s, "whom") {
      PrefixOfPrefix(s, "whom", "who");
    }
    if StartsWith(s, "whose") {
      PrefixOfPrefix(s, "whose", "who");
    }
  }

  /** `get_question_type`. The "whom" and "whose" categories can never be
      the answer: "who" comes first in the order and is a prefix of both. */
  function GetQuestionType(question: string): (r: QuestionType)
    ensures r != Whom && r != Whose
  {
    TypeOfNormalized(Normalized(question))
  }

  /** The tests of `get_question_type` on the lowercased, stripped text. */
  function TypeOfNormalized(s: string): (r: QuestionType)
    ensures r != Whom && r != Whose
  {
    var i := FirstTypeWord(s, 0);
    assert i != 4 && i != 5 by {
      WhoShadows(s);
    }
    if i < |TypeWords| then TypeWords[i]
    else if LeadingWord(s) in YesNoStarters then YesNo
    else CommandType(s)
  }

  /** The last two tests: an explanation command, then a calculation one. */
  function CommandType(s: string): (r: QuestionType)
    ensures r == Explanation || r == Calculation || r == Other
  {
    if AnyPrefix(s, ExplanationCommands) then Explanation
    else if AnyPrefix(s, CalculationCommands) then Calculation
    else Other
  }

  // The precedence of the tests, one stage at a time, on the lowercased,
  // stripped text `s` that `GetQuestionType` hands to `TypeOfNormalized`.

  /** First stage: a text that starts with a question word gets the earliest
      such word in the order, whatever follows it ("however" is a `How`
      question); any other text gets one of the four later categories. */
  lemma QuestionWordFirst(s: string)
    ensures OpensWithTypeWord(s) ==>
      exists k | 0 <= k < |TypeWords| ::
        && TypeOfNormalized(s) == TypeWords[k] && StartsWith(s, TypeWords[k].Label())
        && forall j | 0 <= j < k :: !StartsWith(s, TypeWords[j].Label())
    ensures !OpensWithTypeWord(s) <==>
      TypeOfNormalized(s) in {YesNo, Explanation, Calculation, Other}
  {
    var i := FirstTypeWord(s, 0);
    if OpensWithTypeWord(s) {
      assert i < |TypeWords|;
      assert TypeWords[i] !in {YesNo, Explanation, Calculation, Other};
    }
  }

  /** Second stage: without a question-word prefix, the answer is `YesNo`
      exactly when the first word is a yes/no starter. */
  lemma YesNoSecond(s: string)
    requires IsStripped(s) && !OpensWithTypeWord(s)
    ensures TypeOfNormalized(s) == YesNo <==> FirstToken(s) in YesNoStarters
  {
    assert FirstTypeWord(s, 0) == |TypeWords|;
    assert LeadingWord(s) == FirstToken(s);
  }

  /** Third stage: failing both earlier tests, the answer is `Explanation`
      exactly when the text starts with an explanation command. */
  lemma ExplanationThird(s: string)
    requires IsStripped(s) && !OpensWithTypeWord(s) && FirstToken(s) !in YesNoStarters
    ensures TypeOfNormalized(s) == Explanation <==> AnyPrefix(s, ExplanationCommands)
  {
    assert FirstTypeWord(s, 0) == |TypeWords|;
    assert LeadingWord(s) == FirstToken(s);
  }

  /** Last stages: failing the first three tests, the answer is
      `Calculation` when the text starts with a calculation command and
      `Other` when it does not. */
  lemma CalculationOrOther(s: string)
    requires IsStripped(s) && !OpensWithTypeWord(s) && FirstToken(s) !in YesNoStarters
    requires !AnyPrefix(s, ExplanationCommands)
    ensures TypeOfNormalized(s) == Calculation <==> AnyPrefix(s, CalculationCommands)
    ensures TypeOfNormalized(s) == Other <==> !AnyPrefix(s, CalculationCommands)
  {
    assert FirstTypeWord(s, 0) == |TypeWords|;
    assert LeadingWord(s) == FirstToken(s);
  }

  /** "whom" and "whose" questions are reported as `Who`. */
  lemma WhomAndWhoseReportedAsWho(s: string)
    requires StartsWith(s, Whom.Label()) || StartsWith(s, Whose.Label())
    ensures TypeOfNormalized(s) == Who
  {
    WhoShadows(s);
    assert s[2] == 'o';
    forall k | 0 <= k < 3 ensures !StartsWith(s, TypeWords[k].Label()) {
      NotPrefixAt(s, TypeWords[k].Label(), 2);
    }
    QuestionWordFirst(s);
    assert StartsWith(s, TypeWords[3].Label());
  }

  /** Every text starting with "how" is a `How` question, "however" and
      "howl" included. */
  lemma HowPrefixIsHow(s: string)
    requires StartsWith(s, How.Label())
    ensures TypeOfNormalized(s) == How
  {
    assert s[0] == 'h';
    forall k | 0 <= k < 8 ensures !StartsWith(s, TypeWords[k].Label()) {
      NotPrefixAt(s, TypeWords[k].Label(), 0);
    }
    QuestionWordFirst(s);
    assert StartsWith(s, TypeWords[8].Label());
  }

  /** No yes/no starter agrees with a question-word label on its first two
      letters. */
  lemma StarterAvoidsTypeWords(w: string)
    requires w in YesNoStarters
    ensures |w| >= 2
    ensures forall k | 0 <= k < |TypeWords| ::
      w[0] != TypeWords[k].Label()[0] || w[1] != TypeWords[k].Label()[1]
  {
  }

  /** So the first-word test is reached by every yes/no starter: a stripped
      text whose first word is a yes/no starter is a `YesNo` question, and
      only such a text is one. */
  lemma YesNoExactly(s: string)
    requires IsStripped(s)
    ensures TypeOfNormalized(s) == YesNo <==> FirstToken(s) in YesNoStarters
  {
    QuestionWordFirst(s);
    var w := FirstToken(s);
    if w in YesNoStarters {
      StarterAvoidsTypeWords(w);
      forall k | 0 <= k < |TypeWords| ensures !StartsWith(s, TypeWords[k].Label()) {
        var l := TypeWords[k].Label();
        assert s[0] == w[0] && s[1] == w[1];
        if w[0] != l[0] {
          NotPrefixAt(s, l, 0);
        } else {
          NotPrefixAt(s, l, 1);
        }
      }
    }
    if !OpensWithTypeWord(s) {
      YesNoSecond(s);
    }
  }

  // How the category relates to `is_question`.

  /** The yes/no starters are the inversion auxiliaries of `is_question`. */
  lemma YesNoStartersAreInversionWords()
    ensures YesNoStarters == InversionWords
  {
  }

  /** The first word of the normalized text is the lowercased first word of
      the stripped text. */
  lemma NormalizedFirstToken(question: string)
    ensures FirstToken(Normalized(question)) == LowerStr(FirstToken(Strip(question)))
    ensures |Normalized(question)| == |Strip(question)|
  {
    StripOfLower(question);
    FirstTokenOfLower(Strip(question));
  }

  /** A yes/no question of three or more characters is a question to
      `is_question` as well. */
  lemma YesNoTypeIsQuestion(question: string)
    requires |Strip(question)| >= 3 && GetQuestionType(question) == YesNo
    ensures IsQuestion(question)
  {
    var s := Normalized(question);
    assert FirstToken(s) in YesNoStarters by {
      QuestionWordFirst(s);
      YesNoSecond(s);
    }
    assert LowerStr(FirstToken(Strip(question))) in QuestionWords by {
      NormalizedFirstToken(question);
      YesNoStartersAreInversionWords();
      InversionWithinQuestionWords();
    }
    LeadingQuestionWordIsQuestion(question);
  }

  /** A text that differs from `p` at some position within both does not
      start with `p`. */
  lemma NotPrefixAt(s: string, p: string, i: nat)
    requires i < |s| && i < |p| && s[i] != p[i]
    ensures !StartsWith(s, p)
  {
  }

  /** No question word and no command starts with an `a`. */
  lemma NoTestStartsWithA(s: string)
    requires s != [] && s[0] == 'a'
    ensures !OpensWithTypeWord(s)
    ensures !AnyPrefix(s, ExplanationCommands) && !AnyPrefix(s, CalculationCommands)
  {
    forall k | 0 <= k < |TypeWords| ensures !StartsWith(s, TypeWords[k].Label()) {
      NotPrefixAt(s, TypeWords[k].Label(), 0);
    }
    forall k | 0 <= k < |ExplanationCommands| ensures !StartsWith(s, ExplanationCommands[k]) {
      NotPrefixAt(s, ExplanationCommands[k], 0);
    }
    forall k | 0 <= k < |CalculationCommands| ensures !StartsWith(s, CalculationCommands[k]) {
      NotPrefixAt(s, CalculationCommands[k], 0);
    }
  }

  lemma AmIsNoStarter()
    ensures "am" !in YesNoStarters
  {
  }

  /** A text that opens with "am" falls through every test to `Other`. */
  lemma AmTypedOther(s: string)
    requires IsStripped(s) && FirstToken(s) == "am"
    ensures TypeOfNormalized(s) == Other
  {
    assert s[0] == 'a' by {
      assert FirstToken(s) == s[..2];
    }
    NoTestStartsWithA(s);
    AmIsNoStarter();
    CalculationOrOther(s);
  }

  /** "am" opens a question for `is_question` ("Am I late"), but it is no
      yes/no starter, so such a question falls through to `Other`. */
  lemma AmIsQuestionButOther(question: string)
    requires |Strip(question)| >= 3 && LowerStr(FirstToken(Strip(question))) == "am"
    ensures IsQuestion(question)
    ensures GetQuestionType(question) == Other
  {
    LeadingQuestionWordIsQuestion(question);
    assert TypeOfNormalized(Normalized(question)) == Other by {
      NormalizedFirstToken(question);
      AmTypedOther(Normalized(question));
    }
  }
}
