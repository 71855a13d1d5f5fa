/**
  `QuestionDetector`: whether an utterance is a question, the questions in a
  longer passage, and the coarse type of a question. All three are pure
  functions of the text and the fixed rule tables.
 */
module QuestionDetector {
  import opened Text
  import opened Rules
  import opened Sentences

  // ---------------------------------------------------------------------
  // is_question
  // ---------------------------------------------------------------------

  /** `is_question`: a length guard on the stripped text, then the trailing
      `?`, the five patterns, the first-word test and the inversion test, the
      first one that succeeds answering true. */
  function IsQuestion(text: string): (r: bool)
    ensures r ==> |Strip(text)| >= 3
    ensures AllSpace(text) ==> !r
    ensures |Strip(text)| >= 3 && Strip(text)[|Strip(text)| - 1] == '?' ==> r
  {
    StripEmpty(text);
    if |text| == 0 || |Strip(text)| < 3 then false
    else
      var t := Strip(text);
      if t[|t| - 1] == '?' then true
      else if AnyRuleMatches(t) then true
      else
        FirstWord(t);
        if LowerStr(Words(t)[0]) in QuestionWords then true
        else
          var words := Words(LowerStr(t));
          |words| >= 2 && words[0] in InversionWords
  }

  /** The decision `IsQuestion` takes, stated on the stripped text without
      the inversion test and with the first word read off directly. */
  ghost predicate QuestionByRules(t: string) {
    && |t| >= 3
    && (|| t[|t| - 1] == '?'
        || AnyRuleMatches(t)
        || LowerStr(FirstToken(t)) in QuestionWords)
  }

  /** `IsQuestion` is exactly the disjunction of the mark, the patterns and
      the first-word test on the stripped text: the inversion test never
      changes the answer, because its auxiliaries are all question words. */
  lemma IsQuestionByRules(text: string)
    ensures IsQuestion(text) <==> QuestionByRules(Strip(text))
  {
    var t := Strip(text);
    if |t| >= 3 {
      FirstWord(t);
      FirstWordOfLower(t);
      InversionWithinQuestionWords();
    }
  }

  /** A stripped text of three or more characters whose first word,
      lowercased, is a question word is a question ("Is the sky blue",
      "Am I late"). */
  lemma LeadingQuestionWordIsQuestion(text: string)
    requires |Strip(text)| >= 3
    requires LowerStr(FirstToken(Strip(text))) in QuestionWords
    ensures IsQuestion(text)
  {
    IsQuestionByRules(text);
  }

  /** Pattern 5 has no word boundary: one of what/how/why/when/where, in any
      case and anywhere in the stripped text, followed by whitespace, makes a
      question, provided no line break follows it. */
  lemma EmbeddedWordIsQuestion(text: string, i: nat, w: string)
    requires |Strip(text)| >= 3
    requires w in EmbeddedWords && MatchesAt(Strip(text), i, w)
    requires i + |w| < |Strip(text)| && IsSpace(Strip(text)[i + |w|])
    requires forall m :: i <= m < |Strip(text)| ==> Strip(text)[m] != '\n'
    ensures IsQuestion(text)
  {
    var t := Strip(text);
    assert RestOfLineFrom(t, SkipSpace(t, i + |w|));
    assert EmbeddedWordAt(t, i, w);
    assert EmbeddedAt(t, i);
    assert SearchEmbedded(t, 0);
    assert QuestionRules[4] == EmbeddedQuestionWord;
    assert AnyRuleMatches(t);
    IsQuestionByRules(text);
  }

  // ---------------------------------------------------------------------
  // extract_questions
  // ---------------------------------------------------------------------

  /** A stripped sentence with the question mark put back when it lacks one. */
  function WithMark(sentence: string): (q: string)
    ensures q != [] && q[|q| - 1] == '?'
    ensures sentence != [] && sentence[|sentence| - 1] == '?' ==> q == sentence
    ensures sentence == [] || sentence[|sentence| - 1] != '?' ==> q == sentence + "?"
  {
    if sentence != [] && sentence[|sentence| - 1] == '?' then sentence else sentence + "?"
  }

  /** What one sentence contributes: its stripped form, marked, when that is
      non-empty and the classifier accepts it, and nothing otherwise. */
  function KeptFrom(sentence: string, isQuestion: string -> bool): (kept: seq<string>)
    ensures |kept| <= 1
    ensures kept != [] <==> Strip(sentence) != [] && isQuestion(Strip(sentence))
  {
    var s := Strip(sentence);
    if s != [] && isQuestion(s) then [WithMark(s)] else []
  }

  /** The sentences a classifier accepts, stripped and marked, in order. The
      detector passes `IsQuestion`; keeping the classifier a parameter keeps
      the extraction proofs apart from the classifier's rules. */
  function QuestionsIn(sentences: seq<string>, isQuestion: string -> bool): seq<string>
    decreases |sentences|
  {
    if sentences == [] then []
    else KeptFrom(sentences[0], isQuestion) + QuestionsIn(sentences[1..], isQuestion)
  }

  /** An element `extract_questions` can return: a non-empty stripped
      sentence free of delimiters that the classifier accepts, followed by
      one `?`. */
  ghost predicate ExtractedQuestion(q: string, isQuestion: string -> bool) {
    && |q| >= 2 && q[|q| - 1] == '?'
    && var body := q[..|q| - 1];
    && body != [] && IsStripped(body) && NoDelimiter(body) && isQuestion(body)
  }

  /** `qs` picks, in order, at most one question from each sentence: the
      stripped sentence followed by `?`. */
  ghost predicate PickedInOrder(qs: seq<string>, sentences: seq<string>)
    decreases |sentences|
  {
    if qs == [] then true
    else if sentences == [] then false
    else
      || (qs[0] == Strip(sentences[0]) + "?" && PickedInOrder(qs[1..], sentences[1..]))
      || PickedInOrder(qs, sentences[1..])
  }

  lemma {:induction false} PickedBound(qs: seq<string>, sentences: seq<string>)
    requires PickedInOrder(qs, sentences)
    ensures |qs| <= |sentences|
    decreases |sentences|
  {
    if qs != [] {
      if qs[0] == Strip(sentences[0]) + "?" && PickedInOrder(qs[1..], sentences[1..]) {
        PickedBound(qs[1..], sentences[1..]);
      } else {
        PickedBound(qs, sentences[1..]);
      }
    }
  }

  /** Stripping cannot bring a delimiter into a sentence free of them. */
  lemma StripKeepsNoDelimiter(sentence: string)
    requires NoDelimiter(sentence)
    ensures NoDelimiter(Strip(sentence))
  {
    var a := StripOffset(sentence);
    NoDelimiterSlice(sentence, a, a + |Strip(sentence)|);
  }

  /** A sentence cut at the delimiter runs never ends in `?`, so the mark is
      always appended to it. */
  lemma KeptSentenceMarked(sentence: string, isQuestion: string -> bool)
    requires NoDelimiter(sentence)
    requires KeptFrom(sentence, isQuestion) != []
    ensures KeptFrom(sentence, isQuestion) == [Strip(sentence) + "?"]
  {
    var s := Strip(sentence);
    StripKeepsNoDelimiter(sentence);
    assert s[|s| - 1] != '?';
  }

  /** What a sentence contributes is a well-formed question. */
  lemma KeptSentence(sentence: string, isQuestion: string -> bool)
    requires NoDelimiter(sentence)
    requires KeptFrom(sentence, isQuestion) != []
    ensures KeptFrom(sentence, isQuestion) == [Strip(sentence) + "?"]
    ensures ExtractedQuestion(Strip(sentence) + "?", isQuestion)
  {
    KeptSentenceMarked(sentence, isQuestion);
    var s := Strip(sentence);
    StripKeepsNoDelimiter(sentence);
    var q := s + "?";
    assert q[..|q| - 1] == s;
  }

  /** Every kept question is well formed. */
  lemma {:induction false} QuestionsInExtracted(sentences: seq<string>, isQuestion: string -> bool)
    requires forall k :: 0 <= k < |sentences| ==> NoDelimiter(sentences[k])
    ensures forall q | q in QuestionsIn(sentences, isQuestion) :: ExtractedQuestion(q, isQuestion)
    decreases |sentences|
  {
    if sentences != [] {
      var rest := sentences[1..];
      QuestionsInExtracted(rest, isQuestion);
      if KeptFrom(sentences[0], isQuestion) != [] {
        KeptSentence(sentences[0], isQuestion);
      }
    }
  }

  /** The kept questions come in sentence order, at most one per sentence. */
  lemma {:induction false} QuestionsInPicked(sentences: seq<string>, isQuestion: string -> bool)
    requires forall k :: 0 <= k < |sentences| ==> NoDelimiter(sentences[k])
    ensures PickedInOrder(QuestionsIn(sentences, isQuestion), sentences)
    ensures |QuestionsIn(sentences, isQuestion)| <= |sentences|
    decreases |sentences|
  {
    if sentences != [] {
      var rest := sentences[1..];
      QuestionsInPicked(rest, isQuestion);
      var qs := QuestionsIn(sentences, isQuestion);
      if KeptFrom(sentences[0], isQuestion) != [] {
        KeptSentence(sentences[0], isQuestion);
        assert qs[0] == Strip(sentences[0]) + "?" && qs[1..] == QuestionsIn(rest, isQuestion);
      } else {
        assert qs == QuestionsIn(rest, isQuestion);
      }
      PickedBound(qs, sentences);
    }
  }

  /** Nothing accepted is lost: every sentence whose stripped form is
      non-empty and accepted by the classifier contributes its marked form. */
  lemma {:induction false} AcceptedIsKept(sentences: seq<string>, isQuestion: string -> bool, k: nat)
    requires k < |sentences|
    requires Strip(sentences[k]) != [] && isQuestion(Strip(sentences[k]))
    ensures WithMark(Strip(sentences[k])) in QuestionsIn(sentences, isQuestion)
    decreases k
  {
    var rest := sentences[1..];
    assert QuestionsIn(sentences, isQuestion) == KeptFrom(sentences[0], isQuestion) + QuestionsIn(rest, isQuestion);
    if k > 0 {
      assert rest[k - 1] == sentences[k];
      AcceptedIsKept(rest, isQuestion, k - 1);
    }
  }

  /** Every accepted sentence of delimiter-free pieces comes back, stripped
      and followed by `?`. */
  lemma AcceptedSentencesKept(sentences: seq<string>, isQuestion: string -> bool)
    requires forall k :: 0 <= k < |sentences| ==> NoDelimiter(sentences[k])
    ensures forall k | 0 <= k < |sentences| && Strip(sentences[k]) != [] && isQuestion(Strip(sentences[k])) ::
      Strip(sentences[k]) + "?" in QuestionsIn(sentences, isQuestion)
  {
    forall k | 0 <= k < |sentences| && Strip(sentences[k]) != [] && isQuestion(Strip(sentences[k]))
      ensures Strip(sentences[k]) + "?" in QuestionsIn(sentences, isQuestion)
    {
      AcceptedIsKept(sentences, isQuestion, k);
      KeptSentenceMarked(sentences[k], isQuestion);
    }
  }

  /** A blank text is one sentence, and a blank one, so nothing is kept. */
  lemma BlankTextHasNoQuestions(text: string, isQuestion: string -> bool)
    requires AllSpace(text)
    ensures QuestionsIn(Split(text), isQuestion) == []
  {
    assert NoDelimiter(text) by {
      forall m | 0 <= m < |text| ensures !IsDelimiter(text[m]) {
        assert IsSpace(text[m]);
      }
    }
    StripEmpty(text);
    assert Split(text)[1..] == [];
  }

  lemma ConcatAssoc(a: seq<string>, b: seq<string>, c: seq<string>)
    ensures (a + b) + c == a + (b + c)
  {
  }

  /** The loop of `extract_questions`: strip each sentence and keep those the
      classifier accepts, with `?` appended when missing. It computes exactly
      the recursive `QuestionsIn`. */
  method KeepQuestions(sentences: seq<string>, isQuestion: string -> bool) returns (questions: seq<string>)
    ensures questions == QuestionsIn(sentences, isQuestion)
  {
    questions := [];
    var n := 0;
    assert questions + QuestionsIn(sentences[n..], isQuestion) == QuestionsIn(sentences, isQuestion) by {
      assert sentences[n..] == sentences;
    }
    while n < |sentences|
      invariant n <= |sentences|
      invariant questions + QuestionsIn(sentences[n..], isQuestion) == QuestionsIn(sentences, isQuestion)
    {
      ghost var before := questions;
      var sentence := Strip(sentences[n]);
      if sentence != [] && isQuestion(sentence) {
        if !(sentence[|sentence| - 1] == '?') {
          sentence := sentence + "?";
        }
        questions := questions + [sentence];
      }
      assert questions == before + KeptFrom(sentences[n], isQuestion);
      KeepStep(sentences, n, before, questions, isQuestion);
      n := n + 1;
    }
    assert sentences[n..] == [];
  }

  /** One turn of the loop keeps its invariant. */
  lemma KeepStep(sentences: seq<string>, n: nat, before: seq<string>, after: seq<string>,
                 isQuestion: string -> bool)
    requires n < |sentences|
    requires before + QuestionsIn(sentences[n..], isQuestion) == QuestionsIn(sentences, isQuestion)
    requires after == before + KeptFrom(sentences[n], isQuestion)
    ensures after + QuestionsIn(sentences[n + 1..], isQuestion) == QuestionsIn(sentences, isQuestion)
  {
    assert sentences[n..][1..] == sentences[n + 1..];
    ConcatAssoc(before, KeptFrom(sentences[n], isQuestion), QuestionsIn(sentences[n + 1..], isQuestion));
  }

  /** `extract_questions`: split on delimiter runs, then keep the sentences
      that are questions. */
  method ExtractQuestions(text: string) returns (questions: seq<string>)
    ensures forall q | q in questions :: ExtractedQuestion(q, IsQuestion)
    ensures PickedInOrder(questions, Split(text))
    ensures |questions| <= |Split(text)|
    ensures AllSpace(text) ==> questions == []
    ensures forall k | 0 <= k < |Split(text)| && Strip(Split(text)[k]) != [] && IsQuestion(Strip(Split(text)[k])) ::
      Strip(Split(text)[k]) + "?" in questions
    ensures questions == QuestionsIn(Split(text), IsQuestion)
  {
    var sentences := Split(text);
    questions := KeepQuestions(sentences, IsQuestion);
    QuestionsInExtracted(sentences, IsQuestion);
    AcceptedSentencesKept(sentences, IsQuestion);
    QuestionsInPicked(sentences, IsQuestion);
    if AllSpace(text) {
      BlankTextHasNoQuestions(text, IsQuestion);
    }
  }
}
