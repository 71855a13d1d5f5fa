/**
  Worked cases of the detector's documented behaviour, each proved from the
  general lemmas.
 */
module Examples {
  import opened Text
  import opened Rules
  import opened QuestionDetector
  import opened QuestionTypes

  /** A stripped text is its own `strip()`. */
  lemma StrippedText(t: string)
    requires IsStripped(t)
    ensures Strip(t) == t
  {
    StripUnique(t, 0, |t|);
    assert t[0..|t|] == t;
  }

  /** "I know how it works": pattern 5 has no word boundary and need not
      start the text, so a statement is taken for a question. */
  lemma KnowHowIsQuestion()
    ensures IsQuestion("I know how it works")
  {
    var t := "I know how it works";
    StrippedText(t);
    assert LowerStr(t[7..10]) == "how";
    EmbeddedWordIsQuestion(t, 7, "how");
  }

  /** "somewhat odd": the "what" inside "somewhat" is enough. */
  lemma SomewhatIsQuestion()
    ensures IsQuestion("somewhat odd")
  {
    var t := "somewhat odd";
    StrippedText(t);
    assert LowerStr(t[4..8]) == "what";
    EmbeddedWordIsQuestion(t, 4, "what");
  }

  /** The lowercased, stripped form of a stripped text. */
  lemma NormalizedStripped(t: string)
    requires IsStripped(t)
    ensures Normalized(t) == LowerStr(t)
  {
    StrippedText(t);
    StripOfLower(t);
  }

  /** "Is the sky blue": an auxiliary first word, and a yes/no question. */
  lemma IsTheSkyBlue()
    ensures IsQuestion("Is the sky blue")
    ensures GetQuestionType("Is the sky blue") == YesNo
  {
    var t := "Is the sky blue";
    assert |Strip(t)| >= 3 && LowerStr(FirstToken(Strip(t))) == "is" by {
      StrippedText(t);
      FirstTokenIs(t, 2);
      assert LowerStr("Is") == "is";
    }
    LeadingQuestionWordIsQuestion(t);
    assert IsStripped(Normalized(t)) && FirstToken(Normalized(t)) == "is" by {
      NormalizedFirstToken(t);
    }
    YesNoExactly(Normalized(t));
  }

  /** "Am I late" is a question whose category is `Other`. */
  lemma AmILate()
    ensures IsQuestion("Am I late")
    ensures GetQuestionType("Am I late") == Other
  {
    var t := "Am I late";
    assert |Strip(t)| >= 3 && LowerStr(FirstToken(Strip(t))) == "am" by {
      StrippedText(t);
      FirstTokenIs(t, 2);
      assert LowerStr("Am") == "am";
    }
    AmIsQuestionButOther(t);
  }

  /** "however" is a `How` question: the type words are bare prefixes. */
  lemma HoweverIsHow()
    ensures GetQuestionType("however") == How
  {
    var t := "however";
    assert StartsWith(Normalized(t), "how") by {
      NormalizedStripped(t);
    }
    HowPrefixIsHow(Normalized(t));
  }

  /** "Whom did you see" is reported as `Who`. */
  lemma WhomIsReportedAsWho()
    ensures GetQuestionType("Whom did you see") == Who
  {
    var t := "Whom did you see";
    assert StartsWith(Normalized(t), "whom") by {
      NormalizedStripped(t);
      assert LowerStr(t)[..4] == "whom";
    }
    WhomAndWhoseReportedAsWho(Normalized(t));
  }
}
