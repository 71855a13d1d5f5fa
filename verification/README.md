# QuestionDetector in Dafny

A model of the question detector behind a voice assistant. The assistant
transcribes speech and decides which utterances are questions worth
answering. The detector's three operations are modelled as pure functions
and methods:

- **is_question** decides whether one utterance is a question. It strips
  the text and requires at least three characters. The answer is yes if
  any of these holds:
  - the text ends in `?`;
  - one of five case-insensitive patterns matches;
  - the first word is a question word;
  - the first word is an inverting auxiliary.
- **extract_questions** cuts a passage into sentences at every run of
  `.`, `!` and `?`. It strips each sentence, keeps those `is_question`
  accepts, and makes each kept sentence end in `?`.
- **get_question_type** lowercases and strips a question. It then names
  the question's category: the first question word the text starts with,
  else `yes/no` for an auxiliary first word, else `explanation` or
  `calculation` for a command prefix, else `other`.

The Python builtins the detector leans on are modelled in `Text`:
`str.isspace`, `strip`, `split` and ASCII `lower`. `re.split` is
modelled in `Sentences`. The five compiled patterns become predicates in
`Rules`, and the fifth pattern is proved equal to a definition shaped like
the regular expression itself.

Modules:

| file | module | contents |
|---|---|---|
| `text.dfy` | `Text` | whitespace, `lower`, `strip`, `split` |
| `rules.dfy` | `Rules` | the word sets and the five patterns |
| `sentences.dfy` | `Sentences` | `re.split(r'[.!?]+', text)` and its inverse |
| `detector.dfy` | `QuestionDetector` | `is_question` and `extract_questions` |
| `question_type.dfy` | `QuestionTypes` | `get_question_type` |
| `examples.dfy` | `Examples` | worked inputs |

Some properties of the code, proved here, are surprising:

- The inversion test in `is_question` never changes the answer. Every
  inverting auxiliary is already a question word, so the first-word test
  has accepted the text before the inversion test runs.
- `extract_questions` always appends the `?`. A sentence produced by the
  split never contains `?`, so it can never already end in one.
- `get_question_type` never answers `whom` or `whose`. "who" is tried
  first, and it is a prefix of both words.
- "am" makes a text a question, but the category of that question is
  `other`. "am" is in the question-word set but not among the yes/no
  starters.
- The type test is a bare prefix test, so "however" is a `how` question.
- The fifth pattern has no word boundary, so "somewhat odd" and "I know
  how it works" are questions.

## Model

| member | source | states |
|---|---|---|
| Rules.InversionWithinQuestionWords | AIQuestionDetector.py:60-66 | every inverting auxiliary is a question word; the question words are exactly the auxiliaries plus the nine wh-words and "am" |
| Rules.MatchesAt | AIQuestionDetector.py:29 | a lowercase pattern word matches at a position when the text there, ASCII-lowercased, equals it, which is how the patterns compiled with IGNORECASE compare |
| Rules.EndsWithMark | AIQuestionDetector.py:21 | pattern 1 finds a `?` followed by the end of the text or by a newline that ends the text |
| Rules.EndsWithMarkStripped | AIQuestionDetector.py:21 | on a stripped text, pattern 1 matches exactly when the last character is `?` |
| Rules.OpensWithThenSpace | AIQuestionDetector.py:22-24 | patterns 2 to 4 match when one alternative, in any case, starts the text and is followed by whitespace |
| Rules.OpensWithWordThenSpace | AIQuestionDetector.py:22-23 | for alternatives free of whitespace, such a pattern matches exactly when the lowercased first word is an alternative and more text follows it |
| Rules.LeadingPatternsAreFirstWordTests | AIQuestionDetector.py:22-23 | patterns 2 and 3 match exactly when the lowercased first word is a wh-word or an auxiliary of the pattern, with more text after it |
| Rules.Matches | AIQuestionDetector.py:52 | `pattern.search(text)` for each of the five patterns |
| Rules.AnyRuleMatches | AIQuestionDetector.py:51-53 | the pattern loop succeeds when some pattern finds a match |
| Rules.SearchEmbedded | AIQuestionDetector.py:51-53 | the left-to-right search for the fifth pattern succeeds exactly when some start position matches |
| Rules.SearchEmbeddedIsRegex | AIQuestionDetector.py:25 | the search for the fifth pattern succeeds exactly when the regular expression has a match: word, whitespace run, no newline except a final one, then the end anchor |
| QuestionDetector.IsQuestion | AIQuestionDetector.py:41-48 | a stripped text shorter than three characters (blank text included) is never a question; a stripped text of three or more characters ending in `?` always is |
| QuestionDetector.IsQuestionByRules | AIQuestionDetector.py:31-68 | `is_question` holds exactly when the stripped text has three or more characters and ends in `?`, or matches a pattern, or has a lowercased first word among the question words; the inversion test adds nothing |
| QuestionDetector.LeadingQuestionWordIsQuestion | AIQuestionDetector.py:55-58 | a text of three or more stripped characters whose lowercased first word is a question word is a question |
| QuestionDetector.EmbeddedWordIsQuestion | AIQuestionDetector.py:51-53 | a wh-word of the fifth pattern, in any case, anywhere in the stripped text, followed by whitespace and no line break, makes a question |
| QuestionDetector.WithMark | AIQuestionDetector.py:89-90 | the result always ends in `?`; a sentence that already ends in `?` is kept as it is, and any other gets one `?` appended |
| QuestionDetector.KeptFrom | AIQuestionDetector.py:86-91 | a sentence contributes at most one element, and it contributes one exactly when its stripped form is non-empty and accepted |
| QuestionDetector.QuestionsIn | AIQuestionDetector.py:85-91 | the loop's result, defined sentence by sentence: what each sentence contributes, concatenated in order |
| QuestionDetector.AcceptedIsKept | AIQuestionDetector.py:85-91 | every sentence whose stripped form is non-empty and accepted contributes its marked form to the result |
| QuestionDetector.AcceptedSentencesKept | AIQuestionDetector.py:85-91 | for sentences cut at the delimiters, every accepted sentence appears in the result, stripped and followed by `?` |
| QuestionDetector.KeptSentence | AIQuestionDetector.py:86-91 | a kept sentence from the split is always marked: the result is the stripped sentence plus one `?`, and it is a well-formed question |
| QuestionDetector.QuestionsInExtracted | AIQuestionDetector.py:85-91 | every question kept from delimiter-free sentences is a non-empty stripped sentence that is free of delimiters, accepted by the classifier, and followed by one `?` |
| QuestionDetector.QuestionsInPicked | AIQuestionDetector.py:85-91 | the kept questions come in sentence order, at most one per sentence, each being that sentence stripped plus `?` |
| QuestionDetector.BlankTextHasNoQuestions | AIQuestionDetector.py:83-87 | a blank passage yields no questions |
| QuestionDetector.KeepQuestions | AIQuestionDetector.py:85-91 | the loop computes exactly the recursive sentence-by-sentence selection |
| QuestionDetector.ExtractQuestions | AIQuestionDetector.py:80-93 | the result is exactly the sentence-by-sentence selection over the split text. Every returned question is well formed and accepted by `is_question`, and the questions are picked in order, at most one per sentence. Every accepted sentence is returned, stripped and followed by `?`. A blank passage yields none |
| Sentences.Split | AIQuestionDetector.py:83 | there is at least one piece; no piece holds a delimiter; only the first and the last piece can be empty; a text without delimiters is its own single piece |
| Sentences.Separators | AIQuestionDetector.py:83 | there is one non-empty delimiter run between each pair of neighbouring pieces |
| Sentences.SplitRoundTrip | AIQuestionDetector.py:83 | putting the delimiter runs back between the pieces gives the original text |
| Text.Strip | AIQuestionDetector.py:44 | the result is a slice of the input with no whitespace at either end, and only whitespace was cut on either side |
| Text.StripEmpty | AIQuestionDetector.py:41 | stripping leaves nothing exactly when the text is all whitespace |
| Text.StripUnique | AIQuestionDetector.py:44 | any slice that is bounded by whitespace and does not begin or end with it is the stripped text |
| Text.StripIdempotent | AIQuestionDetector.py:86-87 | stripping an already stripped sentence again changes nothing |
| Text.WordsEmpty | AIQuestionDetector.py:117 | `split()` finds no word exactly when the text is all whitespace |
| Text.FirstWord | AIQuestionDetector.py:56 | on a text that does not open with whitespace, the first word of `split()` is the leading whitespace-free run |
| Text.FirstWordOfLower | AIQuestionDetector.py:56-61 | the first word of the lowercased text is the lowercased first word |
| Text.StripOfLower | AIQuestionDetector.py:105 | lowercasing and stripping commute |
| Text.IsSpace | AIQuestionDetector.py:44 | whitespace is the set of code points Python's `str.isspace()` accepts, the set `strip()`, `split()` and `\s` share |
| Text.LowerStr | AIQuestionDetector.py:61 | `lower()` keeps the length and lowercases each character on its own |
| Text.Words | AIQuestionDetector.py:56 | `split()` yields only non-empty words free of whitespace |
| QuestionTypes.FirstTypeWord | AIQuestionDetector.py:108-110 | the chosen question word is a prefix of the text, and no earlier word in the fixed order is |
| QuestionTypes.LeadingWord | AIQuestionDetector.py:117 | on a stripped text, the first word is the leading whitespace-free run, or empty |
| QuestionTypes.Normalized | AIQuestionDetector.py:105 | `question.lower().strip()` has no whitespace at either end |
| QuestionTypes.CommandType | AIQuestionDetector.py:122-128 | once the first two tests have failed, the answer is `explanation` for an explanation prefix, else `calculation` for a calculation prefix, else `other` |
| QuestionTypes.GetQuestionType | AIQuestionDetector.py:95-128 | the answer is never `whom` or `whose` |
| QuestionTypes.TypeOfNormalized | AIQuestionDetector.py:107-128 | the tests on the lowercased, stripped text never answer `whom` or `whose` |
| QuestionTypes.QuestionWordFirst | AIQuestionDetector.py:108-110 | a text starting with a question word gets the earliest such word in the fixed order; any other text gets `yes/no`, `explanation`, `calculation` or `other`, and only such a text gets one of these |
| QuestionTypes.YesNoSecond | AIQuestionDetector.py:112-119 | without a question-word prefix, the answer is `yes/no` exactly when the first word is a yes/no starter |
| QuestionTypes.ExplanationThird | AIQuestionDetector.py:122-123 | after the first two tests fail, the answer is `explanation` exactly when an explanation command is a prefix |
| QuestionTypes.CalculationOrOther | AIQuestionDetector.py:125-128 | after the first three tests fail, the answer is `calculation` exactly when a calculation command is a prefix, and `other` exactly when none is |
| QuestionTypes.WhomAndWhoseReportedAsWho | AIQuestionDetector.py:108-110 | a text starting with "whom" or "whose" is typed `who` |
| QuestionTypes.HowPrefixIsHow | AIQuestionDetector.py:108-110 | every text starting with "how" is typed `how` |
| QuestionTypes.StarterAvoidsTypeWords | AIQuestionDetector.py:108-115 | no yes/no starter shares its first two letters with a question word, so none is shadowed by the prefix test |
| QuestionTypes.YesNoExactly | AIQuestionDetector.py:108-119 | a stripped text is typed `yes/no` exactly when its first word is a yes/no starter |
| QuestionTypes.YesNoStartersAreInversionWords | AIQuestionDetector.py:113-115 | the yes/no starters are exactly the inverting auxiliaries of `is_question` |
| QuestionTypes.NormalizedFirstToken | AIQuestionDetector.py:105 | the first word of the lowercased, stripped question is the lowercased first word of the stripped question, and the two texts have the same length |
| QuestionTypes.YesNoTypeIsQuestion | AIQuestionDetector.py:113-119 | a `yes/no` question of three or more stripped characters is accepted by `is_question` |
| QuestionTypes.AmTypedOther | AIQuestionDetector.py:113-128 | a stripped text whose first word is "am" is typed `other` |
| QuestionTypes.AmIsQuestionButOther | AIQuestionDetector.py:12-17 | a text whose lowercased first word is "am" is a question to `is_question`, but `get_question_type` types it `other` |
| Examples.KnowHowIsQuestion | AIQuestionDetector.py:25 | "I know how it works" is a question |
| Examples.SomewhatIsQuestion | AIQuestionDetector.py:25 | "somewhat odd" is a question |
| Examples.IsTheSkyBlue | AIQuestionDetector.py:113-119 | "Is the sky blue" is a question, typed `yes/no` |
| Examples.AmILate | AIQuestionDetector.py:16 | "Am I late" is a question, typed `other` |
| Examples.HoweverIsHow | AIQuestionDetector.py:108-110 | "however" is typed `how` |
| Examples.WhomIsReportedAsWho | AIQuestionDetector.py:108-110 | "Whom did you see" is typed `who` |

## Left out

- The rest of the application (audio capture, the language-model client, the window, the setup script and the entry point) is not part of this model. It is I/O around the detector.
- `Text.Lower` lowercases ASCII letters only. Python's `str.lower()` also lowercases other scripts, and for some characters the result is longer than the input; neither is modelled.
- `Rules.MatchesAt` models `re.IGNORECASE` as ASCII case folding. The non-ASCII case equivalents Python's engine also accepts are not modelled: the Kelvin sign for `k`, the long s for `s`, and the dotted and dotless i for `i`.
- Python strings can hold lone surrogate code points, but Dafny's `char` cannot, so such texts are outside the model.
- The regular-expression engine itself is not modelled. Each compiled pattern is written out as a predicate of the text. For the fifth pattern, the search is proved equal to a definition shaped like the regular expression.
- `QuestionDetector.KeepQuestions` takes the sentence classifier as a parameter. `QuestionDetector.ExtractQuestions` passes it `QuestionDetector.IsQuestion`. The method is otherwise the source's loop.
- `QuestionTypes.GetQuestionType` returns a category rather than the label string. `QuestionType.Label()` gives the string the source returns.
- The detector's constructor only builds constant tables, so they are module constants here.
