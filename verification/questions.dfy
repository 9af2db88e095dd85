/**
 * The question hierarchy: an abstract question with three concrete kinds,
 * each grading a candidate answer the same way, plus the way a question's
 * options are written to and read back from the `questions` table.
 */
module Questions {
  import opened Wrappers
  import StringTrim
  import IgnoreCase
  import Split

  /** The three subclasses of the abstract question; only the multiple-choice kind carries options. */
  datatype Question =
    | ShortAnswer(questionId: int, quizId: int, text: string, correctAnswer: string)
    | TrueFalse(questionId: int, quizId: int, text: string, correctAnswer: string)
    | MultipleChoice(questionId: int, quizId: int, text: string, options: seq<string>, correctAnswer: string)

  const OptionSeparator: char := '~'

  /** What the `options` column holds for every true/false question. */
  const TrueFalseOptions: string := "True~False"

  /** The `questionType` tag each constructor passes to the base class. */
  function TypeName(q: Question): (name: string)
    ensures name == "Short Answer" <==> q.ShortAnswer?
    ensures name == "True/False" <==> q.TrueFalse?
    ensures name == "Multiple Choice" <==> q.MultipleChoice?
  {
    match q
    case ShortAnswer(_, _, _, _) => "Short Answer"
    case TrueFalse(_, _, _, _) => "True/False"
    case MultipleChoice(_, _, _, _, _) => "Multiple Choice"
  }

  /**
   * `gradeAnswer`, identical in all three subclasses: 1 when the trimmed
   * answer equals the correct answer ignoring case, 0 otherwise.
   */
  function Grade(q: Question, answer: string): (score: nat)
    ensures score <= 1
  {
    if IgnoreCase.EqualsIgnoreCase(q.correctAnswer, StringTrim.Trim(answer)) then 1 else 0
  }

  /** The point is earned exactly when the trimmed answer and the correct answer agree once lower-cased. */
  lemma GradeIffSameLower(q: Question, answer: string)
    ensures Grade(q, answer) == 1 <==> IgnoreCase.Lower(StringTrim.Trim(answer)) == IgnoreCase.Lower(q.correctAnswer)
    ensures Grade(q, answer) == 0 <==> IgnoreCase.Lower(StringTrim.Trim(answer)) != IgnoreCase.Lower(q.correctAnswer)
  {
    IgnoreCase.EqualsIgnoreCaseIffSameLower(q.correctAnswer, StringTrim.Trim(answer));
  }

  /** Blanks around an answer never change its grade. */
  lemma GradeOfTrimmedAnswer(q: Question, answer: string)
    ensures Grade(q, StringTrim.Trim(answer)) == Grade(q, answer)
  {
    StringTrim.TrimIdempotent(answer);
  }

  /** The grade depends on the correct answer alone: not on the kind, the text, the ids or the options. */
  lemma GradeDependsOnlyOnCorrectAnswer(q1: Question, q2: Question, answer: string)
    requires q1.correctAnswer == q2.correctAnswer
    ensures Grade(q1, answer) == Grade(q2, answer)
  {
  }

  /** The correct answer itself, however it is cased and whatever blanks precede or follow it, earns the point. */
  lemma CorrectAnswerEarnsPoint(q: Question, pre: string, answer: string, post: string)
    requires StringTrim.AllBlank(pre)
    requires StringTrim.AllBlank(post)
    requires IgnoreCase.Lower(answer) == IgnoreCase.Lower(q.correctAnswer)
    requires StringTrim.IsTrimmed(answer)
    ensures Grade(q, pre + answer + post) == 1
  {
    var s := pre + answer + post;
    var i, j := |pre|, |pre| + |answer|;
    assert s[i..j] == answer;
    assert s[..i] == pre;
    assert s[j..] == post;
    assert StringTrim.IsTrimOf(s, answer);
    StringTrim.TrimOfIsUnique(s, answer);
    GradeIffSameLower(q, s);
  }

  /** Worked short-answer example: padding and case are forgiven. */
  lemma ShortAnswerPaddedExample()
    ensures Grade(ShortAnswer(1, 1, "Capital of France?", "Paris"), " paris ") == 1
  {
    CorrectAnswerEarnsPoint(ShortAnswer(1, 1, "Capital of France?", "Paris"), " ", "paris", " ");
    assert " " + "paris" + " " == " paris ";
  }

  /** Worked short-answer example: extra letters are not forgiven. */
  lemma ShortAnswerLongerExample()
    ensures Grade(ShortAnswer(1, 1, "Capital of France?", "Paris"), "parisia") == 0
  {
    GradeIffSameLower(ShortAnswer(1, 1, "Capital of France?", "Paris"), "parisia");
    StringTrim.TrimOfTrimmed("parisia");
    assert |IgnoreCase.Lower("parisia")| != |IgnoreCase.Lower("Paris")|;
  }

  /** A true/false question accepts its answer in lower case. */
  lemma TrueFalseExample()
    ensures Grade(TrueFalse(2, 1, "The sky is blue.", "True"), "true") == 1
  {
    CorrectAnswerEarnsPoint(TrueFalse(2, 1, "The sky is blue.", "True"), "", "true", "");
    assert "" + "true" + "" == "true";
  }

  /** A multiple-choice question accepts its option in either case and rejects another option. */
  lemma MultipleChoiceExamples()
    ensures Grade(MultipleChoice(3, 1, "Second letter?", ["A", "B", "C"], "B"), "b") == 1
    ensures Grade(MultipleChoice(3, 1, "Second letter?", ["A", "B", "C"], "B"), "C") == 0
  {
    CorrectAnswerEarnsPoint(MultipleChoice(3, 1, "Second letter?", ["A", "B", "C"], "B"), "", "b", "");
    assert "" + "b" + "" == "b";
    GradeIffSameLower(MultipleChoice(3, 1, "Second letter?", ["A", "B", "C"], "B"), "C");
    StringTrim.TrimOfTrimmed("C");
    assert IgnoreCase.Lower("C")[0] != IgnoreCase.Lower("B")[0];
  }

  /** Options a multiple-choice question can store and get back unchanged. */
  predicate StorableOptions(options: seq<string>) {
    && |options| >= 1
    && (forall k :: 0 <= k < |options| ==> OptionSeparator !in options[k])
    && (|options| == 1 || options[|options| - 1] != "")
  }

  /** Storable options survive `join` followed by `split`. */
  lemma StoredOptionsRoundTrip(options: seq<string>)
    requires StorableOptions(options)
    ensures Split.JavaSplit(Split.Join(options, OptionSeparator), OptionSeparator) == options
  {
    Split.SplitJoinRoundTrip(options, OptionSeparator);
  }

  /** The `options` column written when a quiz is saved; `None` stands for SQL NULL. */
  function OptionsColumn(q: Question): (column: Option<string>)
    ensures column.None? <==> q.ShortAnswer?
    ensures q.TrueFalse? ==> column == Some(TrueFalseOptions)
    ensures q.MultipleChoice? ==> column == Some(Split.Join(q.options, OptionSeparator))
    ensures q.MultipleChoice? && StorableOptions(q.options) ==>
      Split.JavaSplit(column.value, OptionSeparator) == q.options
    ensures q.TrueFalse? ==> Split.JavaSplit(column.value, OptionSeparator) == ["True", "False"]
  {
    match q
    case ShortAnswer(_, _, _, _) => None
    case TrueFalse(_, _, _, _) =>
      Split.SplitJoinRoundTrip(["True", "False"], OptionSeparator);
      assert Split.Join(["True", "False"], OptionSeparator) == TrueFalseOptions;
      Some(TrueFalseOptions)
    case MultipleChoice(_, _, _, options, _) =>
      assert StorableOptions(options) ==>
        Split.JavaSplit(Split.Join(options, OptionSeparator), OptionSeparator) == options by {
        if StorableOptions(options) { StoredOptionsRoundTrip(options); }
      }
      Some(Split.Join(options, OptionSeparator))
  }

  /** What reading one row of the `questions` table yields. */
  datatype Loaded =
    | Loaded(question: Question)
    | Skipped       // an unknown question type: the row is passed over
    | NullOptions   // a multiple-choice row whose options are NULL: splitting them throws

  /** The `switch` on the question type that rebuilds a question from a row. */
  function FromRow(questionId: int, quizId: int, text: string, questionType: string,
                   options: Option<string>, correctAnswer: string): (l: Loaded)
    ensures l.Loaded? ==> TypeName(l.question) == questionType
    ensures l.Loaded? ==> l.question.questionId == questionId && l.question.quizId == quizId
    ensures l.Loaded? ==> l.question.text == text && l.question.correctAnswer == correctAnswer
    ensures l.Skipped? <==> questionType !in {"Short Answer", "True/False", "Multiple Choice"}
    ensures l.NullOptions? <==> questionType == "Multiple Choice" && options.None?
    ensures l.Loaded? && l.question.MultipleChoice? ==>
      l.question.options == Split.JavaSplit(options.value, OptionSeparator)
  {
    if questionType == "Short Answer" then
      Loaded(ShortAnswer(questionId, quizId, text, correctAnswer))
    else if questionType == "True/False" then
      Loaded(TrueFalse(questionId, quizId, text, correctAnswer))
    else if questionType == "Multiple Choice" then
      if options.None? then NullOptions
      else Loaded(MultipleChoice(questionId, quizId, text, Split.JavaSplit(options.value, OptionSeparator), correctAnswer))
    else Skipped
  }

  /**
   * Saving a question's columns and reading the row back gives the same
   * question, except for the id, which is whatever the database assigned.
   */
  lemma SaveLoadRoundTrip(q: Question, assignedId: int)
    requires q.MultipleChoice? ==> StorableOptions(q.options)
    ensures FromRow(assignedId, q.quizId, q.text, TypeName(q), OptionsColumn(q), q.correctAnswer)
         == Loaded(q.(questionId := assignedId))
  {
  }
}
