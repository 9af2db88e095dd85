/**
 * Taking a quiz: the quiz picker's "<id>: <title>" labels, and submitting
 * the answers of one attempt, which grades every question, records one
 * answer row per question and one response row carrying the total.
 */
module Attempt {
  import opened Wrappers
  import Questions
  import Split
  import Decimal

  /** One question panel of an attempt: the question shown and the answer the student gave. */
  datatype Answered = Answered(question: Questions.Question, answer: string)

  /** A row of the `student_answers` table. */
  datatype AnswerRow = AnswerRow(userId: int, quizId: int, questionId: int, answer: string, score: nat)

  /** What pressing "submit" produces. */
  datatype Submission =
    | NoQuizSelected                 // nothing selected: a warning, nothing is written
    | UnreadableLabel                // the label does not start with a quiz id: Java throws, uncaught
    | Submitted(quizId: int, answerRows: seq<AnswerRow>, totalScore: nat)

  function Score(p: Answered): nat {
    Questions.Grade(p.question, p.answer)
  }

  /** The grade of every panel, in order. */
  function Scores(panels: seq<Answered>): (grades: seq<nat>)
    ensures |grades| == |panels|
    ensures forall k :: 0 <= k < |panels| ==> grades[k] == Score(panels[k]) && grades[k] <= 1
  {
    seq(|panels|, k requires 0 <= k < |panels| => Score(panels[k]))
  }

  /** Each grade is a single point or nothing. */
  ghost predicate AllBits(xs: seq<nat>) {
    forall k :: 0 <= k < |xs| ==> xs[k] <= 1
  }

  /** Adds the numbers up from the first to the last. */
  function Sum(xs: seq<nat>): nat {
    if |xs| == 0 then 0 else Sum(xs[..|xs| - 1]) + xs[|xs| - 1]
  }

  /** A sum of zeros and ones is at most the number of terms, reaching it exactly when every term is one. */
  lemma {:induction false} SumOfBits(xs: seq<nat>)
    requires AllBits(xs)
    ensures Sum(xs) <= |xs|
    ensures Sum(xs) == |xs| <==> forall k :: 0 <= k < |xs| ==> xs[k] == 1
    ensures Sum(xs) == 0 <==> forall k :: 0 <= k < |xs| ==> xs[k] == 0
  {
    if |xs| > 0 {
      var init := xs[..|xs| - 1];
      assert forall k :: 0 <= k < |init| ==> init[k] == xs[k];
      SumOfBits(init);
    }
  }

  /** Extending a prefix by one element adds that element to the sum. */
  lemma SumPrefixStep(xs: seq<nat>, i: nat)
    requires i < |xs|
    ensures Sum(xs[..i + 1]) == Sum(xs[..i]) + xs[i]
  {
    assert xs[..i + 1][..i] == xs[..i];
  }

  /** The total of an attempt: the grades of its panels added up in order. */
  function TotalScore(panels: seq<Answered>): (total: nat)
    ensures total <= |panels|
  {
    var grades := Scores(panels);
    SumOfBits(grades);
    Sum(grades)
  }

  /** Full marks exactly when every answer earned its point, and zero exactly when none did. */
  lemma FullMarksIffAllCorrect(panels: seq<Answered>)
    ensures TotalScore(panels) == |panels| <==> forall k :: 0 <= k < |panels| ==> Score(panels[k]) == 1
    ensures TotalScore(panels) == 0 <==> forall k :: 0 <= k < |panels| ==> Score(panels[k]) == 0
  {
    SumOfBits(Scores(panels));
  }

  /** The label shown for a quiz in the quiz picker. */
  function QuizLabel(quizId: int, title: string): (s: string)
    ensures |s| == |Decimal.IntToString(quizId)| + 2 + |title|
    ensures s[..|Decimal.IntToString(quizId)|] == Decimal.IntToString(quizId)
    ensures s[|Decimal.IntToString(quizId)|] == ':'
    ensures s[|s| - |title|..] == title
  {
    Decimal.IntToString(quizId) + ": " + title
  }

  /**
   * `Integer.parseInt(item.split(":")[0])`: `None` where Java throws, on an
   * empty split (an index out of bounds) or on a first field that is not a number.
   */
  function QuizIdOfLabel(item: string): (id: Option<int>)
    ensures id.Some? ==> Decimal.IsInt32(id.value)
  {
    var fields := Split.JavaSplit(item, ':');
    if |fields| == 0 then None else Decimal.ParseInt(fields[0])
  }

  /** The quiz id read back from a label is the one it was built from, whatever the title. */
  lemma QuizLabelRoundTrip(quizId: int, title: string)
    requires Decimal.IsInt32(quizId)
    ensures QuizIdOfLabel(QuizLabel(quizId, title)) == Some(quizId)
  {
    var digits := Decimal.IntToString(quizId);
    assert QuizLabel(quizId, title) == digits + [':'] + (" " + title);
    Split.FirstSplitField(digits, ':', " " + title);
    Decimal.ParseIntToString(quizId);
  }

  /** The `student_answers` row written for one graded panel. */
  function RowOf(userId: int, quizId: int, p: Answered): (row: AnswerRow)
    ensures row.questionId == p.question.questionId && row.answer == p.answer
    ensures row.score <= 1
  {
    AnswerRow(userId, quizId, p.question.questionId, p.answer, Score(p))
  }

  /** The loop of `submitResponses`: grade each panel in order, write its answer row, and sum the grades. */
  method GradeAll(userId: int, quizId: int, panels: seq<Answered>)
    returns (rows: seq<AnswerRow>, total: nat)
    ensures |rows| == |panels|
    ensures forall k :: 0 <= k < |panels| ==> rows[k] == RowOf(userId, quizId, panels[k])
    ensures total == TotalScore(panels) && total <= |panels|
  {
    var grades := Scores(panels);
    rows := [];
    total := 0;
    var i := 0;
    while i < |panels|
      invariant 0 <= i <= |panels|
      invariant |rows| == i
      invariant forall k :: 0 <= k < i ==> rows[k] == RowOf(userId, quizId, panels[k])
      invariant total == Sum(grades[..i])
    {
      SumPrefixStep(grades, i);
      total := total + grades[i];
      rows := rows + [RowOf(userId, quizId, panels[i])];
      i := i + 1;
    }
    assert grades[..i] == grades;
  }

  /** `submitResponses`: read the quiz id from the selected label, then grade and record every answer. */
  method SubmitResponses(userId: int, selected: Option<string>, panels: seq<Answered>)
    returns (s: Submission)
    ensures selected.None? <==> s.NoQuizSelected?
    ensures s.UnreadableLabel? <==> selected.Some? && QuizIdOfLabel(selected.value).None?
    ensures s.Submitted? ==> Some(s.quizId) == QuizIdOfLabel(selected.value)
    ensures s.Submitted? ==> |s.answerRows| == |panels|
    ensures s.Submitted? ==> forall k :: 0 <= k < |panels| ==> s.answerRows[k] == RowOf(userId, s.quizId, panels[k])
    ensures s.Submitted? ==> s.totalScore == TotalScore(panels) && s.totalScore <= |panels|
  {
    if selected.None? {
      return NoQuizSelected;
    }
    var parsed := QuizIdOfLabel(selected.value);
    if parsed.None? {
      return UnreadableLabel;
    }
    var rows, total := GradeAll(userId, parsed.value, panels);
    return Submitted(parsed.value, rows, total);
  }
}
