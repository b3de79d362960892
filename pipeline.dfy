/**
 * The run `main` makes: the pairs `generate_qa_pairs` returns are handed to
 * the CSV exporter. This module states what the exported table says about
 * the questions that were answered.
 */
module Pipeline {
  import opened Wrappers
  import opened Text
  import opened QaGenerator
  import opened CsvExport

  /**
   * Exporting the answers to `questions` fails exactly when every query was
   * skipped. Otherwise each row's `question_number` reads back as the 1-based
   * position of its question among the capped questions, its `question` is
   * that question, and its `total_questions` reads back as the capped count.
   */
  lemma ExportedRows(questions: seq<string>, query: string -> Option<Response>)
    ensures var pairs := AnswerQuestions(questions, query);
      && (Export(pairs).Failure? <==> forall m :: 1 <= m <= |questions| ==> !Answered(questions, m, query))
      && forall k :: 0 <= k < |pairs| ==>
        && 1 <= QuestionNumber(pairs[k]) <= |questions|
        && Column(pairs[k], "question") == questions[QuestionNumber(pairs[k]) - 1]
        && ParseInt(Column(pairs[k], "question_number")) == Some(QuestionNumber(pairs[k]))
        && ParseInt(Column(pairs[k], "total_questions")) == Some(|questions|)
  {
    var pairs := AnswerQuestions(questions, query);
    AnswersNumbered(questions, |questions|, query);
    forall k | 0 <= k < |pairs|
      ensures Column(pairs[k], "question") == pairs[k].question
      ensures ParseInt(Column(pairs[k], "question_number")) == Some(QuestionNumber(pairs[k]))
      ensures ParseInt(Column(pairs[k], "total_questions")) == Some(|questions|)
    {
      ColumnAt(pairs[k], 0);
      MetadataColumns(pairs[k]);
    }
    if pairs != [] {
      assert QuestionNumbers(pairs)[0] == QuestionNumber(pairs[0]);
      assert Answered(questions, QuestionNumber(pairs[0]), query);
    }
  }

  /**
   * When no query is skipped, the table has one row per capped question, and
   * row `k` holds question `k + 1` with its number in the `question_number`
   * column.
   */
  lemma ExportedRowsWhenNoneSkipped(questions: seq<string>, query: string -> Option<Response>)
    requires |questions| >= 1
    requires forall m :: 1 <= m <= |questions| ==> Answered(questions, m, query)
    ensures var r := Export(AnswerQuestions(questions, query));
      && r.Success? && |r.value.rows| == |questions|
      && forall k :: 0 <= k < |questions| ==>
        && Column(AnswerQuestions(questions, query)[k], "question") == questions[k]
        && ParseInt(Column(AnswerQuestions(questions, query)[k], "question_number")) == Some(k + 1)
  {
    var pairs := AnswerQuestions(questions, query);
    NumbersWhenNoneSkipped(questions, |questions|, query);
    ExportedRows(questions, query);
    assert Answered(questions, 1, query);
    forall k | 0 <= k < |questions|
      ensures Column(pairs[k], "question") == questions[k]
      ensures ParseInt(Column(pairs[k], "question_number")) == Some(k + 1)
    {
      assert QuestionNumber(pairs[k]) == k + 1;
    }
  }
}
