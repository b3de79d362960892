/**
 * The QA-pair record the generator builds and the exporters read:
 * `{question, answer, sources: [{text, score}], metadata: {question_number,
 * total_questions}}`. The CSV flattener reads `sources`, `score`, `metadata`
 * and its two fields with `dict.get`, so each of those may be absent; the
 * generator always fills them in.
 */
module Records {
  import opened Wrappers

  /** A relevance score, held as the text `str()` gives for it. */
  datatype Score = Score(repr: string)

  /** The `score` slot: absent, present but `None`, or present with a value. */
  datatype ScoreEntry = Missing | NoneScore | Present(score: Score)

  /** One entry of `sources`: the supporting chunk's text and its score. */
  datatype Source = Source(text: string, score: ScoreEntry)

  datatype Metadata = Metadata(questionNumber: Option<int>, totalQuestions: Option<int>)

  datatype QAPair = QAPair(
    question: string,
    answer: string,
    sources: Option<seq<Source>>,
    metadata: Option<Metadata>)

  /** `qa_pair.get('metadata', {}).get('question_number')`. */
  function QuestionNumberOf(pair: QAPair): Option<int> {
    if pair.metadata.Some? then pair.metadata.value.questionNumber else None
  }

  /** `qa_pair.get('metadata', {}).get('total_questions')`. */
  function TotalQuestionsOf(pair: QAPair): Option<int> {
    if pair.metadata.Some? then pair.metadata.value.totalQuestions else None
  }
}
