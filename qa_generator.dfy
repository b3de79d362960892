/**
 * `QAGenerator.preprocess_documents` and `QAGenerator.generate_qa_pairs`.
 *
 * The remote services are inputs: `generateQuestions` stands for the
 * dataset generator's `generate_questions_from_nodes` over the chunk
 * documents, and `query` for the vector index's query engine, where `None`
 * means the call raised. The index and generator are built from the chunk
 * documents; nothing of them is modelled beyond these two functions.
 */
module QaGenerator {
  import opened Wrappers
  import opened Chunking
  import opened Records

  /** The value `main` passes as `max_questions_per_chunk`. */
  const DEFAULT_MAX_QUESTIONS_PER_CHUNK := 3

  /** A document: its text (`None` when it has no `text` attribute) and its metadata. */
  datatype Document = Document(text: Option<string>, metadata: map<string, string>)

  /** A retrieved node: the text of the chunk it points at and its `score` attribute. */
  datatype SourceNode = SourceNode(content: string, score: ScoreEntry)

  /** A query result: `str(response)` and the `source_nodes` attribute, when it has one. */
  datatype Response = Response(text: string, sourceNodes: Option<seq<SourceNode>>)

  /** `hasattr(doc, 'text') and doc.text`. */
  predicate HasText(doc: Document) {
    doc.text.Some? && doc.text.value != ""
  }

  /** `Document(text=chunk)` for each chunk: the parent's metadata is not carried over. */
  function AsDocuments(chunks: seq<string>): seq<Document> {
    seq(|chunks|, k requires 0 <= k < |chunks| => Document(Some(chunks[k]), map[]))
  }

  /**
   * What `preprocess_documents` returns for `documents`: one new document per
   * chunk of each document that has text, in order. Every one of them holds a
   * chunk and no metadata.
   */
  function Preprocessed(documents: seq<Document>): (processed: seq<Document>)
    ensures forall k :: 0 <= k < |processed| ==>
      processed[k].text.Some? && IsChunk(processed[k].text.value) && processed[k].metadata == map[]
    decreases |documents|
  {
    if documents == [] then []
    else
      var last := documents[|documents| - 1];
      var added := if HasText(last) then AsDocuments(SplitIntoChunks(last.text.value)) else [];
      var init := Preprocessed(documents[..|documents| - 1]);
      assert forall k :: |init| <= k < |init| + |added| ==> (init + added)[k] == added[k - |init|];
      init + added
  }

  /** The inner loop of `preprocess_documents`: one new document per chunk, appended in order. */
  method AppendChunkDocuments(processedDocs: seq<Document>, chunks: seq<string>) returns (extended: seq<Document>)
    ensures extended == processedDocs + AsDocuments(chunks)
  {
    extended := processedDocs;
    for j := 0 to |chunks|
      invariant extended == processedDocs + AsDocuments(chunks[..j])
    {
      extended := extended + [Document(Some(chunks[j]), map[])];
      assert AsDocuments(chunks[..j + 1]) == AsDocuments(chunks[..j]) + [Document(Some(chunks[j]), map[])];
    }
    assert chunks[..|chunks|] == chunks;
  }

  /** `preprocess_documents`: the loop over the documents, skipping those without text. */
  method PreprocessDocuments(documents: seq<Document>) returns (processedDocs: seq<Document>)
    ensures processedDocs == Preprocessed(documents)
  {
    processedDocs := [];
    for i := 0 to |documents|
      invariant processedDocs == Preprocessed(documents[..i])
    {
      var doc := documents[i];
      assert documents[..i + 1][..i] == documents[..i];
      if HasText(doc) {
        var chunks := SplitIntoChunks(doc.text.value);
        processedDocs := AppendChunkDocuments(processedDocs, chunks);
      }
    }
    assert documents[..|documents|] == documents;
  }

  /** The texts of a list of documents, `""` standing for a missing one. */
  function Texts(documents: seq<Document>): seq<string> {
    seq(|documents|, k requires 0 <= k < |documents| => documents[k].text.GetOr(""))
  }

  /** The chunks of every document's text, in document order, with no test for empty text. */
  function AllChunks(documents: seq<Document>): seq<string>
    decreases |documents|
  {
    if documents == [] then [] else SplitIntoChunks(documents[0].text.GetOr("")) + AllChunks(documents[1..])
  }

  lemma {:induction false} AllChunksAppend(documents: seq<Document>, more: seq<Document>)
    ensures AllChunks(documents + more) == AllChunks(documents) + AllChunks(more)
    decreases |documents|
  {
    if documents != [] {
      assert (documents + more)[1..] == documents[1..] + more;
      AllChunksAppend(documents[1..], more);
    } else {
      assert documents + more == more;
    }
  }

  lemma TextsAppend(documents: seq<Document>, more: seq<Document>)
    ensures Texts(documents + more) == Texts(documents) + Texts(more)
  {
  }

  /** The documents made from chunks hold those chunks as their texts. */
  lemma TextsOfChunkDocuments(chunks: seq<string>)
    ensures Texts(AsDocuments(chunks)) == chunks
  {
  }

  /**
   * The chunk texts `preprocess_documents` produces are the in-order
   * concatenation of `split_into_chunks` over the documents' texts: skipping a
   * document with missing or empty text loses nothing, since the empty text
   * has no chunk.
   */
  lemma {:induction false} PreprocessedIsFlatMap(documents: seq<Document>)
    ensures Texts(Preprocessed(documents)) == AllChunks(documents)
    decreases |documents|
  {
    if documents != [] {
      var init := documents[..|documents| - 1];
      var last := documents[|documents| - 1];
      var added := if HasText(last) then AsDocuments(SplitIntoChunks(last.text.value)) else [];
      var lastChunks := SplitIntoChunks(last.text.GetOr(""));
      assert Preprocessed(documents) == Preprocessed(init) + added;
      PreprocessedIsFlatMap(init);
      TextsAppend(Preprocessed(init), added);
      if HasText(last) {
        TextsOfChunkDocuments(SplitIntoChunks(last.text.value));
      } else {
        EmptyTextNoChunk();
      }
      assert Texts(added) == lastChunks;
      assert documents == init + [last];
      AllChunksAppend(init, [last]);
      assert AllChunks([last]) == lastChunks + AllChunks([]);
    }
  }

  /** Python's `s[:stop]`: a negative `stop` counts back from the end. */
  function SliceTo<T>(s: seq<T>, stop: int): seq<T> {
    if stop >= 0 then (if stop <= |s| then s[..stop] else s)
    else if |s| + stop >= 0 then s[..|s| + stop]
    else []
  }

  /**
   * The capping step: when there are more questions than
   * `max_questions_per_chunk * chunk_count`, keep only that many. The result is
   * always a prefix of the questions; for a non-negative limit its length is
   * the smaller of the two, and a negative limit (a negative
   * `max_questions_per_chunk`) drops that many questions from the end.
   */
  function CapQuestions(questions: seq<string>, maxQuestionsPerChunk: int, chunkCount: nat): (capped: seq<string>)
    ensures |capped| <= |questions| && capped == questions[..|capped|]
    ensures var limit := maxQuestionsPerChunk * chunkCount;
      limit >= 0 ==> |capped| == (if |questions| <= limit then |questions| else limit)
    ensures var limit := maxQuestionsPerChunk * chunkCount;
      limit < 0 ==> |capped| == (if |questions| + limit >= 0 then |questions| + limit else 0)
  {
    var limit := maxQuestionsPerChunk * chunkCount;
    if |questions| > limit then SliceTo(questions, limit) else questions
  }

  /**
   * With the limit `main` uses, 3 questions per chunk, 10 questions about 2
   * chunks are cut to the first 6.
   */
  lemma DefaultCap(questions: seq<string>)
    requires |questions| == 10
    ensures CapQuestions(questions, DEFAULT_MAX_QUESTIONS_PER_CHUNK, 2) == questions[..6]
  {
  }

  /** `float(node.score) if hasattr(node, 'score') else None`, where `float(None)` raises. */
  function ConvertScore(score: ScoreEntry): Option<ScoreEntry> {
    match score
    case Missing => Some(NoneScore)
    case NoneScore => None
    case Present(s) => Some(Present(s))
  }

  /**
   * The `sources` comprehension over `response.source_nodes`. It fails exactly
   * when some node's score is present but `None`; otherwise each source holds
   * its node's text, and its node's score or `None` where the node has none.
   */
  function ConvertSources(nodes: seq<SourceNode>): (sources: Option<seq<Source>>)
    ensures sources.Some? <==> forall k :: 0 <= k < |nodes| ==> !nodes[k].score.NoneScore?
    ensures sources.Some? ==> |sources.value| == |nodes|
    ensures sources.Some? ==> forall k :: 0 <= k < |nodes| ==>
      && sources.value[k].text == nodes[k].content
      && sources.value[k].score == (if nodes[k].score.Missing? then NoneScore else nodes[k].score)
    decreases |nodes|
  {
    if nodes == [] then Some([])
    else
      var first := ConvertScore(nodes[0].score);
      var rest := ConvertSources(nodes[1..]);
      if first.Some? && rest.Some? then Some([Source(nodes[0].content, first.value)] + rest.value)
      else None
  }

  /** The sources of a response; `[]` when it has no `source_nodes`. */
  function ResponseSources(response: Response): Option<seq<Source>> {
    if response.sourceNodes.Some? then ConvertSources(response.sourceNodes.value) else Some([])
  }

  /**
   * One iteration of the answering loop for question number `number` (from 1)
   * out of `total`: the pair it appends, or `None` when the `try` block raised
   * and the question is skipped.
   */
  function TryAnswer(question: string, number: int, total: int, query: string -> Option<Response>): (pair: Option<QAPair>)
    ensures pair.Some? <==> query(question).Some? && ResponseSources(query(question).value).Some?
    ensures pair.Some? ==>
      && pair.value.question == question
      && pair.value.answer == query(question).value.text
      && pair.value.sources == ResponseSources(query(question).value)
      && pair.value.metadata == Some(Metadata(Some(number), Some(total)))
    ensures pair.Some? && query(question).value.sourceNodes.None? ==> pair.value.sources == Some([])
  {
    match query(question)
    case None => None
    case Some(response) =>
      var sources := ResponseSources(response);
      if sources.None? then None
      else Some(QAPair(question, response.text, sources, Some(Metadata(Some(number), Some(total)))))
  }

  /** The pairs appended after the first `n` questions of `questions` have been tried. */
  function AnswerUpTo(questions: seq<string>, n: nat, query: string -> Option<Response>): seq<QAPair>
    requires n <= |questions|
    decreases n
  {
    if n == 0 then []
    else
      var pair := TryAnswer(questions[n - 1], n, |questions|, query);
      AnswerUpTo(questions, n - 1, query) + (if pair.Some? then [pair.value] else [])
  }

  /** The pairs the answering loop returns for the (capped) questions. */
  function AnswerQuestions(questions: seq<string>, query: string -> Option<Response>): seq<QAPair> {
    AnswerUpTo(questions, |questions|, query)
  }

  /**
   * `generate_qa_pairs`: chunk the documents, ask for questions about the
   * chunks, cap them at `max_questions_per_chunk` times the chunk count, then
   * try each question in turn, numbering from 1, and keep the pairs whose
   * query succeeded.
   */
  method GenerateQAPairs(
    documents: seq<Document>,
    maxQuestionsPerChunk: int,
    generateQuestions: seq<Document> -> seq<string>,
    query: string -> Option<Response>)
    returns (qaPairs: seq<QAPair>)
    ensures var processed := Preprocessed(documents);
      qaPairs == AnswerQuestions(CapQuestions(generateQuestions(processed), maxQuestionsPerChunk, |processed|), query)
  {
    var processedDocs := PreprocessDocuments(documents);
    var evalQuestions := generateQuestions(processedDocs);
    if |evalQuestions| > maxQuestionsPerChunk * |processedDocs| {
      evalQuestions := SliceTo(evalQuestions, maxQuestionsPerChunk * |processedDocs|);
    }
    qaPairs := [];
    for i := 0 to |evalQuestions|
      invariant qaPairs == AnswerUpTo(evalQuestions, i, query)
    {
      var attempt := TryAnswer(evalQuestions[i], i + 1, |evalQuestions|, query);
      if attempt.Some? {
        qaPairs := qaPairs + [attempt.value];
      }
    }
  }

  /** The `question_number` a pair records, 0 when it has none. */
  function QuestionNumber(pair: QAPair): int {
    QuestionNumberOf(pair).GetOr(0)
  }

  function QuestionNumbers(pairs: seq<QAPair>): seq<int> {
    seq(|pairs|, k requires 0 <= k < |pairs| => QuestionNumber(pairs[k]))
  }

  /** The query for question `m` (counting from 1) produced a pair. */
  predicate Answered(questions: seq<string>, m: int, query: string -> Option<Response>)
    requires 1 <= m <= |questions|
  {
    TryAnswer(questions[m - 1], m, |questions|, query).Some?
  }

  /**
   * The pairs after `n` questions: at most `n` of them; each is the pair built
   * for the question at its recorded 1-based position, with the capped count
   * as its `total_questions`; the numbers strictly increase; and a number
   * appears exactly when that question's query succeeded.
   */
  lemma {:induction false} AnswersNumbered(questions: seq<string>, n: nat, query: string -> Option<Response>)
    requires n <= |questions|
    ensures var pairs := AnswerUpTo(questions, n, query);
      && |pairs| <= n
      && (forall k :: 0 <= k < |pairs| ==>
            && 1 <= QuestionNumber(pairs[k]) <= n
            && pairs[k].question == questions[QuestionNumber(pairs[k]) - 1]
            && pairs[k].metadata == Some(Metadata(Some(QuestionNumber(pairs[k])), Some(|questions|)))
            && TryAnswer(questions[QuestionNumber(pairs[k]) - 1], QuestionNumber(pairs[k]), |questions|, query)
               == Some(pairs[k]))
      && (forall j, k :: 0 <= j < k < |pairs| ==> QuestionNumber(pairs[j]) < QuestionNumber(pairs[k]))
      && (forall m :: 1 <= m <= n ==> (Answered(questions, m, query) <==> m in QuestionNumbers(pairs)))
    decreases n
  {
    if n > 0 {
      AnswersNumbered(questions, n - 1, query);
      var before := AnswerUpTo(questions, n - 1, query);
      var pair := TryAnswer(questions[n - 1], n, |questions|, query);
      var pairs := AnswerUpTo(questions, n, query);
      if pair.Some? {
        assert pairs == before + [pair.value];
        assert QuestionNumber(pair.value) == n;
        assert QuestionNumbers(pairs) == QuestionNumbers(before) + [n];
      } else {
        assert pairs == before;
      }
      forall m | 1 <= m <= n
        ensures Answered(questions, m, query) <==> m in QuestionNumbers(pairs)
      {
        if m < n {
          assert m in QuestionNumbers(before) <==> m in QuestionNumbers(pairs);
        } else {
          assert n !in QuestionNumbers(before);
        }
      }
    }
  }

  /** How many of the first `n` questions were skipped because their query raised. */
  function SkippedUpTo(questions: seq<string>, n: nat, query: string -> Option<Response>): nat
    requires n <= |questions|
    decreases n
  {
    if n == 0 then 0
    else SkippedUpTo(questions, n - 1, query) + (if Answered(questions, n, query) then 0 else 1)
  }

  /**
   * After `n` questions there is one pair per question whose query succeeded:
   * `n` less the skipped ones, and exactly `n` when none was skipped.
   */
  lemma {:induction false} AnswerCount(questions: seq<string>, n: nat, query: string -> Option<Response>)
    requires n <= |questions|
    ensures |AnswerUpTo(questions, n, query)| == n - SkippedUpTo(questions, n, query)
    ensures |AnswerUpTo(questions, n, query)| == n <==> forall m :: 1 <= m <= n ==> Answered(questions, m, query)
    decreases n
  {
    if n > 0 {
      AnswerCount(questions, n - 1, query);
      AnswersNumbered(questions, n - 1, query);
      var before := AnswerUpTo(questions, n - 1, query);
      var pairs := AnswerUpTo(questions, n, query);
      assert |pairs| == |before| + (if Answered(questions, n, query) then 1 else 0);
      if forall m :: 1 <= m <= n ==> Answered(questions, m, query) {
        assert forall m :: 1 <= m <= n - 1 ==> Answered(questions, m, query);
      }
    }
  }

  /** Only question `m` was skipped: the count of skipped questions is 1 from `m` on. */
  lemma {:induction false} SkippedOnlyAt(questions: seq<string>, n: nat, query: string -> Option<Response>, m: int)
    requires n <= |questions| && 1 <= m <= |questions| && !Answered(questions, m, query)
    requires forall j :: 1 <= j <= |questions| && j != m ==> Answered(questions, j, query)
    ensures SkippedUpTo(questions, n, query) == (if m <= n then 1 else 0)
    decreases n
  {
    if n > 0 {
      SkippedOnlyAt(questions, n - 1, query, m);
    }
  }

  /** One query that raises costs exactly one pair. */
  lemma OneSkippedOnePairFewer(questions: seq<string>, query: string -> Option<Response>, m: int)
    requires 1 <= m <= |questions| && !Answered(questions, m, query)
    requires forall j :: 1 <= j <= |questions| && j != m ==> Answered(questions, j, query)
    ensures |AnswerQuestions(questions, query)| == |questions| - 1
  {
    SkippedOnlyAt(questions, |questions|, query, m);
    AnswerCount(questions, |questions|, query);
  }

  /** When no query was skipped, the pair at position `k` is question `k + 1`. */
  lemma {:induction false} NumbersWhenNoneSkipped(questions: seq<string>, n: nat, query: string -> Option<Response>)
    requires n <= |questions|
    requires forall m :: 1 <= m <= n ==> Answered(questions, m, query)
    ensures var pairs := AnswerUpTo(questions, n, query);
      |pairs| == n && forall k :: 0 <= k < n ==> QuestionNumber(pairs[k]) == k + 1
    decreases n
  {
    if n > 0 {
      NumbersWhenNoneSkipped(questions, n - 1, query);
      var before := AnswerUpTo(questions, n - 1, query);
      var pair := TryAnswer(questions[n - 1], n, |questions|, query);
      assert Answered(questions, n, query);
      assert AnswerUpTo(questions, n, query) == before + [pair.value];
    }
  }

  /**
   * `total_questions` is the capped question count, not the number of pairs:
   * once a question is skipped, every pair records a total above the number
   * of pairs returned.
   */
  lemma TotalAboveCountWhenSkipped(questions: seq<string>, query: string -> Option<Response>, m: int)
    requires 1 <= m <= |questions| && !Answered(questions, m, query)
    ensures var pairs := AnswerQuestions(questions, query);
      && |pairs| < |questions|
      && forall k :: 0 <= k < |pairs| ==> pairs[k].metadata == Some(Metadata(Some(QuestionNumber(pairs[k])), Some(|questions|)))
  {
    AnswerCount(questions, |questions|, query);
    AnswersNumbered(questions, |questions|, query);
  }
}
