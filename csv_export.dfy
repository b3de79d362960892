/**
 * `CsvExporter.flatten_qa_pair` and the part of `CsvExporter.export` that
 * decides what is written: the empty check, one flattened row per pair and
 * the header taken from the first row. Opening and writing the file, and the
 * quoting the `csv` module applies, are not modelled.
 *
 * A flattened row is a Python dict, kept here as its list of key/value items
 * in insertion order.
 */
module CsvExport {
  import opened Wrappers
  import opened Text
  import opened Records

  /** What the source texts and the scores are joined with. */
  const SEPARATOR := "; "

  /** The columns of a flattened row, in the order the dict is built. */
  const FIELD_NAMES: seq<string> :=
    ["question", "answer", "sources", "source_scores", "question_number", "total_questions"]

  /** The message of the `ValueError` raised for an empty list. */
  const NO_PAIRS_ERROR := "No QA pairs to export"

  type Row = seq<(string, string)>

  /** `list(row.keys())`. */
  function Keys(row: Row): seq<string> {
    seq(|row|, k requires 0 <= k < |row| => row[k].0)
  }

  /** `row.get(key)`: the value stored under `key`, if any. */
  function Get(row: Row, key: string): Option<string>
    decreases |row|
  {
    if row == [] then None
    else if row[0].0 == key then Some(row[0].1)
    else Get(row[1..], key)
  }

  /** A dict lookup finds the first item with the key. */
  lemma {:induction false} GetFirst(row: Row, key: string, k: nat)
    requires k < |row| && row[k].0 == key
    requires forall j :: 0 <= j < k ==> row[j].0 != key
    ensures Get(row, key) == Some(row[k].1)
    decreases k
  {
    if k > 0 {
      GetFirst(row[1..], key, k - 1);
    }
  }

  /** `qa_pair.get('sources', [])`. */
  function SourcesOf(pair: QAPair): seq<Source> {
    pair.sources.GetOr([])
  }

  /** `str(source['text'])` for each source, in order. */
  function SourceTexts(pair: QAPair): seq<string> {
    var sources := SourcesOf(pair);
    seq(|sources|, k requires 0 <= k < |sources| => sources[k].text)
  }

  /** `str(source.get('score', ''))`: `''` when absent, `'None'` for `None`, else the score's text. */
  function ScoreText(score: ScoreEntry): string {
    match score
    case Missing => ""
    case NoneScore => "None"
    case Present(s) => s.repr
  }

  /** The score text of each source, in order. */
  function SourceScoreTexts(pair: QAPair): seq<string> {
    var sources := SourcesOf(pair);
    seq(|sources|, k requires 0 <= k < |sources| => ScoreText(sources[k].score))
  }

  /** `str(value)` for a metadata field read with `.get(field, '')`. */
  function MetadataText(value: Option<int>): string {
    match value
    case None => ""
    case Some(n) => IntToString(n)
  }

  /**
   * `flatten_qa_pair`: six string columns, in this order, with the question
   * and the answer copied unchanged.
   */
  function FlattenQAPair(pair: QAPair): (row: Row)
    ensures Keys(row) == FIELD_NAMES
    ensures Get(row, "question") == Some(pair.question)
    ensures Get(row, "answer") == Some(pair.answer)
  {
    [ ("question", pair.question),
      ("answer", pair.answer),
      ("sources", Join(SourceTexts(pair), SEPARATOR)),
      ("source_scores", Join(SourceScoreTexts(pair), SEPARATOR)),
      ("question_number", MetadataText(QuestionNumberOf(pair))),
      ("total_questions", MetadataText(TotalQuestionsOf(pair))) ]
  }

  /** The value of column `key` in the flattened row of `pair`. */
  function Column(pair: QAPair, key: string): string
    requires key in FIELD_NAMES
  {
    Get(FlattenQAPair(pair), key).GetOr("")
  }

  /** Each column of the flattened row holds the value built for it. */
  lemma ColumnAt(pair: QAPair, k: nat)
    requires k < |FIELD_NAMES|
    ensures Column(pair, FIELD_NAMES[k]) == FlattenQAPair(pair)[k].1
  {
    var row := FlattenQAPair(pair);
    assert Keys(row) == FIELD_NAMES;
    assert forall j :: 0 <= j < |row| ==> row[j].0 == FIELD_NAMES[j];
    GetFirst(row, FIELD_NAMES[k], k);
  }

  /**
   * The `sources` column is the joined source texts: it is empty when there
   * are no sources, and when there are some and none holds `"; "`, splitting
   * it on `"; "` gives back the texts in order.
   */
  lemma SourcesColumn(pair: QAPair)
    ensures SourceTexts(pair) == [] ==> Column(pair, "sources") == ""
    ensures |SourceTexts(pair)| >= 1 && (forall k :: 0 <= k < |SourceTexts(pair)| ==> !Contains(SourceTexts(pair)[k], SEPARATOR))
      ==> Split(Column(pair, "sources"), SEPARATOR) == SourceTexts(pair)
  {
    var texts := SourceTexts(pair);
    ColumnAt(pair, 2);
    if |texts| >= 1 && (forall k :: 0 <= k < |texts| ==> !Contains(texts[k], SEPARATOR)) {
      SplitJoin(texts, SEPARATOR);
    }
  }

  /**
   * The `source_scores` column holds one entry per source, in order: `''` for
   * a missing score, `'None'` for a `None` one and the score's `str()` text
   * otherwise;
   * with at least one source and no entry holding `"; "`, splitting it on
   * `"; "` gives back those entries.
   */
  lemma ScoresColumn(pair: QAPair)
    ensures |SourceScoreTexts(pair)| == |SourcesOf(pair)|
    ensures forall k :: 0 <= k < |SourcesOf(pair)| ==>
      && (SourcesOf(pair)[k].score.Missing? ==> SourceScoreTexts(pair)[k] == "")
      && (SourcesOf(pair)[k].score.NoneScore? ==> SourceScoreTexts(pair)[k] == "None")
      && (SourcesOf(pair)[k].score.Present? ==> SourceScoreTexts(pair)[k] == SourcesOf(pair)[k].score.score.repr)
    ensures SourcesOf(pair) == [] ==> Column(pair, "source_scores") == ""
    ensures |SourcesOf(pair)| >= 1 && (forall k :: 0 <= k < |SourceScoreTexts(pair)| ==> !Contains(SourceScoreTexts(pair)[k], SEPARATOR))
      ==> Split(Column(pair, "source_scores"), SEPARATOR) == SourceScoreTexts(pair)
  {
    var scores := SourceScoreTexts(pair);
    ColumnAt(pair, 3);
    if |scores| >= 1 && (forall k :: 0 <= k < |scores| ==> !Contains(scores[k], SEPARATOR)) {
      SplitJoin(scores, SEPARATOR);
    }
  }

  /**
   * The two metadata columns are `''` exactly when the field (or the whole
   * `metadata`) is missing, and otherwise the decimal text of the value,
   * which reads back as that value.
   */
  lemma MetadataColumns(pair: QAPair)
    ensures Column(pair, "question_number") == "" <==> QuestionNumberOf(pair).None?
    ensures Column(pair, "total_questions") == "" <==> TotalQuestionsOf(pair).None?
    ensures QuestionNumberOf(pair).Some? ==>
      ParseInt(Column(pair, "question_number")) == QuestionNumberOf(pair)
    ensures TotalQuestionsOf(pair).Some? ==>
      ParseInt(Column(pair, "total_questions")) == TotalQuestionsOf(pair)
  {
    ColumnAt(pair, 4);
    ColumnAt(pair, 5);
    if QuestionNumberOf(pair).Some? {
      IntRoundTrip(QuestionNumberOf(pair).value);
    }
    if TotalQuestionsOf(pair).Some? {
      IntRoundTrip(TotalQuestionsOf(pair).value);
    }
  }

  /** What `export` hands to `csv.DictWriter`: the header and the rows. */
  datatype Table = Table(fieldNames: seq<string>, rows: seq<Row>)

  /**
   * `export` without the file: an empty list raises "No QA pairs to export";
   * otherwise there is one flattened row per pair, in order, and the header is
   * the first row's keys, which every row shares.
   */
  function Export(pairs: seq<QAPair>): (r: Result<Table, string>)
    ensures r.Failure? <==> pairs == []
    ensures r.Failure? ==> r.error == NO_PAIRS_ERROR
    ensures r.Success? ==>
      && |r.value.rows| == |pairs|
      && r.value.fieldNames == FIELD_NAMES
      && (forall k :: 0 <= k < |pairs| ==> r.value.rows[k] == FlattenQAPair(pairs[k]))
      && (forall k :: 0 <= k < |pairs| ==> Keys(r.value.rows[k]) == r.value.fieldNames)
  {
    var flattenedPairs := seq(|pairs|, k requires 0 <= k < |pairs| => FlattenQAPair(pairs[k]));
    if flattenedPairs == [] then Failure(NO_PAIRS_ERROR)
    else Success(Table(Keys(flattenedPairs[0]), flattenedPairs))
  }
}
