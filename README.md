# Synthetic QA data generation — a verified model of its deterministic core

The repository turns a folder of text documents into question–answer pairs
with a hosted language model. It then writes them out as JSON and CSV.
Around the remote calls sit three pieces of plain logic. This project models
them in Dafny and proves what they promise.

- **Chunking** (`QAGenerator.split_into_chunks`). Each document's text is cut
  before every newline that is followed by `Chapter`, `Part` or `Epilogue`.
  Sections whose stripped length is at most 100 characters are then dropped.
  `preprocess_documents` does this for every document that has text, and
  makes one new document per chunk.
- **QA-pair assembly** (`QAGenerator.generate_qa_pairs`). The generated
  questions are capped at `max_questions_per_chunk` times the number of
  chunks. Each question is then sent to the query engine, and the questions
  are numbered from 1. A query that raises skips its question. Every pair
  records the question's number and the capped question count.
- **CSV flattening** (`CsvExporter.flatten_qa_pair` and `export`). A pair
  becomes six string columns, with its source texts and scores joined by
  `"; "`. Exporting an empty list is an error.

Modules:

| file | module | what it holds |
|---|---|---|
| `wrappers.dfy` | `Wrappers` | `Option`, `Result` |
| `text.dfy` | `Text` | Python's `strip`, `join`, `split` and `str(int)`/`int(str)`, with their round trips |
| `chunking.dfy` | `Chunking` | the lookahead split, the length filter, `split_into_chunks` |
| `records.dfy` | `Records` | the QA-pair record shared by the generator and the exporter |
| `qa_generator.dfy` | `QaGenerator` | `preprocess_documents` and `generate_qa_pairs` as loops, each proved against a specification function |
| `csv_export.dfy` | `CsvExport` | `flatten_qa_pair` and the decision part of `export` |
| `pipeline.dfy` | `Pipeline` | what the exported table says about the generated pairs |

Modelling choices:

- **The split.** The split pattern `(?=\n(?:Chapter|Part|Epilogue))` is
  written out by hand (`Chunking.IsBreakAt`, `Chunking.SectionsFrom`).
  - The cut is zero-width, so the newline opens the next section.
  - There is no word boundary, so `\nParty` cuts too.
  - A text that starts with a break gives an empty first section, as
    `re.split` does.
  - `Chunking.SectionsUnique` shows that the contract of `Chunking.Sections`
    fully determines it.
- **Stripping.** `strip()` removes exactly the characters Python's
  `str.isspace` accepts (`Text.IsSpace`).
- **The question cap.** `max_questions_per_chunk` is an integer, so a
  negative value slices from the end, as Python's `q[:n]` does.
- **Remote services.** The query engine is a function
  `question -> Option<Response>`, where `None` stands for a query that
  raised. The question generator is a function from the chunk documents to
  the questions. Being a function, the modelled query engine always gives the
  same outcome for the same question, while the remote model may answer two
  copies of a question differently; no property proved here relies on this.
- **Scores.** A source node's score is absent (`Missing`, stored as `None`),
  present but `None` (`NoneScore`), or present with a value. A present
  `None` makes `float(node.score)` raise, which skips the question. A value
  is carried as the text `str()` gives for it.
- **Optional keys.** `flatten_qa_pair` reads `sources`, `score`,
  `metadata`, `question_number` and `total_questions` with `dict.get`, so
  the record type lets each of them be absent.
- **`total_questions`.** Every pair records the capped question count
  (`src/qa_generator.py:84`), not the number of pairs produced. The two
  differ whenever a query is skipped, and
  `QaGenerator.TotalAboveCountWhenSkipped` states the difference.

## Model

| member | source | states |
|---|---|---|
| Text.StripShape | src/qa_generator.py:28 | `strip()` leaves the slice of the text between its leading and its trailing whitespace: only whitespace lies before and after it, it neither starts nor ends with whitespace, and it is empty exactly when the text is all whitespace |
| Text.JoinSplit | src/exporters/csv_exporter.py:19-20 | splitting a joined column on `"; "` and joining the pieces again gives back the column, whatever it holds |
| Text.SplitJoin | src/exporters/csv_exporter.py:19-20 | a non-empty list whose elements hold no `"; "` is recovered by splitting its `"; "`-join |
| Text.IntRoundTrip | src/exporters/csv_exporter.py:21-22 | `str(n)` of any integer reads back as `n` |
| Chunking.Sections | src/qa_generator.py:27 | the sections concatenate to the text; every section after the first starts with `\n` and a marker word; no section holds a break except at its start; the first section does not start with one |
| Chunking.SectionsUnique | src/qa_generator.py:27 | any list of sections with those four properties is the split of the text, so the contract defines the split |
| Chunking.KeepChunks | src/qa_generator.py:28 | the kept sections are an order-preserving subsequence of the sections, each with stripped length above 100, and there are as many of them as there are such sections, repeats included |
| Chunking.KeepChunksUnique | src/qa_generator.py:28 | any list with those properties is the filtered list, so the contract defines the filter |
| Chunking.SplitIntoChunks | src/qa_generator.py:24-28 | the chunks are the sections of the split whose stripped length exceeds 100, in order, each as often as it occurs |
| Chunking.WholeTextOneChunk | src/qa_generator.py:27-28 | a text with no break and stripped length above 100 is one chunk, itself |
| Chunking.EmptyTextNoChunk | src/qa_generator.py:27-28 | the empty text has no chunk |
| Chunking.PartyIsBreak | src/qa_generator.py:27 | `\nParty` is a break, since the pattern has no word boundary |
| QaGenerator.Preprocessed | src/qa_generator.py:30-39 | every processed document holds a chunk (stripped length above 100) and no metadata |
| QaGenerator.AppendChunkDocuments | src/qa_generator.py:36-38 | the inner loop appends one text-only document per chunk, in order |
| QaGenerator.PreprocessDocuments | src/qa_generator.py:30-39 | the nested append loop returns the processed documents |
| QaGenerator.PreprocessedIsFlatMap | src/qa_generator.py:32-39 | the processed texts are the in-order concatenation of the chunks of every document's text; a document with missing or empty text adds nothing |
| QaGenerator.CapQuestions | src/qa_generator.py:62-63 | the capped list is a prefix of the questions whose length is the smaller of their count and the limit (a negative limit drops that many from the end) |
| QaGenerator.DefaultCap | src/qa_generator.py:62-63 | with the limit of 3 questions per chunk and 2 chunks, 10 questions are cut to the first 6 |
| QaGenerator.ConvertSources | src/qa_generator.py:75-80 | the sources fail exactly when some node's score is a present `None`; otherwise there is one source per node, in order, with its node's text and score, and `None` where the node has no score |
| QaGenerator.TryAnswer | src/qa_generator.py:70-91 | a pair is built exactly when the query and its sources succeed; it holds the question, the answer text, the sources (`[]` when the response has no source nodes) and the number and total given |
| QaGenerator.GenerateQAPairs | src/qa_generator.py:41-93 | the loop returns the answers to the capped questions generated for the processed documents |
| QaGenerator.AnswersNumbered | src/qa_generator.py:69-91 | each pair is the one built for the question at its 1-based number, with the capped count as total; numbers strictly increase; a number appears exactly when its query succeeded; at most one pair per question |
| QaGenerator.AnswerCount | src/qa_generator.py:69-91 | the number of pairs is the number of questions less the skipped ones, and equals the number of questions exactly when no query was skipped |
| QaGenerator.OneSkippedOnePairFewer | src/qa_generator.py:69-91 | when exactly one query raises, there is exactly one pair fewer than there are questions |
| QaGenerator.NumbersWhenNoneSkipped | src/qa_generator.py:69-87 | with no skipped query, pair `k` carries number `k + 1` |
| QaGenerator.TotalAboveCountWhenSkipped | src/qa_generator.py:82-91 | after a skipped query there are fewer pairs than questions, yet every pair records the full capped count as `total_questions` |
| CsvExport.FlattenQAPair | src/exporters/csv_exporter.py:14-24 | the row's keys are the six columns in order, and `question` and `answer` are copied unchanged |
| CsvExport.SourcesColumn | src/exporters/csv_exporter.py:19 | the `sources` column is empty with no sources, and splitting it on `"; "` recovers the texts when there is at least one and none holds `"; "` |
| CsvExport.ScoresColumn | src/exporters/csv_exporter.py:20 | one score text per source, in order: `''` for a missing score, `'None'` for a `None` one, the score's `str()` text otherwise; empty with no sources; recovered by splitting when no entry holds `"; "` |
| CsvExport.MetadataColumns | src/exporters/csv_exporter.py:21-22 | each metadata column is `''` exactly when the field or the metadata is missing, and otherwise reads back as the value |
| CsvExport.Export | src/exporters/csv_exporter.py:37-46 | an empty list fails with "No QA pairs to export"; otherwise one flattened row per pair, in order, under the first row's keys, which every row shares |
| Pipeline.ExportedRows | main.py:36-46 | exporting the generated pairs fails exactly when every query was skipped; each row's `question` is the question at its number, and its `question_number` and `total_questions` read back as that number and the capped count |
| Pipeline.ExportedRowsWhenNoneSkipped | main.py:36-46 | with no skipped query, row `k` holds question `k + 1` and its number |

## Left out

- Text that holds lone surrogates (U+D800 to U+DFFF) is not modelled. A Python string may hold them, but a Dafny `char` cannot.
- Remote services are not modelled (`src/qa_generator.py:18-22, 49-58, 66, 71`). These are the OpenAI model and embedding setup, the vector index, the dataset generator and the query engine. They are foreign calls, so they appear only as the function parameters `generateQuestions` and `query`.
- An exception from the index build or from question generation is not modelled. It propagates out of `generate_qa_pairs`, and the model treats both services as total.
- The generator object is not modelled. `max_questions_per_chunk`, the only field the modelled code reads, is passed as a parameter.
- QaGenerator.ConvertSources: `float()` conversion and float formatting are not modelled, because they are floating point. A score is carried as the text `str()` gives for it.
- Logging calls are not modelled: they have no behaviour to verify.
- The CSV file is not modelled: opening it, `csv.DictWriter`'s quoting and the header and row writing are I/O. `CsvExport.Export` returns the header and rows that would be written.
- A missing `question`, `answer` or source `text` key is not modelled. The source raises `KeyError` for these, but the record type always carries them.
- A `metadata` or `sources` value that is present but `None` is not modelled. Neither is a present `None` `question_number`, which would give the text `'None'`. The generator never produces any of these.
- `src/exporters/json_exporter.py` is not modelled: it is a single call to `json.dump`.
- `src/document_loader.py` is not part of this model. It reads files, and its preprocessing is the identity.
- `config/settings.py` is not part of this model. It holds environment loading and constants.
- From `main.py`, the timestamped file names and the logging are not modelled. Only the hand-off from the generator to the CSV exporter is.
- Document identifiers and source-document metadata are not modelled. Chunk documents are created without metadata, and nothing in the core reads identifiers.
