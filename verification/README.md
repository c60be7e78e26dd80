# Posts-to-CSV pipeline: a Dafny model

This project models the core of `parse_history_xml`. The program reads a
StackExchange `Posts.xml` dump line by line and parses each line into a
post `Row`. It keeps questions and answers scoring at least 20 in two
id-keyed tables. It then joins every answer to its parent question and
writes `(title, question, answer)` records to a CSV file.

The model has six modules:

- `Wrappers`: the `Option` type. Its `:-` operator plays the part of Rust's `?`.
- `Text`: Rust's `str::trim` and `char::is_whitespace` (the Unicode
  White_Space set), and `str::len`, the byte length of the UTF-8 encoding.
  It also has `join("")`.
- `Posts`: `ExclusiveData`, `Row` and `parse_row`, modelled as a fold over
  the XML events of one line. Each event is a self-closing element with its
  attributes, some other event, or a read error.
- `Ingestion`: the loop in `main`. It drops two lines, skips lines that start
  with `<`, lines that do not parse and rows scoring below 20. It files type 1
  under `questions` and type 2 under `answers`, and a later row with the same
  id replaces the earlier one.
- `Export`: `save_to_csv`. It classifies each answer as unreachable, parent
  lost, gated (title or answer body under 10 bytes before trimming) or emitted.
  It visits the answers in an arbitrary order, because `HashMap` iteration order
  is unspecified. It returns the CSV records, the answer id behind each data
  record, and the two counters.
- `Pipeline`: `main` as a whole. On tables `main` builds, the unreachable
  counter always ends at 0.

The library calls `parse_row` makes are function-valued fields of `Posts.Env`:
the quick_xml reader, entity unescaping, `str::parse` at `u8`/`u32`/`i32`,
and `dissolve::strip_html_tags`. Every property holds whatever they are.

## Model

| member | source | states |
|---|---|---|
| `Posts.ApplyAttr` | parse_history_xml/src/main.rs:40-63 | one attribute aborts the record exactly when it is recognised and its value fails to unescape, or fails to parse at its field's type (`AcceptedAnswerId` fails only on unescape); otherwise the field it names holds the decoded value and every other field is unchanged |
| `Posts.ApplyAttrs` | parse_history_xml/src/main.rs:40-64 | the attribute loop aborts exactly when some attribute rejects; otherwise each field holds the decoded value of the last attribute naming it, or keeps its earlier value |
| `Posts.LastRawIsLast` | parse_history_xml/src/main.rs:40-64 | `LastRaw` finds no value exactly when no well-formed attribute has that name; otherwise it finds the value of the last one |
| `Posts.ApplyAttrsAppend` | parse_history_xml/src/main.rs:36-70 | running the attribute loop over two attribute lists in turn is running it once over their concatenation |
| `Posts.Scan` | parse_history_xml/src/main.rs:36-70 | the event loop gives `None` on a read error met before the first other event; otherwise it equals one attribute loop over every attribute of the leading self-closing elements |
| `Posts.ParseRow` | parse_history_xml/src/main.rs:23-93 | `parse_row` returns `None` exactly on a read error or a rejecting attribute among those it reads; a returned row has a `Question` payload exactly when its post type id is 1 |
| `Posts.AbsentAttributeKeepsDefault` | parse_history_xml/src/main.rs:27-35 | a field whose attribute is never read keeps its initial value: 0, the stripped empty string, or `None` for the accepted answer id; without `PostTypeId` the row is an answer |
| `Posts.LastAttributeWins` | parse_history_xml/src/main.rs:42-61 | each field of a parsed row holds the decoded value of the last attribute naming it; a bad `AcceptedAnswerId` number gives `None` and the record stands |
| `Posts.ScanStopsAtOtherEvent` | parse_history_xml/src/main.rs:66-68 | nothing after the first event that is not a self-closing element affects the result |
| `Posts.NonElementLineGivesDefaults` | parse_history_xml/src/main.rs:66-92 | a line whose first event is not a self-closing element still parses, to an all-default row: post type 0, score 0, an answer with parent 0 |
| `Ingestion.Route` | parse_history_xml/src/main.rs:169-173 | filing one line keeps the table invariant: every entry sits under its own id, scores at least 20, and has type 1 with a question payload or type 2 with an answer payload |
| `Ingestion.IngestLines` | parse_history_xml/src/main.rs:156-174 | the ingestion loop keeps the table invariant |
| `Ingestion.Ingest` | parse_history_xml/src/main.rs:150-174 | the tables `main` builds satisfy the table invariant, so no row scoring below 20 and no row of another type is in either table |
| `Ingestion.IngestLinesKeepsLatest` | parse_history_xml/src/main.rs:156-174 | after the loop, a table's entry under an id is the last admitted row of that type and id, or the earlier entry if there is none |
| `Ingestion.IngestHoldsLatest` | parse_history_xml/src/main.rs:150-174 | the tables hold, for every id, exactly the last row of that type and id that comes after the first two lines, does not start with `<`, parses and scores at least 20 |
| `Export.ClassifyMeaning` | parse_history_xml/src/main.rs:105-138 | an answer is unreachable exactly when it or its found parent has the wrong payload; it is lost exactly when its parent id is not a key of `questions`; it is gated exactly when the untrimmed title or answer body is under 10 bytes; an emitted record holds the trimmed title, question body and answer body |
| `Export.Tabulate` | parse_history_xml/src/main.rs:103-141 | after the loop, each answer is counted under exactly one outcome, and the data records match the emitted answers one to one |
| `Export.SaveToCsv` | parse_history_xml/src/main.rs:94-145 | the header comes first; each data record is the emitted record of a distinct answer, and every emitted answer has one; the counters equal the numbers of lost and unreachable answers; lost + unreachable + gated + emitted equals the number of answers |
| `Text.Trim` | parse_history_xml/src/main.rs:125-130 | the result is a slice of the input with only whitespace around it and none at either of its ends |
| `Text.TrimOfIsUnique` | parse_history_xml/src/main.rs:125-130 | the contract of `Trim` fixes its result: any two trims of the same text that meet it are equal |
| `Text.TrimIdempotent` | parse_history_xml/src/main.rs:125-130 | trimming an emitted field again changes nothing |
| `Text.TrimOfBare` | parse_history_xml/src/main.rs:125-130 | text with no whitespace at either end is written unchanged |
| `Text.Utf8Len` | parse_history_xml/src/main.rs:121 | the byte length the gate measures is at least the number of characters and at most four times it, and equals it exactly on ASCII text |
| `Text.Utf8LenAppend` | parse_history_xml/src/main.rs:121 | the byte length the gate measures is additive: the length of a concatenation is the sum of the lengths of its parts |
| `Pipeline.WellFormedTablesHaveNoUnreachable` | parse_history_xml/src/main.rs:103-141 | on tables satisfying the ingestion invariant, no answer is classified unreachable |
| `Pipeline.Run` | parse_history_xml/src/main.rs:149-177 | over the whole pipeline, the unreachable counter ends at 0; each data record joins an ingested answer to a parent present in the question table; the records come from distinct answers and every emitted answer has one; lost + gated + emitted equals the number of ingested answers |
| `Pipeline.LongTextsAreEmitted` | parse_history_xml/src/main.rs:113-131 | an answer whose parent question is present, with title and body of at least ten characters, is emitted; texts without surrounding whitespace are written unchanged |
| `Pipeline.GateMeasuresUntrimmedText` | parse_history_xml/src/main.rs:121-130 | a short answer padded with trailing whitespace to ten bytes passes the gate and is written without the padding |

## Behaviour worth noting

- A numeric attribute that fails to parse aborts the whole record. Only
  `AcceptedAnswerId` falls back, to `None` (main.rs:42-61).
- A line whose first event is not a self-closing element gives `Some` of an
  all-default row, not `None`. That row scores 0, so ingestion drops it
  (main.rs:27-35, 66-92).
- Ingestion skips only lines whose first character is `<` (main.rs:157).
  All other lines go to the parser.
- The length gate measures the title and answer body before trimming, in
  UTF-8 bytes (main.rs:121). A body such as "Yes." padded with spaces to ten
  bytes passes the gate and is written as "Yes.".

## Left out

- File opening, `BufReader` line iteration and the dropping of unreadable
  lines (main.rs:150-151) are I/O. The input is the sequence of lines read.
- The quick_xml reader, `trim_text`, namespace handling in `local_name`,
  entity unescaping and `str::parse` are foreign library code. Each is an
  uninterpreted function in `Posts.Env`, and attributes carry their local name.
- `dissolve::strip_html_tags` is a foreign call and is uninterpreted. No claim
  is made that no HTML remains.
- The CSV writer, its quoting and escaping, and the early `None` return when
  creating the writer or writing a record fails (main.rs:99-100, 131) are
  foreign I/O. The output is the sequence of records.
- The timestamped file name (main.rs:95-98) reads the clock. It is left out.
- The console output (main.rs:142-143, 176) is left out. The counters are
  returned instead.
- `HashMap` iteration order (main.rs:103) is unspecified. `Export.Tabulate`
  picks the next answer arbitrarily, and the results are stated as sets.
- `Export.SaveToCsv`: the counters are unbounded naturals, not `u32`. They
  could only wrap with 2^32 answers.
- `mod mapping` (main.rs:3) is not part of this model.
