/** `save_to_csv` (parse_history_xml/src/main.rs:94-145): join every answer
    to its parent question and emit one CSV row per pair that passes the
    length gate, counting the answers whose parent is missing and the
    entries of the wrong kind. */
module Export {
  import opened Wrappers
  import opened Text
  import opened Posts

  /** One CSV record: title, question body, answer body. */
  datatype CsvRow = CsvRow(title: string, question: string, answer: string)

  /** The first record written. */
  const Header := CsvRow("title", "question", "answer")

  /** Titles and answer bodies shorter than this many bytes are skipped. */
  const MinTextBytes: nat := 10

  /** What the loop body does with one answer entry. */
  datatype Outcome =
    | Unreachable          // an entry of the wrong kind: `encountered_unreachable += 1`
    | ParentLost           // no question under `parent_id`: `parents_lost += 1`
    | Gated                // title or answer body too short: skipped
    | Emitted(row: CsvRow) // written to the CSV

  /** Lines 105-138 for one answer. */
  function Classify(questions: map<U32, Row>, answer: Row): Outcome
  {
    match answer.data
    case Question(_, _, _) => Unreachable
    case Answer(parentId) =>
      if parentId !in questions then ParentLost
      else
        var q := questions[parentId];
        match q.data
        case Answer(_) => Unreachable
        case Question(title, _, _) =>
          if Utf8Len(title) < MinTextBytes || Utf8Len(answer.body) < MinTextBytes then Gated
          else Emitted(CsvRow(Trim(title), Trim(q.body), Trim(answer.body)))
  }

  /** The question an answer entry points at, if it is an answer and its
      parent id is a key of `questions`. */
  function Parent(questions: map<U32, Row>, answer: Row): Option<Row>
  {
    if answer.data.Answer? && answer.data.parentId in questions then Some(questions[answer.data.parentId])
    else None
  }

  /** What happens to one answer. An entry of the wrong kind, on either
      side, is unreachable; an answer without a parent is lost; the gate
      measures the byte lengths of the untrimmed title and answer body; an
      emitted record holds the trimmed title, question body and answer
      body. */
  lemma ClassifyMeaning(questions: map<U32, Row>, answer: Row)
    ensures var o, p := Classify(questions, answer), Parent(questions, answer);
      && (o.Unreachable? <==> answer.data.Question? || (p.Some? && p.value.data.Answer?))
      && (o.ParentLost? <==> answer.data.Answer? && p.None?)
      && (o.Gated? <==>
            && p.Some? && p.value.data.Question?
            && (Utf8Len(p.value.data.title) < MinTextBytes || Utf8Len(answer.body) < MinTextBytes))
      && (o.Emitted? ==>
            && p.Some? && p.value.data.Question?
            && Utf8Len(p.value.data.title) >= MinTextBytes && Utf8Len(answer.body) >= MinTextBytes
            && IsTrimOf(o.row.title, p.value.data.title)
            && IsTrimOf(o.row.question, p.value.body)
            && IsTrimOf(o.row.answer, answer.body))
  {
  }

  /** The four ways the loop can dispose of an answer. */
  datatype Kind = UnreachableKind | LostKind | GatedKind | EmittedKind

  function KindOf(o: Outcome): Kind
  {
    match o
    case Unreachable => UnreachableKind
    case ParentLost => LostKind
    case Gated => GatedKind
    case Emitted(_) => EmittedKind
  }

  /** The outcome of every answer. */
  function Outcomes(questions: map<U32, Row>, answers: map<U32, Row>): (r: map<U32, Outcome>)
  {
    map k | k in answers :: Classify(questions, answers[k])
  }

  lemma OutcomeOf(questions: map<U32, Row>, answers: map<U32, Row>, k: U32)
    requires k in answers
    ensures k in Outcomes(questions, answers) && Outcomes(questions, answers)[k] == Classify(questions, answers[k])
  {
  }

  /** The ids among `within` whose outcome is of kind `kind`. */
  function KeysIn(outcomes: map<U32, Outcome>, within: set<U32>, kind: Kind): set<U32>
  {
    set k | k in within && k in outcomes && KindOf(outcomes[k]) == kind
  }

  /** The answer ids among `within` that the loop disposes of as `kind`. */
  function KeysOf(questions: map<U32, Row>, answers: map<U32, Row>, within: set<U32>, kind: Kind): set<U32>
  {
    KeysIn(Outcomes(questions, answers), within, kind)
  }

  /** The state of the export loop. */
  datatype Tally = Tally(csv: seq<CsvRow>, sources: seq<U32>, parentsLost: nat, unreachable: nat, gated: nat)

  const Start := Tally([Header], [], 0, 0, 0)

  /** The loop body for answer `k` with outcome `o`. */
  function Step(t: Tally, k: U32, o: Outcome): Tally
  {
    match o
    case Unreachable => t.(unreachable := t.unreachable + 1)
    case ParentLost => t.(parentsLost := t.parentsLost + 1)
    case Gated => t.(gated := t.gated + 1)
    case Emitted(row) => t.(csv := t.csv + [row], sources := t.sources + [k])
  }

  /** The records written after handling the ids in `done`, and the answer
      each came from. */
  ghost predicate Records(outcomes: map<U32, Outcome>, done: set<U32>, t: Tally)
  {
    && |t.csv| == |t.sources| + 1 && t.csv[0] == Header
    && (forall i :: 0 <= i < |t.sources| ==>
          t.sources[i] in done && t.sources[i] in outcomes && outcomes[t.sources[i]] == Emitted(t.csv[i + 1]))
    && (forall i, j :: 0 <= i < j < |t.sources| ==> t.sources[i] != t.sources[j])
  }

  /** The counters after handling the ids in `done`. */
  ghost predicate Counts(outcomes: map<U32, Outcome>, done: set<U32>, t: Tally)
  {
    && (set k | k in t.sources) == KeysIn(outcomes, done, EmittedKind)
    && t.parentsLost == |KeysIn(outcomes, done, LostKind)|
    && t.unreachable == |KeysIn(outcomes, done, UnreachableKind)|
    && t.gated == |KeysIn(outcomes, done, GatedKind)|
    && t.parentsLost + t.unreachable + t.gated + |t.sources| == |done|
  }

  /** Handling one more id adds it to exactly the set of its kind. */
  lemma KeysInAdd(outcomes: map<U32, Outcome>, done: set<U32>, k: U32, kind: Kind)
    requires k in outcomes && k !in done
    ensures KeysIn(outcomes, done + {k}, kind) ==
            if KindOf(outcomes[k]) == kind then KeysIn(outcomes, done, kind) + {k} else KeysIn(outcomes, done, kind)
  {
  }

  lemma KeysInAddCount(outcomes: map<U32, Outcome>, done: set<U32>, k: U32, kind: Kind)
    requires k in outcomes && k !in done
    ensures |KeysIn(outcomes, done + {k}, kind)| ==
            |KeysIn(outcomes, done, kind)| + if KindOf(outcomes[k]) == kind then 1 else 0
  {
    KeysInAdd(outcomes, done, k, kind);
  }

  lemma StepKeepsRecords(outcomes: map<U32, Outcome>, done: set<U32>, t: Tally, k: U32)
    requires Records(outcomes, done, t)
    requires k in outcomes && k !in done
    ensures Records(outcomes, done + {k}, Step(t, k, outcomes[k]))
  {
  }

  lemma SourcesSnoc(sources: seq<U32>, k: U32)
    ensures (set j | j in sources + [k]) == (set j | j in sources) + {k}
  {
  }

  lemma StepKeepsCounts(outcomes: map<U32, Outcome>, done: set<U32>, t: Tally, k: U32)
    requires Counts(outcomes, done, t)
    requires k in outcomes && k !in done
    ensures Counts(outcomes, done + {k}, Step(t, k, outcomes[k]))
  {
    KeysInAddCount(outcomes, done, k, UnreachableKind);
    KeysInAddCount(outcomes, done, k, LostKind);
    KeysInAddCount(outcomes, done, k, GatedKind);
    KeysInAdd(outcomes, done, k, EmittedKind);
    SourcesSnoc(t.sources, k);
    assert |done + {k}| == |done| + 1;
  }

  /** The loop of lines 103-141: every answer once, in whatever order the
      map yields them. */
  method Tabulate(answers: map<U32, Row>, questions: map<U32, Row>) returns (t: Tally)
    ensures Records(Outcomes(questions, answers), answers.Keys, t)
    ensures Counts(Outcomes(questions, answers), answers.Keys, t)
  {
    ghost var outcomes := Outcomes(questions, answers);
    t := Start;
    var todo := answers.Keys;
    ghost var done: set<U32> := {};
    while todo != {}
      invariant todo !! done && todo + done == answers.Keys
      invariant Records(outcomes, done, t)
      invariant Counts(outcomes, done, t)
      decreases todo
    {
      var k :| k in todo;
      var o := Classify(questions, answers[k]);
      OutcomeOf(questions, answers, k);
      StepKeepsRecords(outcomes, done, t, k);
      StepKeepsCounts(outcomes, done, t, k);
      t := Step(t, k, o);
      todo := todo - {k};
      done := done + {k};
    }
  }

  /** Lines 94-145 without the file and the console: visit every answer
      once, in whatever order the map yields them, and return the CSV
      records, the answer id each data record came from, and the two
      counters. The header comes first; the data records are exactly one
      per emitted answer; every answer is counted under exactly one of
      unreachable, parent lost, gated and emitted. */
  method SaveToCsv(answers: map<U32, Row>, questions: map<U32, Row>)
    returns (csv: seq<CsvRow>, sources: seq<U32>, parentsLost: nat, unreachable: nat)
    ensures |csv| == |sources| + 1 && csv[0] == Header
    ensures forall i :: 0 <= i < |sources| ==>
              sources[i] in answers && Classify(questions, answers[sources[i]]) == Emitted(csv[i + 1])
    ensures forall i, j :: 0 <= i < j < |sources| ==> sources[i] != sources[j]
    ensures (set k | k in sources) == KeysOf(questions, answers, answers.Keys, EmittedKind)
    ensures parentsLost == |KeysOf(questions, answers, answers.Keys, LostKind)|
    ensures unreachable == |KeysOf(questions, answers, answers.Keys, UnreachableKind)|
    ensures parentsLost + unreachable + |KeysOf(questions, answers, answers.Keys, GatedKind)| + |sources|
            == |answers|
  {
    var t := Tabulate(answers, questions);
    forall i | 0 <= i < |t.sources|
      ensures Classify(questions, answers[t.sources[i]]) == Emitted(t.csv[i + 1])
    {
      OutcomeOf(questions, answers, t.sources[i]);
    }
    assert |answers| == |answers.Keys|;
    csv, sources, parentsLost, unreachable := t.csv, t.sources, t.parentsLost, t.unreachable;
  }
}
