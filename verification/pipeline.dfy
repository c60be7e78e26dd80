/** `main` as a whole (parse_history_xml/src/main.rs:149-177): ingest the
    lines, then join and export. */
module Pipeline {
  import opened Wrappers
  import opened Text
  import opened Posts
  import opened Ingestion
  import opened Export

  /** On tables the ingestion loop can build, no answer entry holds a
      question and no parent found holds an answer, so the export never
      counts an unreachable entry. */
  lemma WellFormedTablesHaveNoUnreachable(t: Tables)
    requires WellFormed(t)
    ensures KeysOf(t.questions, t.answers, t.answers.Keys, UnreachableKind) == {}
  {
    forall k | k in t.answers
      ensures KindOf(Outcomes(t.questions, t.answers)[k]) != UnreachableKind
    {
      OutcomeOf(t.questions, t.answers, k);
      ClassifyMeaning(t.questions, t.answers[k]);
    }
  }

  /** `main`: the CSV records, the answer each data record came from, and
      the two counters it prints. The unreachable counter always ends at
      0; every data record joins an answer of the ingested table to its
      parent question, no answer gives two records and every emitted answer
      gives one; every ingested answer is lost, gated or emitted. */
  method Run(env: Env, lines: seq<string>)
    returns (csv: seq<CsvRow>, sources: seq<U32>, parentsLost: nat, unreachable: nat)
    ensures unreachable == 0
    ensures |csv| == |sources| + 1 && csv[0] == Header
    ensures var t := Ingest(env, lines);
      forall i :: 0 <= i < |sources| ==>
        && sources[i] in t.answers
        && t.answers[sources[i]].data.parentId in t.questions
        && Classify(t.questions, t.answers[sources[i]]) == Emitted(csv[i + 1])
    ensures forall i, j :: 0 <= i < j < |sources| ==> sources[i] != sources[j]
    ensures var t := Ingest(env, lines);
      (set k | k in sources) == KeysOf(t.questions, t.answers, t.answers.Keys, EmittedKind)
    ensures var t := Ingest(env, lines);
      && parentsLost == |KeysOf(t.questions, t.answers, t.answers.Keys, LostKind)|
      && parentsLost + |KeysOf(t.questions, t.answers, t.answers.Keys, GatedKind)| + |sources| == |t.answers|
  {
    var t := Ingest(env, lines);
    csv, sources, parentsLost, unreachable := SaveToCsv(t.answers, t.questions);
    WellFormedTablesHaveNoUnreachable(t);
    forall i | 0 <= i < |sources|
      ensures t.answers[sources[i]].data.parentId in t.questions
    {
      ClassifyMeaning(t.questions, t.answers[sources[i]]);
    }
  }

  /** An answer whose parent question is in the table, where the title and
      answer body have at least ten characters, is emitted. When none of
      the three texts has whitespace at either end, the record holds them
      unchanged. */
  lemma LongTextsAreEmitted(q: Row, a: Row, questions: map<U32, Row>)
    requires q.data.Question? && a.data.Answer? && a.data.parentId in questions && questions[a.data.parentId] == q
    requires |q.data.title| >= MinTextBytes && |a.body| >= MinTextBytes
    ensures Classify(questions, a) == Emitted(CsvRow(Trim(q.data.title), Trim(q.body), Trim(a.body)))
    ensures Bare(q.data.title) && Bare(q.body) && Bare(a.body) ==>
              Classify(questions, a) == Emitted(CsvRow(q.data.title, q.body, a.body))
  {
    assert Classify(questions, a) == Emitted(CsvRow(Trim(q.data.title), Trim(q.body), Trim(a.body)));
    if Bare(q.data.title) && Bare(q.body) && Bare(a.body) {
      TrimOfBare(q.data.title);
      TrimOfBare(q.body);
      TrimOfBare(a.body);
    }
  }

  /** The gate measures the answer body before trimming: a short answer
      padded with trailing whitespace to ten bytes passes the gate, and is
      written without the padding. */
  lemma GateMeasuresUntrimmedText(q: Row, a: Row, questions: map<U32, Row>, core: string, pad: string)
    requires q.data.Question? && a.data.Answer? && a.data.parentId in questions && questions[a.data.parentId] == q
    requires Utf8Len(q.data.title) >= MinTextBytes
    requires a.body == core + pad && Bare(core) && WhitespaceBetween(pad, 0, |pad|)
    requires Utf8Len(a.body) >= MinTextBytes
    ensures Classify(questions, a) == Emitted(CsvRow(Trim(q.data.title), Trim(q.body), core))
  {
    var s := a.body;
    assert s[0..0 + |core|] == core;
    assert WhitespaceBetween(s, 0, 0);
    assert WhitespaceBetween(s, 0 + |core|, |s|) by {
      forall k | |core| <= k < |s|
        ensures IsWhitespace(s[k])
      {
        assert s[k] == pad[k - |core|];
      }
    }
    assert TrimAt(core, s, 0);
    TrimOfIsUnique(s, Trim(s), core);
  }
}
