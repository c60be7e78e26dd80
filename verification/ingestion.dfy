/** The ingestion loop of `main` (parse_history_xml/src/main.rs:150-174):
    drop two lines, parse the rest, keep rows scoring at least 20 and file
    questions and answers in two tables keyed by id. */
module Ingestion {
  import opened Wrappers
  import opened Posts

  /** Rows scoring below this are dropped. */
  const ScoreThreshold: int := 20

  /** The `questions` and `answers` hash maps. */
  datatype Tables = Tables(questions: map<U32, Row>, answers: map<U32, Row>)

  const NoTables := Tables(map[], map[])

  /** What the tables of the ingestion loop always satisfy: each entry is
      stored under its own id, has a score of at least 20, and its post type
      and payload match its table (1 and a question, 2 and an answer). */
  ghost predicate WellFormed(t: Tables)
  {
    && (forall k :: k in t.questions ==>
          var q := t.questions[k];
          q.id == k && q.postTypeId == 1 && q.data.Question? && q.score >= ScoreThreshold)
    && (forall k :: k in t.answers ==>
          var a := t.answers[k];
          a.id == k && a.postTypeId == 2 && a.data.Answer? && a.score >= ScoreThreshold)
  }

  predicate StartsWithAngle(line: string)
  {
    |line| > 0 && line[0] == '<'
  }

  /** Lines 157-167: the row a line contributes, if any. A line starting
      with `<`, one that does not parse and one scoring below 20 give none. */
  function Admit(env: Env, line: string): Option<Row>
  {
    if StartsWithAngle(line) then None
    else
      match ParseRow(env, line)
      case None => None
      case Some(row) => if row.score < ScoreThreshold then None else Some(row)
  }

  /** Lines 169-173: file an admitted row by post type; type 1 goes to the
      questions, type 2 to the answers, any other type nowhere. An entry
      with the same id is replaced. */
  function Route(env: Env, t: Tables, line: string): (r: Tables)
    ensures WellFormed(t) ==> WellFormed(r)
  {
    match Admit(env, line)
    case None => t
    case Some(row) =>
      if row.postTypeId == 1 then t.(questions := t.questions[row.id := row])
      else if row.postTypeId == 2 then t.(answers := t.answers[row.id := row])
      else t
  }

  /** The `for line in iterator` loop. */
  function IngestLines(env: Env, t: Tables, lines: seq<string>): (r: Tables)
    ensures WellFormed(t) ==> WellFormed(r)
    decreases |lines|
  {
    if |lines| == 0 then t else IngestLines(env, Route(env, t, lines[0]), lines[1..])
  }

  /** The lines after the two `iterator.next()` calls. */
  function DataLines(lines: seq<string>): seq<string>
  {
    if |lines| < 2 then [] else lines[2..]
  }

  /** Lines 150-174: the tables `main` hands to `save_to_csv`. */
  function Ingest(env: Env, lines: seq<string>): (r: Tables)
    ensures WellFormed(r)
  {
    IngestLines(env, NoTables, DataLines(lines))
  }

  function Table(t: Tables, postType: int): map<U32, Row>
  {
    if postType == 1 then t.questions else t.answers
  }

  function Lookup(m: map<U32, Row>, k: U32): Option<Row>
  {
    if k in m then Some(m[k]) else None
  }

  /** The last row of `lines` admitted with this post type and id: the
      reference the tables are checked against. */
  function Latest(env: Env, lines: seq<string>, postType: int, k: U32): Option<Row>
  {
    if |lines| == 0 then None
    else
      var a := Admit(env, lines[|lines| - 1]);
      if a.Some? && a.value.postTypeId == postType && a.value.id == k then a
      else Latest(env, lines[..|lines| - 1], postType, k)
  }

  /** Ingesting one more line is routing it into the tables so far. */
  lemma {:induction false} IngestLinesSnoc(env: Env, t: Tables, lines: seq<string>)
    requires |lines| > 0
    ensures IngestLines(env, t, lines) == Route(env, IngestLines(env, t, lines[..|lines| - 1]), lines[|lines| - 1])
    decreases |lines|
  {
    if |lines| > 1 {
      IngestLinesSnoc(env, Route(env, t, lines[0]), lines[1..]);
      assert lines[1..][..|lines| - 2] == lines[..|lines| - 1][1..];
    }
  }

  /** Routing a line changes the entry under `k` exactly when the line is
      admitted with that post type and id. */
  lemma RouteLookup(env: Env, t: Tables, line: string, postType: int, k: U32)
    requires postType == 1 || postType == 2
    ensures var a := Admit(env, line);
      Lookup(Table(Route(env, t, line), postType), k)
      == if a.Some? && a.value.postTypeId == postType && a.value.id == k then a else Lookup(Table(t, postType), k)
  {
  }

  /** After the loop, the entry of a table under id `k` is the last
      admitted row of that type with that id; with no such row it is what
      the table held before. */
  lemma {:induction false} IngestLinesKeepsLatest(env: Env, t: Tables, lines: seq<string>, postType: int, k: U32)
    requires postType == 1 || postType == 2
    ensures Lookup(Table(IngestLines(env, t, lines), postType), k)
         == Latest(env, lines, postType, k).Or(Lookup(Table(t, postType), k))
    decreases |lines|
  {
    if |lines| > 0 {
      var init, last := lines[..|lines| - 1], lines[|lines| - 1];
      IngestLinesSnoc(env, t, lines);
      IngestLinesKeepsLatest(env, t, init, postType, k);
      RouteLookup(env, IngestLines(env, t, init), last, postType, k);
    }
  }

  /** The tables `main` builds hold, for every id, exactly the last data
      line's row of that type and id that scored at least 20: nothing is
      lost, nothing else gets in, and a later duplicate id wins. */
  lemma IngestHoldsLatest(env: Env, lines: seq<string>, k: U32)
    ensures Lookup(Ingest(env, lines).questions, k) == Latest(env, DataLines(lines), 1, k)
    ensures Lookup(Ingest(env, lines).answers, k) == Latest(env, DataLines(lines), 2, k)
  {
    IngestLinesKeepsLatest(env, NoTables, DataLines(lines), 1, k);
    IngestLinesKeepsLatest(env, NoTables, DataLines(lines), 2, k);
  }
}
