/**
 * The SQLite table `quiz_questions` (quizer.js:76-82) and the three
 * statements run against it (quizer.js:85-110), as a map from question
 * to record.
 *
 * The map's keys give the UNIQUE constraint on `question`; the CHECK
 * constraint on `question` is the predicate `MeetsCheck`, and `Valid` says
 * every stored question meets it. A statement
 * that violates a constraint fails with a logged error and leaves the
 * table as it was.
 */
module AnswerTable {
  import opened Wrappers

  /** One row: the answer and the number of times the question was answered from the table. */
  datatype Record = Record(answer: string, occurrence: int)

  type Rows = map<string, Record>

  /**
   * CHECK(question IS NOT NULL AND length(question) > 0). SQLite's length()
   * of a text value counts the characters before its first NUL, so a
   * question passes exactly when its first character exists and is not NUL.
   */
  predicate MeetsCheck(question: string) {
    question != "" && question[0] != '\0'
  }

  /** Every stored question meets the CHECK constraint. */
  ghost predicate Valid(rows: Rows) {
    forall q :: q in rows ==> MeetsCheck(q)
  }

  /**
   * insertQuestionAnswer: INSERT of (question, answer) with the default
   * occurrence of 1. A question that is empty or starts with NUL breaks the
   * CHECK constraint and a question already present breaks UNIQUE; both
   * leave the table unchanged.
   */
  function Insert(rows: Rows, question: string, answer: string): (r: Rows)
    ensures forall q :: q in rows ==> q in r && r[q] == rows[q]
    ensures forall q :: q in r && q !in rows ==> q == question && MeetsCheck(question)
    ensures MeetsCheck(question) && question !in rows ==> question in r && r[question] == Record(answer, 1)
  {
    if !MeetsCheck(question) || question in rows then rows
    else rows[question := Record(answer, 1)]
  }

  /** incrementOccurences: UPDATE adding one to the occurrence of the matching row, if there is one. */
  function Increment(rows: Rows, question: string): (r: Rows)
    ensures r.Keys == rows.Keys
    ensures question in rows ==> r[question] == Record(rows[question].answer, rows[question].occurrence + 1)
    ensures forall q :: q in rows && q != question ==> r[q] == rows[q]
  {
    if question in rows then rows[question := rows[question].(occurrence := rows[question].occurrence + 1)]
    else rows
  }

  /** findAnswer: the answer of the row whose question is exactly `question`, if any. */
  function Find(rows: Rows, question: string): (r: Option<string>)
    ensures r.Some? <==> question in rows
    ensures r.Some? ==> r.value == rows[question].answer
  {
    if question in rows then Some(rows[question].answer) else None
  }

  /** No statement breaks the CHECK constraint. */
  lemma InsertKeepsValid(rows: Rows, question: string, answer: string)
    requires Valid(rows)
    ensures Valid(Insert(rows, question, answer))
  {
  }

  /**
   * What the statements the program runs leave in a row: a non-empty
   * answer and an occurrence of at least 1. The schema itself allows an
   * empty answer and any occurrence.
   */
  ghost predicate RowsWellFormed(rows: Rows) {
    forall q :: q in rows ==> rows[q].answer != "" && rows[q].occurrence >= 1
  }

  /** Inserting a non-empty answer keeps the rows well formed. */
  lemma InsertKeepsWellFormed(rows: Rows, question: string, answer: string)
    requires RowsWellFormed(rows) && answer != ""
    ensures RowsWellFormed(Insert(rows, question, answer))
  {
  }

  /** Incrementing keeps the rows well formed. */
  lemma IncrementKeepsWellFormed(rows: Rows, question: string)
    requires RowsWellFormed(rows)
    ensures RowsWellFormed(Increment(rows, question))
  {
  }

  /** Round trip: a fresh question, once inserted, is found with its answer and an occurrence of 1. */
  lemma InsertThenFind(rows: Rows, question: string, answer: string)
    requires MeetsCheck(question) && question !in rows
    ensures Find(Insert(rows, question, answer), question) == Some(answer)
    ensures Insert(rows, question, answer)[question].occurrence == 1
  {
  }

  /** The first answer stored for a question is the one kept: a second insert changes nothing. */
  lemma InsertKeepsFirstAnswer(rows: Rows, question: string, first: string, second: string)
    requires MeetsCheck(question)
    ensures var once := Insert(rows, question, first);
            Insert(once, question, second) == once && Find(once, question).Some?
  {
  }

  /** Incrementing never changes which questions are known or what their answers are. */
  lemma IncrementKeepsAnswers(rows: Rows, question: string, q: string)
    ensures Find(Increment(rows, question), q) == Find(rows, q)
  {
  }
}
