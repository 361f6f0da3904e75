/**
 * The quiz-line pipeline of quizer.js as transitions on a value: the
 * module-level `lastQuestion` and `lastQuestionAnswered` (quizer.js:10-11)
 * together with the answer table.
 *
 * `HandleLine` is one run of the live 'line' handler (quizer.js:143-186)
 * and `HandleLines` a tail feeding it one line at a time until a handler
 * rejects. `ReplayLine` is one pass of the replay loop's body
 * (quizer.js:23-60) and `ReplayLines` the whole loop followed by
 * `process.exit(0)` (quizer.js:61).
 * quizer.js's methods over these values are in module Quizer.
 */
module QuizSession {
  import opened Wrappers
  import opened QuizText
  import opened AnswerTable

  datatype Session = Session(lastQuestion: string, lastQuestionAnswered: bool, store: Rows)

  /** The state at start-up: no pending question, and the table as found on disk. */
  function Start(store: Rows): (s: Session)
    ensures s.lastQuestion == "" && !s.lastQuestionAnswered && s.store == store
  {
    Session("", false, store)
  }

  /**
   * The invariant every reachable session keeps: the table meets its
   * schema, and the pending question was answered from the table exactly
   * when it is in the table. (An empty question never is.)
   */
  ghost predicate Consistent(s: Session) {
    AnswerTable.Valid(s.store) && (s.lastQuestionAnswered <==> s.lastQuestion in s.store)
  }

  /** The command put on the clipboard (live) or written to the log (replay). */
  const AnswerCommand := "/answ "

  function Command(text: string): (c: string)
    ensures StartsWith(c, AnswerCommand) && c[|AnswerCommand|..] == text
  {
    AnswerCommand + text
  }

  /** What one line does: the new session and the commands put on the clipboard, in order. */
  datatype LineResult = LineResult(next: Session, emitted: seq<string>)

  /** The sentence reveals an answer that the handler records (quizer.js:155-161). */
  predicate Records(s: Session, sentence: string) {
    RevealedAnswer(sentence) != "" && s.lastQuestion != "" && !s.lastQuestionAnswered
  }

  /** The handler reaches the prompt solvers and the lookup (quizer.js:162-185). */
  predicate LooksUp(s: Session, sentence: string) {
    RevealedAnswer(sentence) == "" || (s.lastQuestion != "" && s.lastQuestionAnswered)
  }

  /** The command answering a typing prompt, if the sentence is one (quizer.js:162-167, :42-45). */
  function TypedCommands(sentence: string): seq<string> {
    var word := SolveTypingQuestion(sentence);
    if word != "" then [Command(word)] else []
  }

  /** The commands the two prompt solvers put on the clipboard, in order (quizer.js:162-173). */
  function PromptCommands(sentence: string, eval: string -> EvalResult): seq<string> {
    match SolveEquation(sentence, eval)
    case Thrown => TypedCommands(sentence)
    case Value(result, truthy) => TypedCommands(sentence) + (if truthy then [Command(result)] else [])
  }

  /** The 'line' handler after the tag match, on the quiz sentence (quizer.js:149-185). */
  function HandleSentence(s: Session, sentence: string, eval: string -> EvalResult): LineResult {
    var answer := RevealedAnswer(sentence);
    if s.lastQuestion == "" && answer != "" then
      // an answer to a question asked before start-up
      LineResult(s, [])
    else if answer != "" && !s.lastQuestionAnswered then
      LineResult(s.(lastQuestion := "", store := Insert(s.store, s.lastQuestion, answer)), [])
    else
      var prompted := PromptCommands(sentence, eval);
      if SolveEquation(sentence, eval).Thrown? then
        // the async handler rejects before the lookup; nothing else happens
        LineResult(s, prompted)
      else
        match Find(s.store, sentence)
        case None => LineResult(Session(sentence, false, s.store), prompted)
        case Some(known) =>
          LineResult(Session(sentence, true, Increment(s.store, sentence)), prompted + [Command(known)])
  }

  /** The live 'line' handler (quizer.js:143-186). */
  function HandleLine(s: Session, line: string, eval: string -> EvalResult): LineResult {
    match QuizSentence(line)
    case None => LineResult(s, [])
    case Some(sentence) => HandleSentence(s, sentence, eval)
  }

  /** The solvers' commands in terms of the two solvers' results. */
  lemma PromptCommandsOf(sentence: string, eval: string -> EvalResult, word: string, result: EvalResult)
    requires word == SolveTypingQuestion(sentence) && result == SolveEquation(sentence, eval) && result.Value?
    ensures PromptCommands(sentence, eval)
            == (if word != "" then [Command(word)] else []) + (if result.truthy then [Command(result.text)] else [])
  {
  }

  /** A sentence that reaches the lookup: the solvers' commands, then the table's answer if there is one. */
  lemma HandleSentenceLooksUp(s: Session, sentence: string, eval: string -> EvalResult)
    requires LooksUp(s, sentence) && SolveEquation(sentence, eval).Value?
    ensures HandleSentence(s, sentence, eval) ==
            match Find(s.store, sentence)
            case None => LineResult(Session(sentence, false, s.store), PromptCommands(sentence, eval))
            case Some(known) =>
              LineResult(Session(sentence, true, Increment(s.store, sentence)), PromptCommands(sentence, eval) + [Command(known)])
  {
  }

  /**
   * The handler's promise rejects: the sentence reaches the solvers and
   * `eval` throws (quizer.js:126, :168). The tail ignores the promise the
   * listener returns, so the rejection is unhandled and ends the process.
   */
  predicate Rejects(s: Session, line: string, eval: string -> EvalResult) {
    match QuizSentence(line)
    case None => false
    case Some(sentence) => LooksUp(s, sentence) && SolveEquation(sentence, eval).Thrown?
  }

  /** The end of a run of the tail: last session, clipboard writes, and whether the process ended on a rejection. */
  datatype TailOutcome = TailOutcome(final: Session, emitted: seq<string>, crashed: bool)

  /**
   * The tail delivering `lines` one at a time, each handled to completion
   * before the next, until a handler rejects.
   */
  function HandleLines(s: Session, lines: seq<string>, eval: string -> EvalResult): TailOutcome
    decreases |lines|
  {
    if lines == [] then TailOutcome(s, [], false)
    else
      var first := HandleLine(s, lines[0], eval);
      if Rejects(s, lines[0], eval) then TailOutcome(first.next, first.emitted, true)
      else
        var rest := HandleLines(first.next, lines[1..], eval);
        TailOutcome(rest.final, first.emitted + rest.emitted, rest.crashed)
  }

  // ---------------------------------------------------------------------
  // Properties of one line
  // ---------------------------------------------------------------------

  /** A line without the quiz tag, or holding a line terminator, changes nothing and emits nothing. */
  lemma UntaggedLineIgnored(s: Session, line: string, eval: string -> EvalResult)
    requires !AllIn(line, Dot) || forall p :: !TagAt(line, p)
    ensures HandleLine(s, line, eval) == LineResult(s, [])
  {
  }

  /** With no pending question an answer sentence leaves session and table unchanged (quizer.js:152-154). */
  lemma OrphanAnswerIgnored(s: Session, sentence: string, eval: string -> EvalResult)
    requires s.lastQuestion == "" && RevealedAnswer(sentence) != ""
    ensures HandleSentence(s, sentence, eval) == LineResult(s, [])
  {
  }

  /** The recording branch as a transition (quizer.js:155-161). */
  lemma RecordsTransition(s: Session, sentence: string, eval: string -> EvalResult)
    requires Records(s, sentence)
    ensures HandleSentence(s, sentence, eval)
            == LineResult(s.(lastQuestion := "", store := Insert(s.store, s.lastQuestion, RevealedAnswer(sentence))), [])
  {
  }

  /**
   * An answer to a pending question that was not auto-answered is
   * recorded with occurrence 1 as a new row, unless the question breaks
   * the CHECK constraint (it starts with NUL), when the table is left as it
   * was; either way the pending question clears, nothing is looked up and
   * nothing is emitted (quizer.js:155-161, :77-81). In a consistent session
   * the question is never already in the table.
   */
  lemma AnswerIsRecorded(s: Session, sentence: string, eval: string -> EvalResult)
    requires Consistent(s) && Records(s, sentence)
    ensures s.lastQuestion !in s.store
    ensures var r := HandleSentence(s, sentence, eval);
            r.next.lastQuestion == "" && !r.next.lastQuestionAnswered && r.emitted == []
    ensures MeetsCheck(s.lastQuestion) ==>
            HandleSentence(s, sentence, eval).next.store == s.store[s.lastQuestion := Record(RevealedAnswer(sentence), 1)]
    ensures !MeetsCheck(s.lastQuestion) ==> HandleSentence(s, sentence, eval).next.store == s.store
  {
    RecordsTransition(s, sentence, eval);
  }

  /**
   * An answer sentence arriving after an auto-answer is not recorded: it is
   * looked up like a question and becomes the pending question (quizer.js:155, :174-185).
   */
  lemma AnswerAfterAutoAnswerIsLookedUp(s: Session, sentence: string, eval: string -> EvalResult)
    requires s.lastQuestion != "" && s.lastQuestionAnswered && RevealedAnswer(sentence) != ""
    ensures HandleSentence(s, sentence, eval).next.lastQuestion == sentence
    ensures HandleSentence(s, sentence, eval).next.store.Keys == s.store.Keys
    ensures HandleSentence(s, sentence, eval).next.lastQuestionAnswered <==> sentence in s.store
  {
    AnswerSentenceIsNoEquation(sentence, eval);
  }

  /**
   * Lookup hit: the stored answer is emitted last, exactly that row's
   * occurrence goes up by one, and the sentence becomes the pending,
   * answered question (quizer.js:178-185).
   */
  lemma LookupHit(s: Session, sentence: string, eval: string -> EvalResult)
    requires LooksUp(s, sentence) && SolveEquation(sentence, eval).Value? && sentence in s.store
    ensures var r := HandleSentence(s, sentence, eval);
            && r.next.lastQuestion == sentence && r.next.lastQuestionAnswered
            && |r.emitted| > 0 && r.emitted[|r.emitted| - 1] == Command(s.store[sentence].answer)
            && r.next.store.Keys == s.store.Keys
            && r.next.store[sentence] == Record(s.store[sentence].answer, s.store[sentence].occurrence + 1)
            && (forall q :: q in s.store && q != sentence ==> r.next.store[q] == s.store[q])
  {
    HandleSentenceLooksUp(s, sentence, eval);
  }

  /**
   * Lookup miss: the table is unchanged and the sentence becomes the
   * pending, unanswered question (quizer.js:175-177, :185).
   */
  lemma LookupMiss(s: Session, sentence: string, eval: string -> EvalResult)
    requires LooksUp(s, sentence) && SolveEquation(sentence, eval).Value? && sentence !in s.store
    ensures HandleSentence(s, sentence, eval).next == Session(sentence, false, s.store)
  {
    HandleSentenceLooksUp(s, sentence, eval);
  }

  /** A typed word is emitted first (quizer.js:162-167). */
  lemma TypedWordEmittedFirst(s: Session, sentence: string, eval: string -> EvalResult)
    requires LooksUp(s, sentence) && SolveTypingQuestion(sentence) != ""
    ensures var r := HandleSentence(s, sentence, eval);
            |r.emitted| > 0 && r.emitted[0] == Command(SolveTypingQuestion(sentence))
  {
    PromptsAreExclusive(sentence);
    HandleSentenceLooksUp(s, sentence, eval);
    assert PromptCommands(sentence, eval) == [Command(SolveTypingQuestion(sentence))] + [];
  }

  /** A truthy equation result is emitted first, before any stored answer (quizer.js:168-173). */
  lemma EquationResultEmittedFirst(s: Session, sentence: string, eval: string -> EvalResult)
    requires LooksUp(s, sentence) && SolveEquation(sentence, eval).Value? && SolveEquation(sentence, eval).truthy
    ensures var r := HandleSentence(s, sentence, eval);
            |r.emitted| > 0 && r.emitted[0] == Command(SolveEquation(sentence, eval).text)
  {
    assert SolveTypingQuestion(sentence) == "" by {
      if SolveTypingQuestion(sentence) != "" {
        PromptsAreExclusive(sentence);
      }
    }
  }

  /** A falsy equation result ('' or 0) is never emitted: an unknown non-prompt question emits nothing (quizer.js:169). */
  lemma FalsyResultNotEmitted(s: Session, sentence: string, eval: string -> EvalResult)
    requires LooksUp(s, sentence) && SolveEquation(sentence, eval).Value? && !SolveEquation(sentence, eval).truthy
    requires SolveTypingQuestion(sentence) == "" && sentence !in s.store
    ensures HandleSentence(s, sentence, eval).emitted == []
  {
  }

  /** When `eval` throws, the handler stops before the lookup and the session is unchanged. */
  lemma ThrowingEvalChangesNothing(s: Session, sentence: string, eval: string -> EvalResult)
    requires LooksUp(s, sentence) && SolveEquation(sentence, eval).Thrown?
    ensures HandleSentence(s, sentence, eval) == LineResult(s, [])
  {
    assert EquationExpression(sentence).Some?;
  }

  /** Everything emitted is an `/answ` command. */
  lemma EmittedAreCommands(s: Session, line: string, eval: string -> EvalResult)
    ensures forall c :: c in HandleLine(s, line, eval).emitted ==> StartsWith(c, AnswerCommand)
  {
    match QuizSentence(line)
    case None =>
    case Some(sentence) =>
      if s.lastQuestion == "" && RevealedAnswer(sentence) != "" {
        OrphanAnswerIgnored(s, sentence, eval);
      } else if Records(s, sentence) {
        RecordsTransition(s, sentence, eval);
      } else if SolveEquation(sentence, eval).Thrown? {
        ThrowingEvalChangesNothing(s, sentence, eval);
      } else {
        HandleSentenceLooksUp(s, sentence, eval);
        PromptCommandsAreCommands(sentence, eval);
        var r := HandleSentence(s, sentence, eval);
        match Find(s.store, sentence)
        case None =>
        case Some(known) =>
          assert forall c :: c in r.emitted ==> c in PromptCommands(sentence, eval) || c == Command(known);
      }
  }

  /** The prompt solvers emit only `/answ` commands. */
  lemma PromptCommandsAreCommands(sentence: string, eval: string -> EvalResult)
    ensures forall c :: c in PromptCommands(sentence, eval) ==> StartsWith(c, AnswerCommand)
  {
    var typed := TypedCommands(sentence);
    assert forall c :: c in typed ==> StartsWith(c, AnswerCommand);
  }

  /** At most two commands per line: one from a prompt solver (the two never both apply) and one from the table. */
  lemma AtMostTwoCommands(s: Session, line: string, eval: string -> EvalResult)
    ensures |HandleLine(s, line, eval).emitted| <= 2
  {
    match QuizSentence(line)
    case None =>
    case Some(sentence) =>
      if s.lastQuestion == "" && RevealedAnswer(sentence) != "" {
        OrphanAnswerIgnored(s, sentence, eval);
      } else if Records(s, sentence) {
        RecordsTransition(s, sentence, eval);
      } else if SolveEquation(sentence, eval).Thrown? {
        ThrowingEvalChangesNothing(s, sentence, eval);
      } else {
        HandleSentenceLooksUp(s, sentence, eval);
        AtMostOnePromptCommand(sentence, eval);
      }
  }

  /** The two prompt solvers never both answer. */
  lemma AtMostOnePromptCommand(sentence: string, eval: string -> EvalResult)
    ensures |PromptCommands(sentence, eval)| <= 1
  {
    if SolveTypingQuestion(sentence) != "" {
      PromptsAreExclusive(sentence);
    }
  }

  /** One line keeps the session consistent. */
  lemma HandleLineKeepsConsistent(s: Session, line: string, eval: string -> EvalResult)
    requires Consistent(s)
    ensures Consistent(HandleLine(s, line, eval).next)
  {
    match QuizSentence(line)
    case None =>
    case Some(sentence) =>
      if s.lastQuestion == "" && RevealedAnswer(sentence) != "" {
        OrphanAnswerIgnored(s, sentence, eval);
      } else if Records(s, sentence) {
        AnswerIsRecorded(s, sentence, eval);
      } else if SolveEquation(sentence, eval).Thrown? {
        ThrowingEvalChangesNothing(s, sentence, eval);
      } else {
        HandleSentenceLooksUp(s, sentence, eval);
      }
  }

  /** One line leaves every row with a non-empty answer and an occurrence of at least 1. */
  lemma HandleLineKeepsRows(s: Session, line: string, eval: string -> EvalResult)
    requires RowsWellFormed(s.store)
    ensures RowsWellFormed(HandleLine(s, line, eval).next.store)
  {
    match QuizSentence(line)
    case None =>
    case Some(sentence) =>
      if s.lastQuestion == "" && RevealedAnswer(sentence) != "" {
        OrphanAnswerIgnored(s, sentence, eval);
      } else if Records(s, sentence) {
        RecordsTransition(s, sentence, eval);
        InsertKeepsWellFormed(s.store, s.lastQuestion, RevealedAnswer(sentence));
      } else if SolveEquation(sentence, eval).Thrown? {
        ThrowingEvalChangesNothing(s, sentence, eval);
      } else {
        HandleSentenceLooksUp(s, sentence, eval);
        IncrementKeepsWellFormed(s.store, sentence);
      }
  }

  /** Rows are never removed and answers never rewritten; occurrences only grow. */
  ghost predicate Retains(before: Rows, after: Rows) {
    forall q :: q in before ==> q in after && after[q].answer == before[q].answer
                                && after[q].occurrence >= before[q].occurrence
  }

  lemma HandleLineRetains(s: Session, line: string, eval: string -> EvalResult)
    ensures Retains(s.store, HandleLine(s, line, eval).next.store)
  {
    match QuizSentence(line)
    case None =>
    case Some(sentence) =>
      if s.lastQuestion == "" && RevealedAnswer(sentence) != "" {
        OrphanAnswerIgnored(s, sentence, eval);
      } else if Records(s, sentence) {
        RecordsTransition(s, sentence, eval);
        InsertRetains(s.store, s.lastQuestion, RevealedAnswer(sentence));
      } else if SolveEquation(sentence, eval).Thrown? {
        ThrowingEvalChangesNothing(s, sentence, eval);
      } else {
        HandleSentenceLooksUp(s, sentence, eval);
        IncrementRetains(s.store, sentence);
      }
  }

  lemma InsertRetains(rows: Rows, question: string, answer: string)
    ensures Retains(rows, Insert(rows, question, answer))
  {
  }

  lemma IncrementRetains(rows: Rows, question: string)
    ensures Retains(rows, Increment(rows, question))
  {
  }

  /** Over any number of lines the first answer recorded for a question is the one kept. */
  lemma {:induction false} HandleLinesRetains(s: Session, lines: seq<string>, eval: string -> EvalResult)
    ensures Retains(s.store, HandleLines(s, lines, eval).final.store)
    decreases |lines|
  {
    if lines != [] {
      var first := HandleLine(s, lines[0], eval);
      HandleLineRetains(s, lines[0], eval);
      HandleLinesRetains(first.next, lines[1..], eval);
    }
  }

  /**
   * A rejecting line ends the tail: the session is as before the line, and
   * no later line is handled.
   */
  lemma RejectionEndsTail(s: Session, line: string, rest: seq<string>, eval: string -> EvalResult)
    requires Rejects(s, line, eval)
    ensures HandleLines(s, [line] + rest, eval) == TailOutcome(s, [], true)
  {
    assert ([line] + rest)[0] == line;
    ThrowingEvalChangesNothing(s, QuizSentence(line).value, eval);
  }

  /** An evaluator that never throws never makes a handler reject. */
  lemma NeverThrowsNeverRejects(s: Session, line: string, eval: string -> EvalResult)
    requires NeverThrows(eval)
    ensures !Rejects(s, line, eval)
  {
    match QuizSentence(line)
    case None =>
    case Some(sentence) => EvalNeverThrows(sentence, eval);
  }

  /** With an evaluator that never throws the tail handles every line. */
  lemma {:induction false} NeverThrowsRunsToEnd(s: Session, lines: seq<string>, eval: string -> EvalResult)
    requires NeverThrows(eval)
    ensures !HandleLines(s, lines, eval).crashed
    decreases |lines|
  {
    if lines != [] {
      NeverThrowsNeverRejects(s, lines[0], eval);
      NeverThrowsRunsToEnd(HandleLine(s, lines[0], eval).next, lines[1..], eval);
    }
  }

  /** Over any number of lines the session stays consistent. */
  lemma {:induction false} HandleLinesKeepsConsistent(s: Session, lines: seq<string>, eval: string -> EvalResult)
    requires Consistent(s)
    ensures Consistent(HandleLines(s, lines, eval).final)
    decreases |lines|
  {
    if lines != [] {
      HandleLineKeepsConsistent(s, lines[0], eval);
      HandleLinesKeepsConsistent(HandleLine(s, lines[0], eval).next, lines[1..], eval);
    }
  }

  /** Over any number of lines every row keeps a non-empty answer and an occurrence of at least 1. */
  lemma {:induction false} HandleLinesKeepRows(s: Session, lines: seq<string>, eval: string -> EvalResult)
    requires RowsWellFormed(s.store)
    ensures RowsWellFormed(HandleLines(s, lines, eval).final.store)
    decreases |lines|
  {
    if lines != [] {
      HandleLineKeepsRows(s, lines[0], eval);
      HandleLinesKeepRows(HandleLine(s, lines[0], eval).next, lines[1..], eval);
    }
  }

  // ---------------------------------------------------------------------
  // The replay loop (quizer.js:20-62)
  // ---------------------------------------------------------------------

  /** One pass of the loop body: `return` on an orphan answer, otherwise on to the next line. */
  datatype ReplayStep = Stop | Continue(next: Session, announced: seq<string>)

  /**
   * The body of the replay loop (quizer.js:24-59): the live handler's
   * transitions without equation solving, with the `/answ` commands
   * written to the log rather than the clipboard.
   */
  function ReplayLine(s: Session, line: string): ReplayStep {
    match QuizSentence(line)
    case None => Continue(s, [])
    case Some(sentence) =>
      var answer := RevealedAnswer(sentence);
      if s.lastQuestion == "" && answer != "" then Stop
      else if answer != "" && !s.lastQuestionAnswered then
        Continue(s.(lastQuestion := "", store := Insert(s.store, s.lastQuestion, answer)), [])
      else
        var typed := TypedCommands(sentence);
        match Find(s.store, sentence)
        case None => Continue(Session(sentence, false, s.store), typed)
        case Some(known) => Continue(Session(sentence, true, Increment(s.store, sentence)), typed + [Command(known)])
  }

  /** The end of a replay: last session, logged commands, and whether `process.exit(0)` was reached. */
  datatype ReplayOutcome = ReplayOutcome(final: Session, announced: seq<string>, exited: bool)

  /** Commands logged before `outcome`, in front of its own. */
  function After(announced: seq<string>, outcome: ReplayOutcome): (r: ReplayOutcome)
    ensures r.final == outcome.final && r.exited == outcome.exited
    ensures r.announced == announced + outcome.announced
  {
    ReplayOutcome(outcome.final, announced + outcome.announced, outcome.exited)
  }

  /** The replay loop as written: it stops for good at the first orphan answer (quizer.js:32-34). */
  function ReplayLines(s: Session, lines: seq<string>): ReplayOutcome
    decreases |lines|
  {
    if lines == [] then ReplayOutcome(s, [], true)
    else
      match ReplayLine(s, lines[0])
      case Stop => ReplayOutcome(s, [], false)
      case Continue(next, announced) => After(announced, ReplayLines(next, lines[1..]))
  }

  /** Commands logged in two stretches are logged in order. */
  lemma AfterAfter(first: seq<string>, second: seq<string>, outcome: ReplayOutcome)
    ensures After(first, After(second, outcome)) == After(first + second, outcome)
  {
    assert first + (second + outcome.announced) == (first + second) + outcome.announced;
  }

  /** The loop stops on a line exactly when that line is an answer sentence with no pending question. */
  lemma ReplayStopsOnlyOnOrphans(s: Session, line: string)
    ensures ReplayLine(s, line).Stop? <==>
            s.lastQuestion == "" && QuizSentence(line).Some? && RevealedAnswer(QuizSentence(line).value) != ""
  {
  }

  /** The evaluator of a replay, which does not solve equations: every result is the falsy "". */
  function NoEquations(expression: string): (r: EvalResult)
    ensures r.Value? && !r.truthy
  {
    Value("", false)
  }

  /** An evaluator that never throws. */
  ghost predicate NeverThrows(eval: string -> EvalResult) {
    forall e :: eval(e).Value?
  }

  /**
   * Replay makes the live handler's transitions: with an evaluator that
   * never throws the session is the same, and with equation solving
   * switched off the commands are the same as well.
   */
  lemma ReplayLineIsHandleLine(s: Session, line: string, eval: string -> EvalResult)
    requires NeverThrows(eval)
    requires ReplayLine(s, line).Continue?
    ensures HandleLine(s, line, eval).next == ReplayLine(s, line).next
    ensures HandleLine(s, line, NoEquations).emitted == ReplayLine(s, line).announced
  {
    match QuizSentence(line)
    case None =>
    case Some(sentence) =>
      if Records(s, sentence) {
        RecordingAgrees(s, line, sentence, eval);
      } else if LooksUp(s, sentence) {
        LookupAgrees(s, line, sentence, eval);
      }
  }

  lemma RecordingAgrees(s: Session, line: string, sentence: string, eval: string -> EvalResult)
    requires QuizSentence(line) == Some(sentence) && Records(s, sentence)
    ensures HandleSentence(s, sentence, eval).next == ReplayLine(s, line).next
    ensures HandleSentence(s, sentence, NoEquations).emitted == ReplayLine(s, line).announced
  {
    RecordsTransition(s, sentence, eval);
    RecordsTransition(s, sentence, NoEquations);
    ReplayRecords(s, line, sentence);
  }

  lemma LookupAgrees(s: Session, line: string, sentence: string, eval: string -> EvalResult)
    requires NeverThrows(eval)
    requires QuizSentence(line) == Some(sentence) && LooksUp(s, sentence)
    ensures HandleSentence(s, sentence, eval).next == ReplayLine(s, line).next
    ensures HandleSentence(s, sentence, NoEquations).emitted == ReplayLine(s, line).announced
  {
    EvalNeverThrows(sentence, eval);
    HandleSentenceLooksUp(s, sentence, eval);
    ReplayLineLooksUp(s, line, sentence);
    LookupLogsTypedWord(s, line, sentence);
  }

  lemma LookupLogsTypedWord(s: Session, line: string, sentence: string)
    requires QuizSentence(line) == Some(sentence) && LooksUp(s, sentence)
    ensures HandleSentence(s, sentence, NoEquations).emitted == ReplayLine(s, line).announced
  {
    HandleSentenceLooksUp(s, sentence, NoEquations);
    ReplayLineLooksUp(s, line, sentence);
    NoEquationsPromptsTypedWord(sentence);
  }

  /** Without equation solving only the typing prompt is answered. */
  lemma NoEquationsPromptsTypedWord(sentence: string)
    ensures PromptCommands(sentence, NoEquations) == TypedCommands(sentence)
  {
    assert TypedCommands(sentence) + [] == TypedCommands(sentence);
  }

  /** An evaluator that never throws gives a value on every sentence. */
  lemma EvalNeverThrows(sentence: string, eval: string -> EvalResult)
    requires NeverThrows(eval)
    ensures SolveEquation(sentence, eval).Value?
  {
    assert eval(if EquationExpression(sentence).Some? then EquationExpression(sentence).value else "").Value?;
  }

  /** The recording branch of the replay (quizer.js:35-41). */
  lemma ReplayRecords(s: Session, line: string, sentence: string)
    requires QuizSentence(line) == Some(sentence) && Records(s, sentence)
    ensures ReplayLine(s, line)
            == Continue(s.(lastQuestion := "", store := Insert(s.store, s.lastQuestion, RevealedAnswer(sentence))), [])
  {
  }

  /** A line that reaches the lookup in the replay: the typed word, then the table's answer if there is one. */
  lemma ReplayLineLooksUp(s: Session, line: string, sentence: string)
    requires QuizSentence(line) == Some(sentence) && LooksUp(s, sentence)
    ensures ReplayLine(s, line) ==
            match Find(s.store, sentence)
            case None => Continue(Session(sentence, false, s.store), TypedCommands(sentence))
            case Some(known) =>
              Continue(Session(sentence, true, Increment(s.store, sentence)), TypedCommands(sentence) + [Command(known)])
  {
  }

  /** Replaying `a + b`: `b` is replayed from where `a` left off, unless `a` stopped the loop. */
  lemma {:induction false} ReplayAppend(s: Session, a: seq<string>, b: seq<string>)
    ensures var first := ReplayLines(s, a);
            ReplayLines(s, a + b) == if first.exited then After(first.announced, ReplayLines(first.final, b)) else first
    decreases |a|
  {
    if a == [] {
      assert a + b == b;
    } else {
      assert (a + b)[0] == a[0] && (a + b)[1..] == a[1..] + b;
      var step := ReplayLine(s, a[0]);
      ReplayLinesStep(s, a, step);
      ReplayLinesStep(s, a + b, step);
      if step.Continue? {
        ReplayAppend(step.next, a[1..], b);
        var first := ReplayLines(step.next, a[1..]);
        if first.exited {
          AfterAfter(step.announced, first.announced, ReplayLines(first.final, b));
        }
      }
    }
  }

  /** One pass of the replay loop, in terms of the step it takes. */
  lemma ReplayLinesStep(s: Session, lines: seq<string>, step: ReplayStep)
    requires lines != [] && step == ReplayLine(s, lines[0])
    ensures step.Stop? ==> ReplayLines(s, lines) == ReplayOutcome(s, [], false)
    ensures step.Continue? ==> ReplayLines(s, lines) == After(step.announced, ReplayLines(step.next, lines[1..]))
  {
  }

  /**
   * The first orphan answer ends the replay: the lines after it are never
   * read and `process.exit(0)` is never reached.
   */
  lemma ReplayStopsAtOrphan(s: Session, lines: seq<string>, k: nat)
    requires k < |lines|
    requires ReplayLines(s, lines[..k]).exited
    requires ReplayLine(ReplayLines(s, lines[..k]).final, lines[k]).Stop?
    ensures ReplayLines(s, lines) == ReplayOutcome(ReplayLines(s, lines[..k]).final, ReplayLines(s, lines[..k]).announced, false)
  {
    assert lines == lines[..k] + lines[k..];
    ReplayAppend(s, lines[..k], lines[k..]);
    var first := ReplayLines(s, lines[..k]);
    assert ReplayLines(first.final, lines[k..]) == ReplayOutcome(first.final, [], false);
  }

  /** Conversely, a replay that does not reach `process.exit(0)` stopped at some orphan answer. */
  lemma {:induction false} ReplayNotExitedStoppedAtOrphan(s: Session, lines: seq<string>) returns (k: nat)
    requires !ReplayLines(s, lines).exited
    ensures k < |lines| && ReplayLines(s, lines[..k]).exited
    ensures ReplayLine(ReplayLines(s, lines[..k]).final, lines[k]).Stop?
    decreases |lines|
  {
    assert lines != [];
    match ReplayLine(s, lines[0])
    case Stop =>
      k := 0;
      assert lines[..0] == [];
    case Continue(next, announced) =>
      var j := ReplayNotExitedStoppedAtOrphan(next, lines[1..]);
      k := j + 1;
      assert lines[..k][0] == lines[0] && lines[..k][1..] == lines[1..][..j];
      assert lines[k] == lines[1..][j];
  }

  /** Replay keeps the session consistent. */
  lemma {:induction false} ReplayKeepsConsistent(s: Session, lines: seq<string>)
    requires Consistent(s)
    ensures Consistent(ReplayLines(s, lines).final)
    decreases |lines|
  {
    if lines != [] {
      match ReplayLine(s, lines[0])
      case Stop =>
      case Continue(next, _) =>
        ReplayLineIsHandleLine(s, lines[0], NoEquations);
        HandleLineKeepsConsistent(s, lines[0], NoEquations);
        ReplayKeepsConsistent(next, lines[1..]);
    }
  }

  /** Replay leaves every row with a non-empty answer and an occurrence of at least 1. */
  lemma {:induction false} ReplayKeepsRows(s: Session, lines: seq<string>)
    requires RowsWellFormed(s.store)
    ensures RowsWellFormed(ReplayLines(s, lines).final.store)
    decreases |lines|
  {
    if lines != [] {
      match ReplayLine(s, lines[0])
      case Stop =>
      case Continue(next, _) =>
        ReplayLineIsHandleLine(s, lines[0], NoEquations);
        HandleLineKeepsRows(s, lines[0], NoEquations);
        ReplayKeepsRows(next, lines[1..]);
    }
  }

  /** After an orphan answer at the head of the file nothing at all is replayed. */
  lemma ReplayOfLogStartingWithAnswer(s: Session, first: string, rest: seq<string>)
    requires s.lastQuestion == "" && QuizSentence(first).Some? && RevealedAnswer(QuizSentence(first).value) != ""
    ensures ReplayLines(s, [first] + rest) == ReplayOutcome(s, [], false)
  {
    assert ([first] + rest)[0] == first;
    ReplayLinesStep(s, [first] + rest, ReplayLine(s, first));
  }

  /**
   * The replay the comment at quizer.js:31 describes: an orphan answer is
   * skipped (as `continue` would) and the loop runs to the end.
   */
  function ReplaySkippingOrphans(s: Session, lines: seq<string>): ReplayOutcome
    decreases |lines|
  {
    if lines == [] then ReplayOutcome(s, [], true)
    else
      match ReplayLine(s, lines[0])
      case Stop => ReplaySkippingOrphans(s, lines[1..])
      case Continue(next, announced) => After(announced, ReplaySkippingOrphans(next, lines[1..]))
  }

  /**
   * The corrected replay always reaches `process.exit(0)` and leaves the
   * same session and logs the same commands as the live handler given the
   * same lines with equation solving switched off.
   */
  lemma {:induction false} ReplaySkippingOrphansIsLive(s: Session, lines: seq<string>)
    ensures var live := HandleLines(s, lines, NoEquations);
            !live.crashed && ReplaySkippingOrphans(s, lines) == ReplayOutcome(live.final, live.emitted, true)
    decreases |lines|
  {
    if lines != [] {
      NeverThrowsNeverRejects(s, lines[0], NoEquations);
      match ReplayLine(s, lines[0])
      case Stop =>
        assert HandleLine(s, lines[0], NoEquations) == LineResult(s, []);
        ReplaySkippingOrphansIsLive(s, lines[1..]);
      case Continue(next, announced) =>
        ReplayLineIsHandleLine(s, lines[0], NoEquations);
        ReplaySkippingOrphansIsLive(next, lines[1..]);
    }
  }

  /** On a log that opens with an answer sentence the corrected replay goes on to the remaining lines. */
  lemma ReplaySkippingOrphansContinues(s: Session, first: string, rest: seq<string>)
    requires s.lastQuestion == "" && QuizSentence(first).Some? && RevealedAnswer(QuizSentence(first).value) != ""
    ensures ReplaySkippingOrphans(s, [first] + rest) == ReplaySkippingOrphans(s, rest)
    ensures ReplaySkippingOrphans(s, [first] + rest).exited
  {
    assert ([first] + rest)[0] == first && ([first] + rest)[1..] == rest;
    ReplaySkippingOrphansIsLive(s, rest);
  }
}
