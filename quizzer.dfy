/**
 * quizer.js as the program runs it: the module-level variables
 * `lastQuestion` and `lastQuestionAnswered` (quizer.js:10-11) and the
 * database handle, updated in place by the 'line' handler
 * (quizer.js:143-186) and by the replay loop (quizer.js:20-62).
 *
 * Each method is proved against the value-level transition of module
 * QuizSession, where the properties of those transitions are proved.
 */
module Quizer {
  import opened Wrappers
  import opened QuizText
  import opened AnswerTable
  import opened QuizSession

  class Quizzer {
    var lastQuestion: string
    var lastQuestionAnswered: bool
    /** The rows of `quiz_questions`. */
    var store: Rows

    /** The fields as a session value. */
    function State(): Session
      reads this
    {
      Session(lastQuestion, lastQuestionAnswered, store)
    }

    ghost predicate Valid()
      reads this
    {
      Consistent(State())
    }

    /** Start-up: nothing pending (quizer.js:10-11), and the table as found on disk. */
    constructor (rows: Rows)
      requires AnswerTable.Valid(rows)
      ensures Valid() && State() == Start(rows)
    {
      lastQuestion := "";
      lastQuestionAnswered := false;
      store := rows;
    }

    /** insertQuestionAnswer (quizer.js:85-93): a statement that breaks a constraint leaves the table alone. */
    method InsertQuestionAnswer(question: string, answer: string)
      modifies this
      ensures store == Insert(old(store), question, answer)
      ensures lastQuestion == old(lastQuestion) && lastQuestionAnswered == old(lastQuestionAnswered)
    {
      if AnswerTable.MeetsCheck(question) && question !in store {
        store := store[question := Record(answer, 1)];
      }
    }

    /** incrementOccurences (quizer.js:95-99) */
    method IncrementOccurences(question: string)
      modifies this
      ensures store == Increment(old(store), question)
      ensures lastQuestion == old(lastQuestion) && lastQuestionAnswered == old(lastQuestionAnswered)
    {
      if question in store {
        var row := store[question];
        store := store[question := row.(occurrence := row.occurrence + 1)];
      }
    }

    /** findAnswer (quizer.js:101-110): the stored answer of exactly this question, if there is a row for it. */
    method FindAnswer(question: string) returns (found: Option<string>)
      ensures found.Some? <==> question in store
      ensures found.Some? ==> found.value == store[question].answer
    {
      if question in store {
        found := Some(store[question].answer);
      } else {
        found := None;
      }
    }

    /**
     * The two prompt solvers of the 'line' handler (quizer.js:162-173):
     * the commands they put on the clipboard, and whether the equation's
     * evaluation threw, which rejects the handler.
     */
    method SolvePrompts(quizSentence: string, eval: string -> EvalResult) returns (emitted: seq<string>, thrown: bool)
      ensures thrown <==> SolveEquation(quizSentence, eval).Thrown?
      ensures emitted == PromptCommands(quizSentence, eval)
      ensures thrown ==> emitted == []
    {
      emitted := [];
      var word := SolveTypingQuestion(quizSentence);
      if word != "" {
        emitted := emitted + [Command(word)];
        PromptsAreExclusive(quizSentence);
      }
      var equationAnswer := SolveEquation(quizSentence, eval);
      if equationAnswer.Thrown? {
        return emitted, true;
      }
      if equationAnswer.truthy {
        emitted := emitted + [Command(equationAnswer.text)];
      }
      PromptCommandsOf(quizSentence, eval, word, equationAnswer);
      thrown := false;
    }

    /**
     * The end of the 'line' handler (quizer.js:174-185): the sentence is
     * looked up; a known answer is put on the clipboard and its occurrence
     * counted; the sentence becomes the pending question.
     */
    method LookUp(quizSentence: string) returns (emitted: seq<string>)
      modifies this
      ensures Find(old(store), quizSentence).None? ==>
                State() == Session(quizSentence, false, old(store)) && emitted == []
      ensures Find(old(store), quizSentence).Some? ==>
                State() == Session(quizSentence, true, Increment(old(store), quizSentence))
                && emitted == [Command(Find(old(store), quizSentence).value)]
    {
      emitted := [];
      var foundAnswer := FindAnswer(quizSentence);
      if foundAnswer.None? {
        lastQuestionAnswered := false;
      } else {
        emitted := [Command(foundAnswer.value)];
        IncrementOccurences(quizSentence);
        lastQuestionAnswered := true;
      }
      lastQuestion := quizSentence;
    }

    /**
     * The rest of the 'line' handler once the sentence is taken for a
     * question (quizer.js:162-185): the prompt solvers, then the lookup.
     */
    method AnswerQuestion(quizSentence: string, eval: string -> EvalResult) returns (emitted: seq<string>, rejected: bool)
      requires LooksUp(State(), quizSentence)
      modifies this
      ensures HandleSentence(old(State()), quizSentence, eval) == LineResult(State(), emitted)
      ensures rejected <==> SolveEquation(quizSentence, eval).Thrown?
    {
      ghost var s0 := State();
      emitted, rejected := SolvePrompts(quizSentence, eval);
      if rejected {
        ThrowingEvalChangesNothing(s0, quizSentence, eval);
        return;
      }
      HandleSentenceLooksUp(s0, quizSentence, eval);
      var known := LookUp(quizSentence);
      emitted := emitted + known;
    }

    /**
     * The recording branch of the 'line' handler (quizer.js:155-161): the
     * pending question is stored with the revealed answer and cleared.
     */
    method RecordAnswer(answer: string)
      modifies this
      ensures State() == Session("", old(lastQuestionAnswered), Insert(old(store), old(lastQuestion), answer))
    {
      InsertQuestionAnswer(lastQuestion, answer);
      lastQuestion := "";
    }

    /** The 'line' handler once the quiz sentence is extracted (quizer.js:150-185). */
    method HandleQuizSentence(quizSentence: string, eval: string -> EvalResult) returns (emitted: seq<string>, rejected: bool)
      modifies this
      ensures HandleSentence(old(State()), quizSentence, eval) == LineResult(State(), emitted)
      ensures rejected <==> LooksUp(old(State()), quizSentence) && SolveEquation(quizSentence, eval).Thrown?
    {
      ghost var s0 := State();
      var answer := RevealedAnswer(quizSentence);
      if lastQuestion == "" && answer != "" {
        OrphanAnswerIgnored(s0, quizSentence, eval);
        return [], false;
      }
      if answer != "" && !lastQuestionAnswered {
        RecordsTransition(s0, quizSentence, eval);
        RecordAnswer(answer);
        return [], false;
      }
      emitted, rejected := AnswerQuestion(quizSentence, eval);
    }

    /**
     * The 'line' handler (quizer.js:143-186), returning the commands put
     * on the clipboard in order and whether the handler's promise rejects.
     */
    method OnLine(line: string, eval: string -> EvalResult) returns (emitted: seq<string>, rejected: bool)
      requires Valid()
      modifies this
      ensures Valid()
      ensures HandleLine(old(State()), line, eval) == LineResult(State(), emitted)
      ensures rejected <==> Rejects(old(State()), line, eval)
    {
      HandleLineKeepsConsistent(State(), line, eval);
      var parsedLine := QuizSentence(line);
      if parsedLine.None? {
        return [], false;
      }
      emitted, rejected := HandleQuizSentence(parsedLine.value, eval);
    }

    /**
     * The replay of a log file (quizer.js:20-62), returning the commands
     * written to the log and whether the loop reached `process.exit(0)`.
     * The loop's body is the 'line' handler without equation solving and
     * with the log in place of the clipboard, except that an orphan
     * answer `return`s from the whole replay.
     */
    method Replay(lines: seq<string>) returns (announced: seq<string>, exited: bool)
      requires Valid()
      modifies this
      ensures Valid()
      ensures ReplayLines(old(State()), lines) == ReplayOutcome(State(), announced, exited)
    {
      announced := [];
      for i := 0 to |lines|
        invariant Valid()
        invariant ReplayLines(old(State()), lines) == After(announced, ReplayLines(State(), lines[i..]))
      {
        ghost var before := State();
        assert lines[i..][0] == lines[i] && lines[i..][1..] == lines[i+1..];
        var parsedLine := QuizSentence(lines[i]);
        if parsedLine.Some? && lastQuestion == "" && RevealedAnswer(parsedLine.value) != "" {
          ReplayStopsOnlyOnOrphans(before, lines[i]);
          assert announced + [] == announced;
          return announced, false;
        }
        ReplayStopsOnlyOnOrphans(before, lines[i]);
        ReplayLineIsHandleLine(before, lines[i], NoEquations);
        var logged, _ := OnLine(lines[i], NoEquations);
        AfterAfter(announced, logged, ReplayLines(State(), lines[i+1..]));
        announced := announced + logged;
      }
      exited := true;
    }
  }
}
