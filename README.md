# quizzer: the quiz-line pipeline, modelled and proved in Dafny

quizer.js follows a Minecraft chat log. Lines tagged `[CHAT] [Quiz] `
are quiz sentences. Each sentence is one of three things:
- a prompt the program can answer by itself (a word to type, or an
  equation to solve);
- an announcement of a quiz's answer (a player won, or time ran out);
- a question to look up in a SQLite table of known answers.

An answer is put on the clipboard as an `/answ` command. The program
keeps one pending question. When the pending question was not answered
from the table, the next announced answer is stored for it. Started with
a file argument, the program first replays an old log into the table.

The project has five modules:

- `QuizText` (quiz_text.dfy): the regular expressions of quizer.js as
  functions on strings, with JavaScript's semantics written out.
  - `.` matches any character except `\n`, `\r`, U+2028 and U+2029.
  - `^` and `$` anchor the whole input.
  - The greedy `^.*` makes the line tag match at its LAST occurrence.
  - `\w` and `\d` are ASCII classes.
  - The bracket class `[0-9*+-/]` holds the range `+`..`/`.
  - The timeout pattern is unanchored, and its `.` is a wildcard.
  - Each recogniser has a soundness lemma and, where there is one, a
    round-trip or completeness lemma.
- `AnswerTable` (answer_table.dfy): the table `quiz_questions` as a map
  from question to `Record(answer, occurrence)`, with its CHECK and UNIQUE
  constraints. SQLite's `length()` counts the characters before the first
  NUL, so the CHECK `length(question) > 0` rejects a question that is empty
  or starts with NUL (`MeetsCheck`). It has the three statements the program runs: INSERT,
  UPDATE of the occurrence, and SELECT.
- `QuizSession` (session.dfy): value-level transitions.
  - `HandleLine` is one run of the live 'line' handler.
  - `HandleLines` feeds it a sequence of lines.
  - `ReplayLine` and `ReplayLines` are the replay loop of the start-up
    code as written.
  - The properties are lemmas over these functions.
- `Quizer` (quizzer.dfy): class `Quizzer`, whose fields are the
  module-level `lastQuestion` and `lastQuestionAnswered` and the table's
  rows.
  - Its methods are the source's functions and the two loops: `OnLine` is
    the 'line' handler and `Replay` the replay.
  - Each method's `ensures` ties the new fields and its output to the
    `QuizSession` transition.
  - `OnLine` and `Replay` also keep the invariant `Valid()`: the table
    meets its schema, and the pending question was answered from the
    table exactly when it is in the table.
- `Wrappers` (wrappers.dfy): `Option`.

`eval` (quizer.js:126) is a parameter of type `string -> EvalResult`. It
either throws, or returns a value given by its `/answ` text and its
JavaScript truthiness. The replay does not solve equations. Its evaluator
is `NoEquations`, whose every result is the falsy `""`.

When `eval` throws, the async 'line' handler's promise rejects. An
example is `Solve 1+ first to get a reward! Use /answer to answer the
question!`: the class accepts `1+`, and evaluating it throws. `tail`
ignores the promise its listener returns, so the rejection is unhandled,
and Node's default mode then ends the process. `HandleLines` therefore
stops at a rejecting line (`Rejects`) and reports `crashed`. `OnLine`
returns the rejection as `rejected`.

Three behaviours of the code that are easy to misread:
- **Answer after an auto-answer.** An answer sentence that arrives while
  the pending question was answered from the table does not clear the
  session. It falls through to the solvers and the lookup, and then
  becomes the pending question itself (quizer.js:155, :174-185;
  `AnswerAfterAutoAnswerIsLookedUp`).
- **The equation class.** It accepts `,` and `.` as well as digits and
  `* + - /`, because `+-/` is a range (quizer.js:124;
  `ExpressionClassMembers`).
- **Empty answers.** A win or timeout announcement whose captured answer
  is empty reveals no answer. The sentence is then handled as a question.

## Model

| member | source | states |
|---|---|---|
| QuizText.QuizSentence | quizer.js:144-148 | the line-tag match (also quizer.js:24-28); its properties are stated by QuizSentenceAfterLastTag and SentenceRoundTrip |
| QuizText.QuizSentenceAfterLastTag | quizer.js:144-148 | a line has a quiz sentence iff it has no line terminator and holds the tag; the sentence is the text after the last tag |
| QuizText.SentenceRoundTrip | quizer.js:144-148 | a terminator-free prefix, the tag, and a tag-free sentence give back exactly that sentence |
| QuizText.MatchWin | quizer.js:132 | the anchored win pattern, a chain of one matcher per piece; its properties are stated by WinMatchSound and WinMatchComplete |
| QuizText.MatchAnswerWas | quizer.js:132 | the tail ` sec! Answer was: (.*)$` captures a terminator-free answer and the whole rest of the input |
| QuizText.WinMatchSound | quizer.js:132-135 | every match of the win pattern is `name wins after whole.frac sec! Answer was: answer`, with a word name and digit fields |
| QuizText.WinMatchComplete | quizer.js:132-135 | every such announcement matches, capturing exactly its answer |
| QuizText.WinRevealsAnswer | quizer.js:131-135 | isAnswer of a win announcement is its answer |
| QuizText.MatchTimeout | quizer.js:136 | the unanchored timeout pattern; its properties are stated by MatchTimeoutLeftmost and TimeoutTextMatches |
| QuizText.MatchTimeoutLeftmost | quizer.js:136-139 | the timeout pattern matches iff its phrase occurs; the capture follows the leftmost occurrence and runs to the end or to a line terminator |
| QuizText.TimeoutTextIsNoWin | quizer.js:132 | a timeout announcement never matches the win pattern |
| QuizText.TimeoutTextMatches | quizer.js:136-139 | a timeout announcement matches at its start and captures its answer, whatever character other than a line terminator stands after "ended" |
| QuizText.TimeoutRevealsAnswer | quizer.js:131-140 | isAnswer of a timeout announcement is its answer |
| QuizText.RevealedAnswer | quizer.js:131-141 | isAnswer: the win capture if the win pattern matches, else the timeout capture, else ""; its properties are stated by WinRevealsAnswer, TimeoutRevealsAnswer and RevealedAnswerSource |
| QuizText.RevealedAnswerSource | quizer.js:131-141 | a non-empty revealed answer comes from a win announcement or from a sentence with the timeout phrase, and holds no line terminator |
| QuizText.SolveTypingQuestion | quizer.js:115-121 | solveTypingQuestion; its properties are stated by TypingQuestionSound and TypingRoundTrip |
| QuizText.TypingQuestionSound | quizer.js:115-121 | a non-empty word is only read from the whole typing prompt for that word |
| QuizText.TypingRoundTrip | quizer.js:115-121 | the typing prompt for a terminator-free word gives the word back |
| QuizText.EquationExpression | quizer.js:124-125 | the match of solveEquation; its properties are stated by EquationExpressionSound, EquationRoundTrip and ExpressionClassMembers |
| QuizText.SolveEquation | quizer.js:123-129 | solveEquation: `eval` of the matched expression, or the falsy "" when there is no match; its effect on the handler is stated by EquationResultEmittedFirst, FalsyResultNotEmitted and ThrowingEvalChangesNothing |
| QuizText.EquationExpressionSound | quizer.js:123-125 | an expression is only read from the whole equation prompt for it, and is a non-empty run of the bracket class |
| QuizText.EquationRoundTrip | quizer.js:123-125 | the equation prompt for a non-empty expression over the class gives the expression back |
| QuizText.ExpressionClassMembers | quizer.js:124 | the class is exactly the digits and `* + , - . /` |
| QuizText.PromptsAreExclusive | quizer.js:115-129 | no sentence is both a typing prompt and an equation prompt |
| QuizText.EquationPromptIsNoWin | quizer.js:123-135 | an equation prompt never matches the win pattern |
| QuizText.EquationPromptHasNoTimeout | quizer.js:123-139 | the timeout phrase occurs nowhere in an equation prompt |
| QuizText.EquationPromptRevealsNothing | quizer.js:123-141 | an equation prompt reveals no answer |
| QuizText.AnswerSentenceIsNoEquation | quizer.js:123-141 | a sentence that reveals an answer is not an equation prompt, and solving it gives the falsy "" without calling `eval` |
| AnswerTable.Insert | quizer.js:77-93 | existing rows are unchanged; the only new row is the question's, with occurrence 1; a question that breaks the CHECK (empty or starting with NUL) or is already present changes nothing |
| AnswerTable.Increment | quizer.js:95-99 | same questions; only the matching row's occurrence rises by one, and its answer is kept |
| AnswerTable.Find | quizer.js:101-110 | a row is found iff the question is present, with that row's answer |
| AnswerTable.InsertKeepsValid | quizer.js:77-81 | inserting never breaks the CHECK constraint: every stored question has a first character, and it is not NUL |
| AnswerTable.InsertKeepsWellFormed | quizer.js:79-93 | inserting a non-empty answer keeps every row's answer non-empty and its occurrence at least 1 |
| AnswerTable.IncrementKeepsWellFormed | quizer.js:95-99 | incrementing keeps every row's answer non-empty and its occurrence at least 1 |
| AnswerTable.InsertThenFind | quizer.js:77-110 | a fresh question that meets the CHECK, once inserted, is found with its answer and occurrence 1 |
| AnswerTable.InsertKeepsFirstAnswer | quizer.js:78-93 | a second insert for the same question changes nothing: the first answer stays |
| AnswerTable.IncrementKeepsAnswers | quizer.js:95-110 | an increment never changes what any lookup finds |
| QuizSession.Start | quizer.js:10-11 | start-up has no pending question, and it is not marked answered |
| QuizSession.Command | quizer.js:165 | a command is `/answ ` followed by exactly the given text |
| QuizSession.HandleSentence | quizer.js:148-185 | the handler on a quiz sentence; its branches are stated by OrphanAnswerIgnored, AnswerIsRecorded, AnswerAfterAutoAnswerIsLookedUp, LookupHit, LookupMiss and ThrowingEvalChangesNothing |
| QuizSession.HandleLine | quizer.js:143-186 | the live handler on a log line; its properties are stated by UntaggedLineIgnored, EmittedAreCommands, AtMostTwoCommands, HandleLineKeepsConsistent and HandleLineRetains |
| QuizSession.HandleLines | quizer.js:143-186 | the tail over a run of lines, stopping at a rejecting line; its properties are stated by HandleLinesKeepsConsistent, HandleLinesRetains, RejectionEndsTail and NeverThrowsRunsToEnd |
| QuizSession.PromptCommandsOf | quizer.js:162-173 | helper for the method proofs, one branch of the definition written out: the solvers emit the typed word if there is one, then the equation result if it is truthy |
| QuizSession.HandleSentenceLooksUp | quizer.js:162-185 | helper for the method proofs, one branch of the definition written out: past the answer branches the solvers' commands are emitted; a miss then leaves the table and marks the sentence pending and unanswered; a hit then emits the stored answer, increments its row, and marks the sentence pending and answered |
| QuizSession.UntaggedLineIgnored | quizer.js:144-147 | a line without the tag, or with a line terminator, changes nothing and emits nothing |
| QuizSession.OrphanAnswerIgnored | quizer.js:151-154 | an answer with no pending question changes nothing and emits nothing |
| QuizSession.RecordsTransition | quizer.js:155-161 | helper for the method proofs, one branch of the definition written out: an answer to an unanswered pending question is inserted for it, and the pending question clears |
| QuizSession.AnswerIsRecorded | quizer.js:155-161 | in a consistent session that question is new to the table; it gets a new row with occurrence 1 unless it breaks the CHECK, when the table is unchanged; the pending question clears and nothing is emitted |
| QuizSession.AnswerAfterAutoAnswerIsLookedUp | quizer.js:155-185 | an answer after an auto-answer becomes the pending question; no row is added (an answer sentence is never an equation prompt, so `eval` is not called) |
| QuizSession.LookupHit | quizer.js:174-185 | a hit emits the stored answer last, raises exactly that row's occurrence, and marks the sentence pending and answered |
| QuizSession.LookupMiss | quizer.js:174-177 | a miss leaves the table unchanged, and marks the sentence pending and unanswered |
| QuizSession.TypedWordEmittedFirst | quizer.js:162-167 | a typing prompt's word is the first command emitted |
| QuizSession.EquationResultEmittedFirst | quizer.js:168-173 | a truthy equation result is the first command emitted |
| QuizSession.FalsyResultNotEmitted | quizer.js:168-177 | a falsy result is not emitted: an unknown non-prompt question emits nothing |
| QuizSession.ThrowingEvalChangesNothing | quizer.js:126 | when eval throws, the handler rejects before the lookup and leaves the session unchanged |
| QuizSession.PromptCommandsAreCommands | quizer.js:165-171 | the solvers emit only `/answ` commands |
| QuizSession.AtMostOnePromptCommand | quizer.js:162-173 | the two solvers emit at most one command between them |
| QuizSession.EmittedAreCommands | quizer.js:143-186 | every clipboard write of a line is an `/answ` command |
| QuizSession.AtMostTwoCommands | quizer.js:162-185 | a line writes the clipboard at most twice |
| QuizSession.HandleLineKeepsConsistent | quizer.js:143-186 | one line keeps the schema and the answered flag's agreement with the table |
| QuizSession.InsertRetains | quizer.js:85-93 | inserting removes no row, rewrites no answer and lowers no occurrence |
| QuizSession.IncrementRetains | quizer.js:95-99 | incrementing removes no row, rewrites no answer and lowers no occurrence |
| QuizSession.HandleLineRetains | quizer.js:143-186 | one line removes no row, rewrites no answer and lowers no occurrence |
| QuizSession.HandleLinesRetains | quizer.js:143-186 | over any number of lines the first answer recorded for a question is the one kept |
| QuizSession.HandleLinesKeepsConsistent | quizer.js:143-186 | over any number of lines the session stays consistent |
| QuizSession.HandleLineKeepsRows | quizer.js:155-185 | one line keeps every row's answer non-empty and its occurrence at least 1 |
| QuizSession.HandleLinesKeepRows | quizer.js:143-186 | over any number of lines every row keeps a non-empty answer and an occurrence of at least 1 |
| QuizSession.RejectionEndsTail | quizer.js:123-129 | a line whose `eval` throws ends the process: the session is unchanged, nothing is emitted, and no later line is handled |
| QuizSession.NeverThrowsNeverRejects | quizer.js:168 | with an evaluator that never throws no handler rejects |
| QuizSession.NeverThrowsRunsToEnd | quizer.js:143-186 | with an evaluator that never throws the tail handles every line |
| QuizSession.ReplayLine | quizer.js:24-59 | one pass of the replay loop body, stopping on an orphan answer; its properties are stated by ReplayStopsOnlyOnOrphans and ReplayLineIsHandleLine |
| QuizSession.ReplayLines | quizer.js:23-61 | the replay loop as written; its properties are stated by ReplayAppend, ReplayStopsAtOrphan, ReplayNotExitedStoppedAtOrphan, ReplayKeepsConsistent and ReplayOfLogStartingWithAnswer |
| QuizSession.ReplayStopsOnlyOnOrphans | quizer.js:31-34 | a replay step stops iff the line is an answer sentence with no pending question |
| QuizSession.NoEquations | quizer.js:42-47 | the replay's evaluator never throws and never gives a truthy result |
| QuizSession.EvalNeverThrows | quizer.js:126 | an evaluator that never throws gives a value on every sentence |
| QuizSession.NoEquationsPromptsTypedWord | quizer.js:42-45 | without equation solving, only the typing prompt is answered |
| QuizSession.ReplayRecords | quizer.js:35-41 | helper for the method proofs, one branch of the definition written out: the replay's recording branch inserts the answer and clears the pending question |
| QuizSession.ReplayLineLooksUp | quizer.js:42-59 | helper for the method proofs, one branch of the definition written out: the replay's lookup logs the typed word, then the stored answer on a hit, and updates as the live handler does |
| QuizSession.RecordingAgrees | quizer.js:35-41 | the recording branches of the replay and the live handler agree |
| QuizSession.LookupAgrees | quizer.js:42-59 | the lookup branches of the replay and the live handler agree |
| QuizSession.LookupLogsTypedWord | quizer.js:42-59 | the replay logs the same commands as the live handler without equation solving |
| QuizSession.ReplayLineIsHandleLine | quizer.js:23-59 | a replay step that goes on leaves the same session as the live handler, and logs what it would emit without equation solving |
| QuizSession.ReplayAppend | quizer.js:23-61 | replaying `a + b` replays `b` from where `a` ended, unless `a` stopped the loop |
| QuizSession.ReplayStopsAtOrphan | quizer.js:31-34 | the first orphan answer ends the replay: later lines are never read, and `process.exit(0)` is not reached |
| QuizSession.ReplayNotExitedStoppedAtOrphan | quizer.js:23-61 | a replay that does not reach `process.exit(0)` stopped at an orphan answer |
| QuizSession.ReplayKeepsConsistent | quizer.js:23-60 | a replay keeps the session consistent |
| QuizSession.ReplayKeepsRows | quizer.js:23-60 | a replay keeps every row's answer non-empty and its occurrence at least 1 |
| QuizSession.ReplayOfLogStartingWithAnswer | quizer.js:31-34 | a log that opens with an answer sentence replays nothing and does not exit |
| QuizSession.ReplaySkippingOrphans | quizer.js:23-61 | the replay with `continue` in place of the `return` at quizer.js:33; its properties are stated by ReplaySkippingOrphansIsLive and ReplaySkippingOrphansContinues |
| QuizSession.ReplaySkippingOrphansIsLive | quizer.js:23-61 | the replay with `continue` always exits, and matches the live handler run over the same lines without equation solving, which never rejects |
| QuizSession.ReplaySkippingOrphansContinues | quizer.js:31-34 | the replay with `continue` goes past an opening answer sentence and exits |
| Quizer.Quizzer.constructor | quizer.js:10-11 | the initial fields are the start-up session over the table on disk, and that session is consistent |
| Quizer.Quizzer.InsertQuestionAnswer | quizer.js:85-93 | the rows become `Insert` of the old rows; nothing else changes |
| Quizer.Quizzer.IncrementOccurences | quizer.js:95-99 | the rows become `Increment` of the old rows; nothing else changes |
| Quizer.Quizzer.FindAnswer | quizer.js:101-110 | the result is found iff the question has a row, and is that row's answer |
| Quizer.Quizzer.SolvePrompts | quizer.js:162-173 | it reports whether eval threw; otherwise it gives the solvers' commands in order |
| Quizer.Quizzer.LookUp | quizer.js:174-185 | a miss marks the sentence pending and unanswered; a hit emits the stored answer, increments it, and marks the sentence answered |
| Quizer.Quizzer.RecordAnswer | quizer.js:155-161 | the pending question gets the answer inserted and clears |
| Quizer.Quizzer.AnswerQuestion | quizer.js:162-185 | the fields and the emitted commands are those of `HandleSentence`; it reports a rejection exactly when `eval` throws |
| Quizer.Quizzer.HandleQuizSentence | quizer.js:148-185 | the fields and the emitted commands are those of `HandleSentence`; it reports a rejection exactly when the sentence reaches the solvers and `eval` throws |
| Quizer.Quizzer.OnLine | quizer.js:143-186 | keeps `Valid()`; the fields and the clipboard writes are those of `HandleLine`, and it reports a rejection exactly when `Rejects` holds |
| Quizer.Quizzer.Replay | quizer.js:20-62 | keeps `Valid()`; the fields, the logged commands and whether `process.exit(0)` is reached are those of `ReplayLines` |

## Left out

- Arithmetic of `eval` (quizer.js:126): it is a caller-supplied function of
  the expression, and its result is modelled only by its text and
  truthiness. The model does not evaluate arithmetic.
- File tailing, reading the replay file, the clipboard, the beep and the
  `fancy-log` output: the model reduces them to the sequence of `/answ`
  commands. The replay's other log lines ("Question: …", "Answer unknown",
  "Answer to … was: …") are not modelled.
- Splitting the replay file on `/\r{0,1}\n/` (quizer.js:22): `Replay`
  takes the lines already split.
- Opening the database and `process.exit(1)` on failure (quizer.js:14-18,
  :67-73). `process.exit(0)` is the `exited` flag of the outcome.
- SQLite errors other than the two constraints: for example, disk errors,
  or a failed SELECT rejecting the handler (quizer.js:104-106). Also the
  asynchronous interleaving of the un-awaited INSERT and UPDATE with later
  lookups: statements are modelled as taking effect in program order, and
  lines are handled one at a time.
- Node runtimes before version 15, where an unhandled rejection only
  prints a warning and the tail goes on: the model assumes the default
  mode of later versions, in which the process ends.
- The replay and the live tail running at the same time on the same
  variables: in the source, the tail is set up whether or not a replay
  runs.
- Quizer.Quizzer.Replay: the method does not copy the source's loop body
  statement by statement. On every line that does not stop the loop, it
  calls `OnLine` with `NoEquations`. Its contract is still stated against
  `ReplayLines`, which follows the source's loop body (quizer.js:23-60).
  `ReplayLineIsHandleLine` proves that body and the handler make the same
  transition.
- AnswerTable.Increment: does not model the 64-bit limit of SQLite
  INTEGER, because the occurrence is an unbounded `int`.
- Strings are sequences of Dafny characters, not UTF-16 code units, so a
  character outside the Basic Multilingual Plane counts once rather than
  twice. The patterns match the same, because none of them counts
  characters.

## Findings

| source | as written | input that shows it | evidently intended | confidence | as-written member | corrected member |
|---|---|---|---|---|---|---|
| quizer.js:31-34 | the replay loop meets an answer sentence with no pending question and `return`s from the whole replay, so the rest of the file is never read and `process.exit(0)` is not reached | a replay file whose first quiz line is `[CHAT] [Quiz] Steve wins after 1.5 sec! Answer was: x` | `continue`: skip that line, as the comment "Ignore if we start the program and a question was asked before" and the live handler's `return` from one line do | medium, not executed | QuizSession.ReplayOfLogStartingWithAnswer | QuizSession.ReplaySkippingOrphansIsLive |
