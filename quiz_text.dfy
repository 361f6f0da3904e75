/**
 * The regular expressions of quizer.js, each written out as a recogniser
 * over strings.
 *
 * None of the patterns carry a flag, so in JavaScript `^` and `$` anchor at
 * the ends of the whole input, `.` matches every character except the four
 * line terminators, `\w` is `[A-Za-z0-9_]` and `\d` is `[0-9]`.
 */
module QuizText {
  import opened Wrappers

  // ---------------------------------------------------------------------
  // Character classes
  // ---------------------------------------------------------------------

  /** The characters JavaScript's `.` does not match. */
  predicate IsLineTerminator(c: char) {
    c == '\n' || c == '\r' || c == '\U{2028}' || c == '\U{2029}'
  }

  /** The character classes the patterns use. */
  datatype CharClass =
    | Word        // \w
    | Digit       // \d
    | Dot         // .
    | Expression  // [0-9*+-/] of the equation pattern

  predicate InClass(c: char, k: CharClass) {
    match k
    case Word => 'a' <= c <= 'z' || 'A' <= c <= 'Z' || '0' <= c <= '9' || c == '_'
    case Digit => '0' <= c <= '9'
    case Dot => !IsLineTerminator(c)
    // `+-/` inside the brackets is the range from '+' to '/'
    case Expression => '0' <= c <= '9' || c == '*' || '+' <= c <= '/'
  }

  predicate AllIn(s: string, k: CharClass) {
    forall i :: 0 <= i < |s| ==> InClass(s[i], k)
  }

  /** The length of the longest prefix of `s` inside class `k`. */
  function Span(s: string, k: CharClass): (n: nat)
    ensures n <= |s|
    ensures AllIn(s[..n], k)
    ensures n < |s| ==> !InClass(s[n], k)
  {
    if s == [] || !InClass(s[0], k) then 0
    else
      var n := 1 + Span(s[1..], k);
      assert s[..n] == [s[0]] + s[1..][..n - 1];
      n
  }

  predicate StartsWith(s: string, p: string) {
    |p| <= |s| && s[..|p|] == p
  }

  predicate EndsWith(s: string, p: string) {
    |p| <= |s| && s[|s| - |p|..] == p
  }

  /** A string is its prefix followed by its suffix. */
  lemma SplitAt(s: string, n: nat)
    requires n <= |s|
    ensures s == s[..n] + s[n..]
  {
  }

  /** A string is its prefix, the character at `n`, and the rest. */
  lemma SplitAround(s: string, n: nat)
    requires n < |s|
    ensures s == s[..n] + ([s[n]] + s[n + 1..])
  {
    assert s[n..] == [s[n]] + s[n + 1..];
    SplitAt(s, n);
  }

  /** A string is its prefix, its middle and its suffix. */
  lemma SplitThree(s: string, i: nat, j: nat)
    requires i <= j <= |s|
    ensures s == s[..i] + s[i..j] + s[j..]
  {
    assert s[..i] + s[i..j] == s[..j];
    SplitAt(s, j);
  }

  /** A run of class `k` that is followed by a character outside `k` (or by nothing) is one whole span. */
  lemma {:induction false} SpanOfRun(x: string, y: string, k: CharClass)
    requires AllIn(x, k)
    requires y == [] || !InClass(y[0], k)
    ensures Span(x + y, k) == |x|
  {
    if x != [] {
      assert (x + y)[1..] == x[1..] + y;
      SpanOfRun(x[1..], y, k);
    }
  }

  // ---------------------------------------------------------------------
  // The line tag: /^.*\[CHAT\] \[Quiz\] (.*$)/   (quizer.js:24 and :144)
  // ---------------------------------------------------------------------

  const QuizTag := "[CHAT] [Quiz] "

  predicate TagAt(line: string, p: int) {
    0 <= p && p + |QuizTag| <= |line| && line[p..p + |QuizTag|] == QuizTag
  }

  /** The last position below `p` where the tag starts. */
  function LastTagBefore(line: string, p: nat): (r: Option<nat>)
    requires p <= |line|
    ensures r.Some? ==> r.value < p && TagAt(line, r.value)
    ensures r.Some? ==> forall q :: r.value < q < p ==> !TagAt(line, q)
    ensures r.None? ==> forall q :: 0 <= q < p ==> !TagAt(line, q)
  {
    if p == 0 then None
    else if TagAt(line, p - 1) then Some(p - 1)
    else LastTagBefore(line, p - 1)
  }

  /**
   * The quiz sentence of a log line. `^.*` and `(.*$)` admit no line
   * terminator anywhere in the line, and the greedy `.*` makes the match
   * start at the last tag.
   */
  function QuizSentence(line: string): Option<string> {
    if !AllIn(line, Dot) then None
    else
      match LastTagBefore(line, |line|)
      case None => None
      case Some(p) => Some(line[p + |QuizTag|..])
  }

  /**
   * A line has a quiz sentence exactly when it is terminator-free and
   * holds the tag; the sentence is what follows the last tag.
   */
  lemma QuizSentenceAfterLastTag(line: string)
    ensures QuizSentence(line).Some? <==> AllIn(line, Dot) && exists p :: TagAt(line, p)
    ensures QuizSentence(line).Some? ==>
              exists p :: TagAt(line, p) && QuizSentence(line).value == line[p + |QuizTag|..]
                          && forall q :: p < q ==> !TagAt(line, q)
  {
  }

  /** A tag occurrence that is not inside the tag itself lies wholly in the sentence after it. */
  lemma TagAfterTag(prefix: string, sentence: string, q: int)
    requires |prefix| < q
    requires TagAt(prefix + QuizTag + sentence, q)
    ensures TagAt(sentence, q - |prefix| - |QuizTag|)
  {
    var line := prefix + QuizTag + sentence;
    var k := q - |prefix|;
    // the tag's only other '[' is at offset 7, and "[Quiz] " is not "[CHAT] "
    var found := line[q..q + |QuizTag|];
    assert found == QuizTag && found[0] == line[q] && found[1] == line[q + 1];
    assert line[q..q + |QuizTag|] == sentence[k - |QuizTag|..k];
  }

  /** A tagged line gives back the sentence after the tag when that sentence holds no tag of its own. */
  lemma SentenceRoundTrip(prefix: string, sentence: string)
    requires AllIn(prefix, Dot) && AllIn(sentence, Dot)
    requires forall q :: !TagAt(sentence, q)
    ensures QuizSentence(prefix + QuizTag + sentence) == Some(sentence)
  {
    var line := prefix + QuizTag + sentence;
    assert line[|prefix|..|prefix| + |QuizTag|] == QuizTag;
    assert TagAt(line, |prefix|);
    forall i | 0 <= i < |line| ensures InClass(line[i], Dot) {
      if i < |prefix| {
      } else if i < |prefix| + |QuizTag| {
        assert line[i] == QuizTag[i - |prefix|];
      } else {
        assert line[i] == sentence[i - |prefix| - |QuizTag|];
      }
    }
    var p :| TagAt(line, p) && QuizSentence(line).value == line[p + |QuizTag|..]
             && forall q :: p < q ==> !TagAt(line, q);
    if p > |prefix| {
      TagAfterTag(prefix, sentence, p);
    }
    assert line[p + |QuizTag|..] == sentence;
  }

  // ---------------------------------------------------------------------
  // isAnswer (quizer.js:131-141)
  // ---------------------------------------------------------------------

  // ^\w+ wins after \d+\.\d+ sec! Answer was: (.*)$
  const WinsAfter := " wins after "
  const SecAnswerWas := " sec! Answer was: "

  /** The win announcement for a player, a time `whole.frac` and an answer. */
  function WinText(name: string, whole: string, frac: string, answer: string): string {
    name + (WinsAfter + (whole + ("." + (frac + (SecAnswerWas + answer)))))
  }

  predicate WinFields(name: string, whole: string, frac: string) {
    |name| > 0 && AllIn(name, Word) && |whole| > 0 && AllIn(whole, Digit) && |frac| > 0 && AllIn(frac, Digit)
  }

  /**
   * The win pattern, matched left to right, one stage per part of the
   * pattern. It is deterministic: each run is followed by a character
   * outside its class, so no backtracking into a shorter run can succeed.
   */
  function MatchWin(s: string): Option<string> {
    var n := Span(s, Word);
    if n == 0 then None else MatchWinsAfter(s[n..])
  }

  /** ` wins after \d+\.\d+ sec! Answer was: (.*)$` */
  function MatchWinsAfter(t: string): Option<string> {
    if StartsWith(t, WinsAfter) then MatchTime(t[|WinsAfter|..]) else None
  }

  /** `\d+\.\d+ sec! Answer was: (.*)$` */
  function MatchTime(t: string): Option<string> {
    var w := Span(t, Digit);
    if w == 0 || w == |t| || t[w] != '.' then None else MatchFraction(t[w + 1..])
  }

  /** `\d+ sec! Answer was: (.*)$` */
  function MatchFraction(t: string): Option<string> {
    var f := Span(t, Digit);
    if f == 0 then None else MatchAnswerWas(t[f..])
  }

  /** ` sec! Answer was: (.*)$` */
  function MatchAnswerWas(t: string): (r: Option<string>)
    ensures r.Some? ==> AllIn(r.value, Dot) && t == SecAnswerWas + r.value
  {
    if !StartsWith(t, SecAnswerWas) then None
    else
      var a := t[|SecAnswerWas|..];
      assert t == SecAnswerWas + a;
      if AllIn(a, Dot) then Some(a) else None
  }

  /** Every match of the win pattern is a win announcement with well-formed fields. */
  lemma WinMatchSound(s: string)
    requires MatchWin(s).Some?
    ensures exists name, whole, frac :: WinFields(name, whole, frac)
                                         && s == WinText(name, whole, frac, MatchWin(s).value)
  {
    var name, whole, frac := WinMatchParts(s);
  }

  /** The fields of a string the win pattern matches. */
  lemma WinMatchParts(s: string) returns (name: string, whole: string, frac: string)
    requires MatchWin(s).Some?
    ensures WinFields(name, whole, frac) && s == WinText(name, whole, frac, MatchWin(s).value)
  {
    var n := Span(s, Word);
    name := s[..n];
    whole, frac := WinsAfterSound(s[n..]);
    SplitAt(s, n);
  }

  lemma WinsAfterSound(t: string) returns (whole: string, frac: string)
    requires MatchWinsAfter(t).Some?
    ensures |whole| > 0 && AllIn(whole, Digit) && |frac| > 0 && AllIn(frac, Digit)
    ensures t == WinsAfter + (whole + ("." + (frac + (SecAnswerWas + MatchWinsAfter(t).value))))
  {
    whole, frac := TimeSound(t[|WinsAfter|..]);
    SplitAt(t, |WinsAfter|);
  }

  lemma TimeSound(t: string) returns (whole: string, frac: string)
    requires MatchTime(t).Some?
    ensures |whole| > 0 && AllIn(whole, Digit) && |frac| > 0 && AllIn(frac, Digit)
    ensures t == whole + ("." + (frac + (SecAnswerWas + MatchTime(t).value)))
  {
    var w := Span(t, Digit);
    whole := t[..w];
    frac := FractionSound(t[w + 1..]);
    SplitAround(t, w);
  }

  lemma FractionSound(t: string) returns (frac: string)
    requires MatchFraction(t).Some?
    ensures |frac| > 0 && AllIn(frac, Digit)
    ensures t == frac + (SecAnswerWas + MatchFraction(t).value)
  {
    var f := Span(t, Digit);
    frac := t[..f];
    SplitAt(t, f);
  }

  /** Every win announcement with well-formed fields matches, capturing its answer. */
  lemma WinMatchComplete(name: string, whole: string, frac: string, answer: string)
    requires WinFields(name, whole, frac) && AllIn(answer, Dot)
    ensures MatchWin(WinText(name, whole, frac, answer)) == Some(answer)
  {
    var t0 := WinsAfter + (whole + ("." + (frac + (SecAnswerWas + answer))));
    SpanOfRun(name, t0, Word);
    assert (name + t0)[|name|..] == t0;
    WinsAfterComplete(whole, frac, answer);
  }

  lemma WinsAfterComplete(whole: string, frac: string, answer: string)
    requires |whole| > 0 && AllIn(whole, Digit) && |frac| > 0 && AllIn(frac, Digit) && AllIn(answer, Dot)
    ensures MatchWinsAfter(WinsAfter + (whole + ("." + (frac + (SecAnswerWas + answer))))) == Some(answer)
  {
    var t1 := whole + ("." + (frac + (SecAnswerWas + answer)));
    var t0 := WinsAfter + t1;
    assert t0[..|WinsAfter|] == WinsAfter && t0[|WinsAfter|..] == t1;
    TimeComplete(whole, frac, answer);
  }

  lemma TimeComplete(whole: string, frac: string, answer: string)
    requires |whole| > 0 && AllIn(whole, Digit) && |frac| > 0 && AllIn(frac, Digit) && AllIn(answer, Dot)
    ensures MatchTime(whole + ("." + (frac + (SecAnswerWas + answer)))) == Some(answer)
  {
    var t2 := frac + (SecAnswerWas + answer);
    var t1 := whole + ("." + t2);
    SpanOfRun(whole, "." + t2, Digit);
    assert t1[|whole|] == '.' && t1[|whole| + 1..] == t2;
    FractionComplete(frac, answer);
  }

  lemma FractionComplete(frac: string, answer: string)
    requires |frac| > 0 && AllIn(frac, Digit) && AllIn(answer, Dot)
    ensures MatchFraction(frac + (SecAnswerWas + answer)) == Some(answer)
  {
    var t3 := SecAnswerWas + answer;
    SpanOfRun(frac, t3, Digit);
    assert (frac + t3)[|frac|..] == t3;
    assert t3[..|SecAnswerWas|] == SecAnswerWas && t3[|SecAnswerWas|..] == answer;
  }

  // Time for answer ended. Correct answer was: (.*)      -- unanchored; the '.' after "ended" is a wildcard
  const TimeEnded := "Time for answer ended"
  const CorrectWas := " Correct answer was: "
  const TimeoutLength := |TimeEnded| + 1 + |CorrectWas|

  /** The timeout pattern's fixed part matches at position `i`. */
  predicate TimeoutAt(s: string, i: int) {
    0 <= i && i + TimeoutLength <= |s|
    && s[i..i + |TimeEnded|] == TimeEnded
    && InClass(s[i + |TimeEnded|], Dot)
    && s[i + |TimeEnded| + 1..i + TimeoutLength] == CorrectWas
  }

  /** The first position at or after `i` where the timeout pattern matches. */
  function FirstTimeoutFrom(s: string, i: nat): (r: Option<nat>)
    requires i <= |s|
    ensures r.Some? ==> i <= r.value && TimeoutAt(s, r.value)
    ensures r.Some? ==> forall j :: i <= j < r.value ==> !TimeoutAt(s, j)
    ensures r.None? ==> forall j :: i <= j ==> !TimeoutAt(s, j)
    decreases |s| - i
  {
    if i == |s| then None
    else if TimeoutAt(s, i) then Some(i)
    else FirstTimeoutFrom(s, i + 1)
  }

  /**
   * The unanchored timeout pattern: the leftmost match, capturing the
   * longest terminator-free run after it.
   */
  function MatchTimeout(s: string): Option<string> {
    match FirstTimeoutFrom(s, 0)
    case None => None
    case Some(i) =>
      var t := s[i + TimeoutLength..];
      Some(t[..Span(t, Dot)])
  }

  /**
   * The timeout pattern matches exactly when the phrase occurs; the
   * capture starts after its leftmost occurrence and runs to the end of
   * the sentence or to the first line terminator.
   */
  lemma MatchTimeoutLeftmost(s: string)
    ensures MatchTimeout(s).Some? <==> exists i :: TimeoutAt(s, i)
    ensures MatchTimeout(s).Some? ==>
              var r := MatchTimeout(s).value;
              exists i :: TimeoutAt(s, i) && (forall j :: 0 <= j < i ==> !TimeoutAt(s, j))
                          && StartsWith(s[i + TimeoutLength..], r)
                          && AllIn(r, Dot)
                          && (i + TimeoutLength + |r| == |s| || IsLineTerminator(s[i + TimeoutLength + |r|]))
  {
    match FirstTimeoutFrom(s, 0)
    case None =>
    case Some(i) =>
      var t := s[i + TimeoutLength..];
      var n := Span(t, Dot);
      assert MatchTimeout(s).value == t[..n];
      assert StartsWith(t, t[..n]);
      assert i + TimeoutLength + n == |s| || IsLineTerminator(t[n]);
  }

  /**
   * The answer revealed by a quiz sentence, or "" when it reveals none.
   * The win pattern is tried first; a win that captures "" still returns "".
   */
  function RevealedAnswer(s: string): string {
    match MatchWin(s)
    case Some(a) => a
    case None =>
      match MatchTimeout(s)
      case Some(a) => a
      case None => ""
  }

  /** A win announcement reveals exactly its answer, whatever that answer contains. */
  lemma WinRevealsAnswer(name: string, whole: string, frac: string, answer: string)
    requires WinFields(name, whole, frac) && AllIn(answer, Dot)
    ensures RevealedAnswer(WinText(name, whole, frac, answer)) == answer
  {
    WinMatchComplete(name, whole, frac, answer);
  }

  /** The timeout announcement: its wildcard character is normally '.'. */
  function TimeoutText(c: char, answer: string): string {
    TimeEnded + ([c] + (CorrectWas + answer))
  }

  /** A timeout announcement does not match the win pattern. */
  lemma TimeoutTextIsNoWin(c: char, answer: string)
    ensures MatchWin(TimeoutText(c, answer)) == None
  {
    var s := TimeoutText(c, answer);
    assert s[..|TimeEnded|] == TimeEnded;
    assert s[..6] == TimeEnded[..6] == "Time f";
    SplitAt(s, 4);
    SpanOfRun(s[..4], s[4..], Word);
    assert s[4..][1] != WinsAfter[1];
  }

  /** A timeout announcement matches the timeout pattern at its start, capturing its answer. */
  lemma TimeoutTextMatches(c: char, answer: string)
    requires InClass(c, Dot) && AllIn(answer, Dot)
    ensures MatchTimeout(TimeoutText(c, answer)) == Some(answer)
  {
    var s := TimeoutText(c, answer);
    var t := CorrectWas + answer;
    assert s[..|TimeEnded|] == TimeEnded;
    assert s[|TimeEnded|] == c;
    assert s[|TimeEnded| + 1..] == t;
    assert s[|TimeEnded| + 1..TimeoutLength] == t[..|CorrectWas|] == CorrectWas;
    assert TimeoutAt(s, 0);
    assert s[TimeoutLength..] == answer + [];
    SpanOfRun(answer, [], Dot);
  }

  /** A timeout announcement reveals exactly its answer. */
  lemma TimeoutRevealsAnswer(c: char, answer: string)
    requires InClass(c, Dot) && AllIn(answer, Dot)
    ensures RevealedAnswer(TimeoutText(c, answer)) == answer
  {
    TimeoutTextIsNoWin(c, answer);
    TimeoutTextMatches(c, answer);
  }

  /** A sentence reveals an answer only if it is a win announcement or holds the timeout phrase; the answer is terminator-free. */
  lemma RevealedAnswerSource(s: string)
    requires RevealedAnswer(s) != ""
    ensures (exists name, whole, frac :: WinFields(name, whole, frac)
                                         && s == WinText(name, whole, frac, RevealedAnswer(s)))
            || (exists i :: TimeoutAt(s, i))
    ensures AllIn(RevealedAnswer(s), Dot)
  {
    if MatchWin(s).Some? {
      WinMatchSound(s);
    } else {
      MatchTimeoutLeftmost(s);
    }
  }

  // ---------------------------------------------------------------------
  // solveTypingQuestion (quizer.js:115-121)
  // ---------------------------------------------------------------------

  // ^Type \"(.*)\" first to win! Use \/answer to answer the question!$
  const TypePrefix := "Type \""
  const TypeSuffix := "\" first to win! Use /answer to answer the question!"

  function TypingPrompt(word: string): string {
    TypePrefix + word + TypeSuffix
  }

  /** The word a typing prompt asks for, or "" when the sentence is not one. */
  function SolveTypingQuestion(s: string): string {
    if |s| >= |TypePrefix| + |TypeSuffix| && StartsWith(s, TypePrefix) && EndsWith(s, TypeSuffix)
       && AllIn(s[|TypePrefix|..|s| - |TypeSuffix|], Dot)
    then s[|TypePrefix|..|s| - |TypeSuffix|]
    else ""
  }

  /** Soundness: a word is only ever read from a whole typing prompt for that word. */
  lemma TypingQuestionSound(s: string)
    ensures var word := SolveTypingQuestion(s);
            word != "" ==> s == TypingPrompt(word) && AllIn(word, Dot)
  {
    var word := SolveTypingQuestion(s);
    if word != "" {
      SplitAt(s, |TypePrefix|);
      SplitAt(s[|TypePrefix|..], |word|);
      assert s[|TypePrefix|..][|word|..] == s[|s| - |TypeSuffix|..];
    }
  }

  /** Round trip: the prompt for a terminator-free word gives that word back. */
  lemma TypingRoundTrip(word: string)
    requires AllIn(word, Dot)
    ensures SolveTypingQuestion(TypingPrompt(word)) == word
  {
    var s := TypingPrompt(word);
    assert s[..|TypePrefix|] == TypePrefix;
    assert s[|s| - |TypeSuffix|..] == TypeSuffix;
    assert s[|TypePrefix|..|s| - |TypeSuffix|] == word;
  }

  // ---------------------------------------------------------------------
  // The matcher of solveEquation (quizer.js:123-129)
  // ---------------------------------------------------------------------

  // ^Solve ([0-9*+-/]+) first to get a reward! Use \/answer to answer the question!$
  const SolvePrefix := "Solve "
  const SolveReward := " first to get a reward!"
  const SolveSuffix := SolveReward + " Use /answer to answer the question!"

  function EquationPrompt(expression: string): string {
    SolvePrefix + expression + SolveSuffix
  }

  /** The expression an equation prompt carries, when the sentence is one. */
  function EquationExpression(s: string): Option<string> {
    if |s| > |SolvePrefix| + |SolveSuffix| && StartsWith(s, SolvePrefix) && EndsWith(s, SolveSuffix)
       && AllIn(s[|SolvePrefix|..|s| - |SolveSuffix|], Expression)
    then Some(s[|SolvePrefix|..|s| - |SolveSuffix|])
    else None
  }

  /** Soundness: an expression is only ever read from a whole equation prompt for it. */
  lemma EquationExpressionSound(s: string)
    ensures var e := EquationExpression(s);
            e.Some? ==> s == EquationPrompt(e.value) && |e.value| > 0 && AllIn(e.value, Expression)
  {
    if EquationExpression(s).Some? {
      SplitThree(s, |SolvePrefix|, |s| - |SolveSuffix|);
    }
  }

  /** Round trip: the prompt for a non-empty expression over the class gives that expression back. */
  lemma EquationRoundTrip(expression: string)
    requires |expression| > 0 && AllIn(expression, Expression)
    ensures EquationExpression(EquationPrompt(expression)) == Some(expression)
  {
    var s := EquationPrompt(expression);
    assert s[..|SolvePrefix|] == SolvePrefix;
    assert s[|s| - |SolveSuffix|..] == SolveSuffix;
    assert s[|SolvePrefix|..|s| - |SolveSuffix|] == expression;
  }

  /** The bracket class accepts the digits and `* + , - . /`, and nothing else. */
  lemma ExpressionClassMembers(c: char)
    ensures InClass(c, Expression) <==> c in "0123456789*+,-./"
  {
    if '+' <= c <= '/' {
      assert c == '+' || c == ',' || c == '-' || c == '.' || c == '/';
    }
  }

  /** No sentence is both a typing prompt and an equation prompt. */
  lemma PromptsAreExclusive(s: string)
    requires SolveTypingQuestion(s) != ""
    ensures EquationExpression(s).None?
  {
    assert s[0] == 'T';
  }

  /** The win pattern fails on an equation prompt: its word run "Solve" is followed by " " and a class character, not " wins after ". */
  lemma EquationPromptIsNoWin(expression: string)
    requires |expression| > 0 && AllIn(expression, Expression)
    ensures MatchWin(EquationPrompt(expression)) == None
  {
    var s := EquationPrompt(expression);
    assert s[..|SolvePrefix|] == SolvePrefix;
    assert s[5] == ' ' && s[6] == expression[0];
    SplitAt(s, 5);
    SpanOfRun(s[..5], s[5..], Word);
    assert s[5..][1] != WinsAfter[1];
  }

  /** The part of the equation prompt's suffix where the timeout phrase could start holds no 'T'. */
  lemma SolveSuffixHeadLacksT(j: int)
    requires 0 <= j < |SolveReward|
    ensures SolveSuffix[j] != 'T'
  {
    assert SolveSuffix[j] == SolveReward[j];
  }

  /**
   * The timeout phrase cannot occur in an equation prompt: it starts with
   * 'T', which neither the prefix nor the expression holds, and it is too
   * long to start late enough in the suffix to reach a 'T' there.
   */
  lemma EquationPromptHasNoTimeout(expression: string)
    requires AllIn(expression, Expression)
    ensures forall i :: !TimeoutAt(EquationPrompt(expression), i)
  {
    var s := EquationPrompt(expression);
    forall i | TimeoutAt(s, i)
      ensures false
    {
      assert s[i..i + |TimeEnded|][0] == 'T';
      if i >= |SolvePrefix| + |expression| {
        var j := i - |SolvePrefix| - |expression|;
        assert s[i] == SolveSuffix[j];
        SolveSuffixHeadLacksT(j);
      }
    }
  }

  /** No equation prompt reveals an answer: it is neither a win announcement nor holds the timeout phrase. */
  lemma EquationPromptRevealsNothing(expression: string)
    requires |expression| > 0 && AllIn(expression, Expression)
    ensures RevealedAnswer(EquationPrompt(expression)) == ""
  {
    EquationPromptIsNoWin(expression);
    EquationPromptHasNoTimeout(expression);
    MatchTimeoutLeftmost(EquationPrompt(expression));
  }

  /** What `eval` of a matched expression gives: a thrown error, or a value with its truthiness. */
  datatype EvalResult = Thrown | Value(text: string, truthy: bool)

  /**
   * solveEquation: the matched expression handed to `eval`, or the falsy
   * "" when the sentence is not an equation prompt.
   */
  function SolveEquation(s: string, eval: string -> EvalResult): EvalResult {
    match EquationExpression(s)
    case None => Value("", false)
    case Some(e) => eval(e)
  }

  /** A sentence that reveals an answer is never an equation prompt, so solving it evaluates nothing. */
  lemma AnswerSentenceIsNoEquation(s: string, eval: string -> EvalResult)
    requires RevealedAnswer(s) != ""
    ensures EquationExpression(s) == None
    ensures SolveEquation(s, eval) == Value("", false)
  {
    if EquationExpression(s).Some? {
      EquationExpressionSound(s);
      EquationPromptRevealsNothing(EquationExpression(s).value);
    }
  }
}
