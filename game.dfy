/**
 * The game session of the App component as a state machine over values.
 * `Session` holds the component's state fields; each handler is a function
 * from the old session to the new one; the `disabled` and visibility
 * conditions of the rendered controls are the guards that say when a
 * handler can fire.
 */
module RiddleGame {
  import opened Wrappers
  import opened Text

  /** What the riddle service returns: the display text and the answer. */
  datatype Riddle = Riddle(text: string, answer: string)

  /** The hue of the feedback line's text colour class (`text-red-500` is Red). */
  datatype Colour = NoColour | Yellow | Green | Orange | Red | Blue

  datatype Feedback = Feedback(message: string, colour: Colour)

  /** How the request for a riddle ended: a riddle, or a transport, status
      or decoding failure. */
  datatype FetchOutcome = Succeeded(riddle: Riddle) | Failed

  /** The state fields of the App component. */
  datatype Session = Session(
    riddle: Option<Riddle>,
    isLoading: bool,
    userAnswer: string,
    feedback: Feedback,
    score: nat,
    isAnswered: bool,
    guessCount: nat,
    hint: string)

  const MaxGuesses: nat := 3

  const NoFeedback := Feedback("", NoColour)
  const EmptyAnswerWarning := Feedback("Please enter an answer!", Yellow)
  const CorrectFeedback := Feedback("Correct!", Green)
  const ExhaustedFeedback := Feedback("You have used all your guesses.", Red)
  const FetchErrorFeedback := Feedback("Oops! Could not fetch a riddle.", Red)

  /** The initial values of the state hooks. */
  const Initial := Session(None, true, "", NoFeedback, 0, false, 0, "")

  // ---------------------------------------------------------------
  // Comparing a guess, and the texts shown to the player
  // ---------------------------------------------------------------

  /** The guess is trimmed and lower-cased; the answer is only lower-cased. */
  predicate IsCorrect(guess: string, answer: string) {
    Lower(Trim(guess)) == Lower(answer)
  }

  function GuessesLeftMessage(left: nat): string {
    "Not quite! You have " + Decimal(left) + " guesses left."
  }

  /** Feedback after a wrong guess that brings the count to `newGuessCount`. */
  function WrongGuessFeedback(newGuessCount: nat): Feedback {
    if newGuessCount >= MaxGuesses then ExhaustedFeedback
    else Feedback(GuessesLeftMessage(MaxGuesses - newGuessCount), Orange)
  }

  /** The hint: the number of pieces `split(" ")` cuts the answer into, and
      its first character upper-cased. */
  function HintText(answer: string): (h: string)
    requires answer != []
    ensures h == "Hint: It's " + Decimal(Count(answer, ' ') + 1)
                 + " word(s) and starts with \"" + [UpperChar(answer[0])] + "\"."
  {
    SplitLength(answer, ' ');
    "Hint: It's " + Decimal(|Split(answer, ' ')|)
      + " word(s) and starts with \"" + [UpperChar(answer[0])] + "\"."
  }

  function RevealFeedback(answer: string): Feedback {
    Feedback("The answer is: " + answer, Blue)
  }

  // ---------------------------------------------------------------
  // Guards: when a control is shown and enabled
  // ---------------------------------------------------------------

  /** The answer input is disabled once answered, while loading and after
      the last guess. */
  predicate InputEnabled(s: Session) {
    !(s.isAnswered || s.isLoading || s.guessCount >= MaxGuesses)
  }

  /** The Submit button is shown while unanswered and disabled while
      loading and after the last guess. */
  predicate SubmitEnabled(s: Session) {
    !s.isAnswered && !(s.isLoading || s.guessCount >= MaxGuesses)
  }

  /** The hint button is shown while unanswered and disabled once a hint is
      shown and while loading. */
  predicate HintEnabled(s: Session) {
    !s.isAnswered && !(s.hint != [] || s.isLoading)
  }

  /** The Show Answer button is shown after the last guess while unanswered. */
  predicate RevealEnabled(s: Session) {
    s.guessCount >= MaxGuesses && !s.isAnswered
  }

  /** The Next Riddle button is shown once the round is answered. */
  predicate NextEnabled(s: Session) {
    s.isAnswered
  }

  // ---------------------------------------------------------------
  // Transitions, one per handler
  // ---------------------------------------------------------------

  /** The round-scoped fields as a fetch leaves them before its request. */
  predicate Cleared(s: Session) {
    !s.isAnswered && s.userAnswer == [] && s.guessCount == 0 && s.hint == []
    && s.feedback == NoFeedback
  }

  /** The synchronous start of `fetchRiddle`: loading, every round-scoped field reset. */
  function Reset(s: Session): Session {
    s.(isLoading := true, feedback := NoFeedback, isAnswered := false,
       userAnswer := [], guessCount := 0, hint := [])
  }

  /** The end of `fetchRiddle`: store the riddle, or report the failure. */
  function Settled(s: Session, outcome: FetchOutcome): Session {
    match outcome
    case Succeeded(data) => s.(riddle := Some(data), isLoading := false)
    case Failed => s.(feedback := FetchErrorFeedback, isLoading := false)
  }

  /** The input's change handler. */
  function Typed(s: Session, text: string): Session {
    s.(userAnswer := text)
  }

  /** `handleSubmit`. With no riddle loaded, a non-blank guess makes the
      handler read `answer` of `null`, which throws before any setter has
      run: the state stays as it was. */
  function Submitted(s: Session): Session {
    if Trim(s.userAnswer) == [] then
      s.(feedback := EmptyAnswerWarning)
    else if s.riddle.None? then
      s
    else if IsCorrect(s.userAnswer, s.riddle.value.answer) then
      s.(score := s.score + 1, feedback := CorrectFeedback, isAnswered := true)
    else
      Missed(s)
  }

  /** The wrong-guess branch of `handleSubmit`: one more guess used, the
      input cleared, and the feedback for the new count. */
  function Missed(s: Session): Session {
    var newGuessCount := s.guessCount + 1;
    s.(guessCount := newGuessCount, userAnswer := [],
       feedback := WrongGuessFeedback(newGuessCount))
  }

  /** `handleHint`: only when a riddle with a non-empty answer is loaded. */
  function Hinted(s: Session): Session {
    if s.riddle.Some? && s.riddle.value.answer != [] then
      s.(hint := HintText(s.riddle.value.answer))
    else
      s
  }

  /** `handleShowAnswer`. With no riddle loaded, `setIsAnswered(true)` has
      already run when reading `answer` of `null` throws, so only that update
      survives; `RevealAfterLastGuess` shows that no reachable session takes
      that branch. */
  function Revealed(s: Session): Session {
    if s.riddle.None? then s.(isAnswered := true)
    else s.(isAnswered := true, feedback := RevealFeedback(s.riddle.value.answer))
  }

  /** `handleKeyPress`: Enter submits while unanswered; other keys change nothing. */
  function KeyPressed(s: Session, key: string): Session {
    if key == "Enter" && !s.isAnswered then Submitted(s) else s
  }

  // ---------------------------------------------------------------
  // Actions and traces
  // ---------------------------------------------------------------

  datatype Action =
    | Type(text: string)
    | Submit
    | KeyPress(key: string)
    | RequestHint
    | ShowAnswer
    | NextRiddle
    | FetchSettled(outcome: FetchOutcome)

  /** An action can happen when its control is shown and enabled. */
  predicate Enabled(s: Session, a: Action) {
    match a
    case Type(_) => InputEnabled(s)
    case Submit => SubmitEnabled(s)
    case KeyPress(key) => InputEnabled(s)
    case RequestHint => HintEnabled(s)
    case ShowAnswer => RevealEnabled(s)
    case NextRiddle => NextEnabled(s)
    case FetchSettled(_) => s.isLoading
  }

  function Step(s: Session, a: Action): Session
    requires Enabled(s, a)
  {
    match a
    case Type(text) => Typed(s, text)
    case Submit => Submitted(s)
    case KeyPress(key) => KeyPressed(s, key)
    case RequestHint => Hinted(s)
    case ShowAnswer => Revealed(s)
    case NextRiddle => Reset(s)
    case FetchSettled(outcome) => Settled(s, outcome)
  }

  predicate EnabledRun(s: Session, t: seq<Action>)
    decreases |t|
  {
    t == [] || (Enabled(s, t[0]) && EnabledRun(Step(s, t[0]), t[1..]))
  }

  function Run(s: Session, t: seq<Action>): Session
    requires EnabledRun(s, t)
    decreases |t|
  {
    if t == [] then s else Run(Step(s, t[0]), t[1..])
  }

  /** What every reachable session satisfies. */
  predicate Inv(s: Session) {
    s.guessCount <= MaxGuesses
    && (s.guessCount > 0 || s.isAnswered ==> s.riddle.Some?)
    && (s.hint != [] ==>
          s.riddle.Some? && s.riddle.value.answer != []
          && s.hint == HintText(s.riddle.value.answer))
    && (s.isLoading ==> Cleared(s))
  }

  // ---------------------------------------------------------------
  // The comparison of a guess
  // ---------------------------------------------------------------

  /** A guess is correct exactly when, once trimmed, it equals the answer up
      to the case of its letters. */
  lemma {:induction false} IsCorrectIff(guess: string, answer: string)
    ensures IsCorrect(guess, answer) <==> EqualIgnoringCase(Trim(guess), answer)
  {
    LowerEqualIff(Trim(guess), answer);
  }

  /** Whitespace around the guess, and the case of the answer, do not change
      the verdict. */
  lemma {:induction false} IsCorrectIgnoresPaddingAndCase(p: string, guess: string, q: string, answer: string)
    requires AllSpace(p) && AllSpace(q)
    ensures IsCorrect(p + guess + q, answer) == IsCorrect(guess, answer)
    ensures IsCorrect(guess, Lower(answer)) == IsCorrect(guess, answer)
  {
    TrimIgnoresPadding(p, guess, q);
    LowerIdempotent(answer);
  }

  /** Only the guess is trimmed: an answer that starts or ends with
      whitespace is matched by no guess at all. */
  lemma {:induction false} PaddedAnswerNeverCorrect(guess: string, answer: string)
    requires answer != [] && (IsSpace(answer[0]) || IsSpace(answer[|answer| - 1]))
    ensures !IsCorrect(guess, answer)
  {
    var t := Trim(guess);
    if Lower(t) == Lower(answer) {
      if IsSpace(answer[0]) {
        assert Lower(t)[0] == Lower(answer)[0];
        LowerKeepsSpace(t[0]);
        LowerKeepsSpace(answer[0]);
        assert false;
      } else {
        var k := |t| - 1;
        assert Lower(t)[k] == Lower(answer)[k];
        LowerKeepsSpace(t[k]);
        LowerKeepsSpace(answer[k]);
        assert false;
      }
    }
  }

  // ---------------------------------------------------------------
  // The texts shown to the player
  // ---------------------------------------------------------------

  lemma {:induction false} GuessesLeftMessageInjective(a: nat, b: nat)
    requires GuessesLeftMessage(a) == GuessesLeftMessage(b)
    ensures a == b
  {
    var prefix, suffix := "Not quite! You have ", " guesses left.";
    var ma, mb := GuessesLeftMessage(a), GuessesLeftMessage(b);
    assert ma[|prefix|..|ma| - |suffix|] == Decimal(a);
    assert mb[|prefix|..|mb| - |suffix|] == Decimal(b);
    DecimalInjective(a, b);
  }

  /** After a wrong guess the feedback says that all guesses are used exactly
      when the count has reached three, and before that it tells apart how
      many are left. */
  lemma {:induction false} WrongGuessFeedbackReports(m: nat, n: nat)
    ensures WrongGuessFeedback(n) == ExhaustedFeedback <==> n >= MaxGuesses
    ensures n < MaxGuesses ==> WrongGuessFeedback(n).colour == Orange
    ensures m < MaxGuesses && n < MaxGuesses && WrongGuessFeedback(m) == WrongGuessFeedback(n) ==> m == n
  {
    if m < MaxGuesses && n < MaxGuesses && WrongGuessFeedback(m) == WrongGuessFeedback(n) {
      GuessesLeftMessageInjective(MaxGuesses - m, MaxGuesses - n);
    }
  }

  /** For an answer of words separated by single spaces, the hint gives the
      number of words and the first letter of the first word, upper-cased. */
  lemma {:induction false} HintCountsWords(words: seq<string>)
    requires |words| >= 1 && NoSep(words, ' ') && words[0] != []
    ensures Join(words, ' ') != []
    ensures HintText(Join(words, ' ')) == "Hint: It's " + Decimal(|words|)
              + " word(s) and starts with \"" + [UpperChar(words[0][0])] + "\"."
  {
    var answer := Join(words, ' ');
    JoinStartsWith(words, ' ');
    assert answer[0] == answer[..|words[0]|][0] == words[0][0];
    SplitJoin(words, ' ');
    SplitLength(answer, ' ');
  }

  /** A hint request changes only the hint, always to a non-empty text when
      there is an answer, and a repeated request gives the same hint. */
  lemma {:induction false} HintedOnlySetsHint(s: Session)
    ensures Hinted(s) == s.(hint := Hinted(s).hint)
    ensures s.riddle.Some? && s.riddle.value.answer != [] ==> Hinted(s).hint != []
    ensures Hinted(Hinted(s)) == Hinted(s)
  {
  }

  // ---------------------------------------------------------------
  // What one handler does
  // ---------------------------------------------------------------

  /** A blank guess only puts up the warning: no guess is used, nothing else changes. */
  lemma {:induction false} SubmitBlankGuess(s: Session)
    requires AllSpace(s.userAnswer)
    ensures Submitted(s) == s.(feedback := EmptyAnswerWarning)
  {
  }

  /** A right guess scores one point and ends the round; the guess count is kept. */
  lemma {:induction false} SubmitRightGuess(s: Session)
    requires s.riddle.Some? && !AllSpace(s.userAnswer)
    requires EqualIgnoringCase(Trim(s.userAnswer), s.riddle.value.answer)
    ensures Submitted(s) == s.(score := s.score + 1, isAnswered := true, feedback := CorrectFeedback)
  {
    IsCorrectIff(s.userAnswer, s.riddle.value.answer);
  }

  /** A wrong guess uses one guess, clears the input and reports what is
      left; the score and the round's resolution are untouched. */
  lemma {:induction false} SubmitWrongGuess(s: Session)
    requires s.riddle.Some? && !AllSpace(s.userAnswer)
    requires !EqualIgnoringCase(Trim(s.userAnswer), s.riddle.value.answer)
    ensures Submitted(s) == s.(guessCount := s.guessCount + 1, userAnswer := [],
                               feedback := WrongGuessFeedback(s.guessCount + 1))
    ensures Submitted(s) == Missed(s)
    ensures s.guessCount + 1 >= MaxGuesses && !s.isAnswered ==>
              !InputEnabled(Submitted(s)) && !SubmitEnabled(Submitted(s))
              && RevealEnabled(Submitted(s))
  {
    IsCorrectIff(s.userAnswer, s.riddle.value.answer);
  }

  /** In the enabled input, Enter is exactly a submission and any other key
      changes nothing. */
  lemma {:induction false} KeyPressIsSubmit(s: Session, key: string)
    requires Enabled(s, KeyPress(key))
    ensures key == "Enter" ==> KeyPressed(s, key) == Submitted(s)
    ensures key != "Enter" ==> KeyPressed(s, key) == s
  {
  }

  /** A fetch, whatever state the last round was left in, clears every
      round-scoped field and keeps the score; a success installs the new
      riddle, a failure keeps the old one and reports the error. */
  lemma {:induction false} FetchRound(s: Session, outcome: FetchOutcome)
    ensures Cleared(Reset(s)) && Reset(s).isLoading
    ensures var r := Settled(Reset(s), outcome);
      !r.isLoading && !r.isAnswered && r.userAnswer == [] && r.guessCount == 0
      && r.hint == [] && r.score == s.score
      && (outcome.Succeeded? ==> r.riddle == Some(outcome.riddle) && r.feedback == NoFeedback)
      && (outcome.Failed? ==> r.riddle == s.riddle && r.feedback == FetchErrorFeedback)
  {
  }

  /** The fetch on mount starts from the initial state, which is already reset. */
  lemma {:induction false} InitialIsReset()
    ensures Reset(Initial) == Initial && Cleared(Initial) && Inv(Initial)
  {
  }

  /** Once the last guess is used, the riddle whose answer the reveal shows
      is certain to be loaded; revealing ends the round without a point. */
  lemma {:induction false} RevealAfterLastGuess(s: Session)
    requires Inv(s) && RevealEnabled(s)
    ensures s.riddle.Some? && !s.isLoading
    ensures Revealed(s).isAnswered && Revealed(s).score == s.score
    ensures Revealed(s).feedback.message == "The answer is: " + s.riddle.value.answer
  {
  }

  /** With no riddle loaded, a non-blank guess changes nothing: the handler
      throws on reading the answer. */
  lemma {:induction false} SubmitWithoutRiddle(s: Session)
    requires s.riddle.None? && !AllSpace(s.userAnswer)
    ensures Submitted(s) == s
  {
  }

  /** After a failed first fetch no riddle is loaded, yet the answer input and
      the Submit button stay enabled; submitting a typed guess then changes
      nothing, so the player can neither score nor use up a guess. */
  lemma {:induction false} FailedFirstFetchLeavesSubmitEnabled(guess: string)
    requires !AllSpace(guess)
    ensures var s := Typed(Settled(Initial, Failed), guess);
      s.riddle.None? && s.feedback == FetchErrorFeedback
      && InputEnabled(s) && SubmitEnabled(s) && Submitted(s) == s
  {
  }

  // ---------------------------------------------------------------
  // Every transition
  // ---------------------------------------------------------------

  /** Every enabled action keeps the invariant; in particular the guess
      count stays within 0..3. */
  lemma {:induction false} StepPreservesInv(s: Session, a: Action)
    requires Inv(s) && Enabled(s, a)
    ensures Inv(Step(s, a))
  {
    match a
    case Submit => SubmitPreservesInv(s);
    case KeyPress(key) =>
      if key == "Enter" && !s.isAnswered { SubmitPreservesInv(s); }
    case _ =>
  }

  lemma {:induction false} SubmitPreservesInv(s: Session)
    requires Inv(s) && SubmitEnabled(s)
    ensures Inv(Submitted(s))
  {
    if Trim(s.userAnswer) == [] {
      assert Submitted(s) == s.(feedback := EmptyAnswerWarning);
    } else if s.riddle.None? {
      assert Submitted(s) == s;
    } else if IsCorrect(s.userAnswer, s.riddle.value.answer) {
      assert Submitted(s) == s.(score := s.score + 1, feedback := CorrectFeedback, isAnswered := true);
    } else {
      assert Submitted(s).guessCount == s.guessCount + 1 <= MaxGuesses;
      assert Submitted(s).riddle == s.riddle && Submitted(s).hint == s.hint;
      assert !Submitted(s).isLoading;
    }
  }

  /** The score never goes down, and goes up by exactly one only on the
      right guess that ends an unanswered round. */
  lemma {:induction false} StepScore(s: Session, a: Action)
    requires Enabled(s, a)
    ensures Step(s, a).score == s.score
            || (Step(s, a).score == s.score + 1 && !s.isAnswered
                && Step(s, a).isAnswered && Step(s, a).feedback == CorrectFeedback)
  {
  }

  /** Without a new riddle, an answered round stays answered, and a hint,
      once shown, stays the same. */
  lemma {:induction false} StepWithinRound(s: Session, a: Action)
    requires Enabled(s, a) && a != NextRiddle
    ensures s.isAnswered ==> Step(s, a).isAnswered && Step(s, a).score == s.score
    ensures s.hint != [] ==> Step(s, a).hint == s.hint
  {
  }

  lemma {:induction false} RunPreservesInv(s: Session, t: seq<Action>)
    requires Inv(s) && EnabledRun(s, t)
    ensures Inv(Run(s, t))
    decreases |t|
  {
    if t != [] {
      StepPreservesInv(s, t[0]);
      RunPreservesInv(Step(s, t[0]), t[1..]);
    }
  }

  /** Every session the game can reach keeps the invariant. */
  lemma {:induction false} ReachableInv(t: seq<Action>)
    requires EnabledRun(Initial, t)
    ensures Inv(Run(Initial, t)) && Run(Initial, t).guessCount <= MaxGuesses
  {
    InitialIsReset();
    RunPreservesInv(Initial, t);
  }

  lemma {:induction false} RunScoreMonotone(s: Session, t: seq<Action>)
    requires EnabledRun(s, t)
    ensures Run(s, t).score >= s.score
    decreases |t|
  {
    if t != [] {
      StepScore(s, t[0]);
      RunScoreMonotone(Step(s, t[0]), t[1..]);
    }
  }

  /** Within one round (no Next Riddle), the score rises by at most one, and
      not at all once the round is answered; a hint once shown does not change. */
  lemma {:induction false} OnePointPerRound(s: Session, t: seq<Action>)
    requires EnabledRun(s, t) && NextRiddle !in t
    ensures Run(s, t).score <= s.score + (if s.isAnswered then 0 else 1)
    ensures s.isAnswered ==> Run(s, t).isAnswered
    ensures s.hint != [] ==> Run(s, t).hint == s.hint
    decreases |t|
  {
    if t != [] {
      assert t[0] in t;
      assert forall k :: 0 <= k < |t[1..]| ==> t[1..][k] == t[k + 1];
      StepScore(s, t[0]);
      StepWithinRound(s, t[0]);
      OnePointPerRound(Step(s, t[0]), t[1..]);
    }
  }

  // ---------------------------------------------------------------
  // Scenarios
  // ---------------------------------------------------------------

  /** Answer "Echo", guess "  echo ": a point, and the round is over. */
  lemma {:induction false} EchoGuessedWithPadding(s: Session)
    requires s.riddle.Some? && s.riddle.value.answer == "Echo"
    requires s.userAnswer == "  echo "
    ensures Submitted(s).score == s.score + 1 && Submitted(s).isAnswered
  {
    EchoFacts();
    SubmitRightGuess(s);
  }

  lemma {:induction false} EchoFacts()
    ensures Trim("  echo ") == "echo" && !AllSpace("  echo ")
    ensures EqualIgnoringCase("echo", "Echo")
  {
    EchoTrim();
    assert !IsSpace("  echo "[2]);
    assert SameIgnoringCase('e', 'E');
  }

  lemma {:induction false} EchoTrim()
    ensures Trim("  echo ") == "echo"
  {
    assert "  echo " == "  " + "echo" + " ";
    assert AllSpace("  ") && AllSpace(" ") && Trimmed("echo");
    TrimOfPadded("  ", "echo", " ");
  }

  /** Typing a word with no whitespace at either end and of another length
      than the answer, then submitting, is a wrong guess. */
  lemma {:induction false} TypeAndMiss(s: Session, word: string)
    requires s.riddle.Some? && Trimmed(word) && word != []
    requires |word| != |s.riddle.value.answer|
    ensures Submitted(Typed(s, word)) == Missed(s)
  {
    TrimOfTrimmed(word);
    assert !IsSpace(word[0]);
    var u := Typed(s, word);
    assert |Trim(u.userAnswer)| != |u.riddle.value.answer|;
    SubmitWrongGuess(u);
  }

  /** Typing such a word and submitting it, then going on with `rest`. */
  lemma {:induction false} MissThenRun(s: Session, word: string, rest: seq<Action>)
    requires s.riddle.Some? && Trimmed(word) && word != []
    requires |word| != |s.riddle.value.answer|
    requires InputEnabled(s) && EnabledRun(Missed(s), rest)
    ensures EnabledRun(s, [Type(word), Submit] + rest)
    ensures Run(s, [Type(word), Submit] + rest) == Run(Missed(s), rest)
  {
    TypeAndMiss(s, word);
    TypeThenSubmit(s, word, rest);
  }

  /** Answer "Echo", guesses "bat", "cat", "dog": each is a wrong guess. */
  lemma {:induction false} ThreeWrongGuesses(text: string)
    ensures var s0 := Settled(Initial, Succeeded(Riddle(text, "Echo")));
      var t := [Type("bat"), Submit, Type("cat"), Submit, Type("dog"), Submit];
      EnabledRun(s0, t) && Run(s0, t) == Missed(Missed(Missed(s0)))
  {
    var s0 := Settled(Initial, Succeeded(Riddle(text, "Echo")));
    var s2 := Missed(s0);
    var s4 := Missed(s2);
    assert Trimmed("bat") && Trimmed("cat") && Trimmed("dog");
    var t4, t2 := [Type("dog"), Submit], [Type("cat"), Submit, Type("dog"), Submit];
    MissThenRun(s4, "dog", []);
    assert [Type("dog"), Submit] + [] == t4;
    MissThenRun(s2, "cat", t4);
    assert [Type("cat"), Submit] + t4 == t2;
    MissThenRun(s0, "bat", t2);
    assert [Type("bat"), Submit] + t2 == [Type("bat"), Submit, Type("cat"), Submit, Type("dog"), Submit];
  }

  /** After those three wrong guesses the guesses are used up, the round
      stays open with Submit disabled, and Show Answer reveals "Echo". */
  lemma {:induction false} ThreeWrongGuessesThenReveal(text: string)
    ensures var s0 := Settled(Initial, Succeeded(Riddle(text, "Echo")));
      var s := Missed(Missed(Missed(s0)));
      s.guessCount == MaxGuesses && !s.isAnswered && s.feedback == ExhaustedFeedback
      && !SubmitEnabled(s) && RevealEnabled(s)
      && Revealed(s).feedback.message == "The answer is: Echo"
  {
  }

  /** Typing a word and submitting it, then going on with `rest`. */
  lemma {:induction false} TypeThenSubmit(s: Session, word: string, rest: seq<Action>)
    requires InputEnabled(s)
    requires EnabledRun(Submitted(Typed(s, word)), rest)
    ensures EnabledRun(s, [Type(word), Submit] + rest)
    ensures Run(s, [Type(word), Submit] + rest) == Run(Submitted(Typed(s, word)), rest)
  {
    RunCons(Typed(s, word), Submit, rest);
    RunCons(s, Type(word), [Submit] + rest);
    assert [Type(word)] + ([Submit] + rest) == [Type(word), Submit] + rest;
  }

  /** Running one enabled action, then the rest. */
  lemma {:induction false} RunCons(s: Session, a: Action, rest: seq<Action>)
    requires Enabled(s, a) && EnabledRun(Step(s, a), rest)
    ensures EnabledRun(s, [a] + rest)
    ensures Run(s, [a] + rest) == Run(Step(s, a), rest)
  {
    var t := [a] + rest;
    assert t[0] == a && t[1..] == rest;
  }
}
