/**
 * The App component as an object: its state hooks are fields, and each
 * event handler is a method that assigns them as the handler's setters do.
 * Every method is tied to the transition of the same name in RiddleGame,
 * and `Valid()` is that module's invariant of the current state.
 */
module AppComponent {
  import opened Wrappers
  import opened Text
  import opened RiddleGame

  class App {
    var riddle: Option<Riddle>
    var isLoading: bool
    var userAnswer: string
    var feedback: Feedback
    var score: nat
    var isAnswered: bool
    var guessCount: nat
    var hint: string

    /** The current state as a value. */
    function Snapshot(): Session
      reads this
    {
      Session(riddle, isLoading, userAnswer, feedback, score, isAnswered, guessCount, hint)
    }

    ghost predicate Valid()
      reads this
    {
      Inv(Snapshot())
    }

    /** The initial state hooks, then the fetch issued on mount up to its request. */
    constructor ()
      ensures Valid() && Snapshot() == Initial
    {
      riddle := None;
      isLoading := true;
      userAnswer := "";
      feedback := NoFeedback;
      score := 0;
      isAnswered := false;
      guessCount := 0;
      hint := "";
      new;
      InitialIsReset();
      BeginFetch();
    }

    /** `fetchRiddle` before its request: show the spinner and reset the round. */
    method BeginFetch()
      requires Valid()
      modifies this
      ensures Valid()
      ensures Snapshot() == Reset(old(Snapshot()))
    {
      isLoading := true;
      feedback := NoFeedback;
      isAnswered := false;
      userAnswer := "";
      guessCount := 0;
      hint := "";
    }

    /** `fetchRiddle` after its request: store the riddle or report the failure. */
    method SettleFetch(outcome: FetchOutcome)
      requires Valid() && isLoading
      modifies this
      ensures Valid()
      ensures Snapshot() == Settled(old(Snapshot()), outcome)
    {
      match outcome {
        case Succeeded(data) =>
          riddle := Some(data);
        case Failed =>
          feedback := FetchErrorFeedback;
      }
      isLoading := false;
    }

    /** The answer input's change handler. */
    method ChangeAnswer(text: string)
      requires Valid() && InputEnabled(Snapshot())
      modifies this
      ensures Valid()
      ensures Snapshot() == Typed(old(Snapshot()), text)
    {
      userAnswer := text;
    }

    method HandleSubmit()
      requires Valid() && SubmitEnabled(Snapshot())
      modifies this
      ensures Valid()
      ensures Snapshot() == Submitted(old(Snapshot()))
    {
      ghost var before := Snapshot();
      SubmitPreservesInv(before);
      if Trim(userAnswer) == [] {
        feedback := EmptyAnswerWarning;
        return;
      }
      if riddle.None? {
        // reading `riddle.answer` throws here, before any setter has run
        return;
      }
      var isCorrect := Lower(Trim(userAnswer)) == Lower(riddle.value.answer);
      if isCorrect {
        score := score + 1;
        feedback := CorrectFeedback;
        isAnswered := true;
      } else {
        var newGuessCount := guessCount + 1;
        guessCount := newGuessCount;
        userAnswer := "";
        feedback := WrongGuessFeedback(newGuessCount);
      }
    }

    method HandleKeyPress(key: string)
      requires Valid() && InputEnabled(Snapshot())
      modifies this
      ensures Valid()
      ensures Snapshot() == KeyPressed(old(Snapshot()), key)
    {
      if key == "Enter" && !isAnswered {
        HandleSubmit();
      }
    }

    method HandleHint()
      requires Valid() && HintEnabled(Snapshot())
      modifies this
      ensures Valid()
      ensures Snapshot() == Hinted(old(Snapshot()))
    {
      ghost var before := Snapshot();
      StepPreservesInv(before, RequestHint);
      if riddle.Some? && riddle.value.answer != [] {
        var answer := riddle.value.answer;
        var firstLetter := answer[0];
        var wordCount := |Split(answer, ' ')|;
        hint := "Hint: It's " + Decimal(wordCount) + " word(s) and starts with \""
                + [UpperChar(firstLetter)] + "\".";
      }
    }

    method HandleShowAnswer()
      requires Valid() && RevealEnabled(Snapshot())
      modifies this
      ensures Valid()
      ensures old(Snapshot()).riddle.Some?
      ensures Snapshot() == Revealed(old(Snapshot()))
    {
      ghost var before := Snapshot();
      RevealAfterLastGuess(before);
      StepPreservesInv(before, ShowAnswer);
      isAnswered := true;
      feedback := RevealFeedback(riddle.value.answer);
    }

    method HandleNextRiddle()
      requires Valid() && NextEnabled(Snapshot())
      modifies this
      ensures Valid()
      ensures Snapshot() == Reset(old(Snapshot()))
    {
      BeginFetch();
    }
  }

  /** A first round played through the object: the fetch succeeds with the
      answer "Echo", "  echo " is accepted, and Next Riddle starts the next
      fetch with the point kept. */
  method PlayEchoRound(text: string) returns (app: App)
    ensures app.Valid() && app.score == 1 && app.isLoading
    ensures app.guessCount == 0 && !app.isAnswered && app.hint == []
  {
    app := new App();
    app.SettleFetch(Succeeded(Riddle(text, "Echo")));
    app.ChangeAnswer("  echo ");
    EchoGuessedWithPadding(app.Snapshot());
    app.HandleSubmit();
    assert app.score == 1 && app.isAnswered;
    app.HandleNextRiddle();
  }
}
