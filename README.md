# Riddle Me This: the game session, modelled in Dafny

Riddle Me This is a single-page trivia game. One component, `App`, fetches
a riddle from a remote service and lets the player submit up to three guesses.
It offers a hint and, once the guesses are used up, a Show Answer button. It
keeps a score across rounds. This project models that component's state
machine. The rendering and the HTTP call are left out.

- `wrappers.dfy` (module `Wrappers`): `Option`, standing for a JavaScript `null`.
- `text.dfy` (module `Text`): the string built-ins the component calls, over
  ASCII. These are `trim` (a scan for the first and last non-whitespace character), `toLowerCase`,
  `toUpperCase` on one character, `split(" ")` with its inverse `join`, and the
  decimal rendering of a count in a template literal. Each comes with its
  characterisation or round trip: padding a trimmed string and trimming again
  gives it back, comparing lower-cased strings is case-insensitive equality,
  `join(split(s)) == s` and `split(join(ws)) == ws`, and parsing a rendered
  number gives the number back.
- `game.dfy` (module `RiddleGame`): the component's state fields as a value
  `Session`. There is one pure function per handler (`Reset`, `Settled`,
  `Typed`, `Submitted`, `Hinted`, `Revealed`, `KeyPressed`). The JSX `disabled`
  and visibility conditions become guard predicates. An `Action`/`Step`/`Run`
  layer describes whole traces, and the invariant `Inv` holds in every
  reachable session. The lemmas state what each handler does and what every
  trace keeps: `0 <= guessCount <= 3`, the score never falls and rises by at
  most one per round, and a hint, once shown, stays the same until the next
  riddle.
- `app.dfy` (module `AppComponent`): the component as a class `App`. Its fields
  are the state hooks. Its methods assign them as the handlers' setters do. Each
  method's postcondition equates the new `Snapshot()` with the matching
  `RiddleGame` transition of the old one, and each method keeps `Valid()`.

`fetchRiddle` is split where it waits for the response (lines 35-39).
No state changes between its two `await`s. `BeginFetch` is the synchronous
reset (lines 27-32). `SettleFetch(outcome)` is the end of the request, where
the outcome is either `Succeeded(riddle)` or `Failed` (lines 34-49). Only one
request can be outstanding through the UI. The Next Riddle button is shown only
once the round is answered, and every handler that could answer the round is
disabled or hidden while loading. So `SettleFetch` requires `isLoading`.

Some behaviours of the code that are easy to miss:

- A failed fetch leaves the previous riddle in place. The riddle is only
  assigned on success (line 40).
- After a failed first fetch the answer input and Submit stay enabled:
  lines 171 and 211 do not look at `riddle`. A non-blank guess then reads
  `riddle.answer` of `null` at line 69. That throws a `TypeError` before any
  setter runs, so the state does not change. `Submitted` models this as its
  own branch, and `FailedFirstFetchLeavesSubmitEnabled` states it.
- Only the guess is trimmed (line 69). An answer with whitespace at either
  end can never be matched (`PaddedAnswerNeverCorrect`).
- The hint's word count is the number of pieces `split(" ")` returns. That is
  the number of spaces plus one, counting empty pieces from repeated,
  leading or trailing spaces.
- Nothing guards against a stale response, because there is no request token
  in the code.

## Model

| member | source | states |
|---|---|---|
| Text.Trim | riddle-me-this/src/App.jsx:60 | the result has no whitespace at either end, is no longer than the input, and is empty exactly when the input is all whitespace (the `!userAnswer.trim()` test) |
| Text.TrimOfPadded | riddle-me-this/src/App.jsx:69 | trimming a string with no whitespace at its ends, padded with whitespace on both sides, gives back exactly that string |
| Text.TrimDecompose | riddle-me-this/src/App.jsx:69 | every string is its trimmed form with a whitespace-only prefix and suffix |
| Text.TrimOfTrimmed | riddle-me-this/src/App.jsx:69 | trimming a string with no whitespace at either end leaves it unchanged |
| Text.TrimIdempotent | riddle-me-this/src/App.jsx:69 | trimming twice is trimming once |
| Text.TrimIgnoresPadding | riddle-me-this/src/App.jsx:69 | extra whitespace around a string does not change its trim |
| Text.LowerChar | riddle-me-this/src/App.jsx:69 | ASCII `toLowerCase` of one character; specified by `LowerCharAgree` and `UpperChar`: it maps a letter of either case to the same lower-case letter and leaves everything else alone |
| Text.Lower | riddle-me-this/src/App.jsx:69 | `toLowerCase` of a string, character by character; specified by `LowerEqualIff` and `LowerIdempotent` |
| Text.UpperChar | riddle-me-this/src/App.jsx:98 | the result is never a lower-case letter; a lower-case letter maps to the upper-case letter whose lower case it is; anything else is unchanged |
| Text.LowerEqualIff | riddle-me-this/src/App.jsx:69 | two lower-cased strings are equal exactly when the strings are equal up to the case of their letters (both directions) |
| Text.LowerIdempotent | riddle-me-this/src/App.jsx:69 | lower-casing twice is lower-casing once |
| Text.Split | riddle-me-this/src/App.jsx:96 | `split` always yields at least one piece |
| Text.SplitLength | riddle-me-this/src/App.jsx:96 | `split(" ")` yields one more piece than the string has spaces |
| Text.SplitNoSep | riddle-me-this/src/App.jsx:96 | no piece of a split contains the separator |
| Text.JoinSplit | riddle-me-this/src/App.jsx:96 | joining the pieces of a split with the separator gives back the string |
| Text.SplitJoin | riddle-me-this/src/App.jsx:96 | splitting a join of separator-free pieces gives back the pieces |
| Text.Decimal | riddle-me-this/src/App.jsx:86 | a rendered count is a non-empty string of decimal digits with no leading zero |
| Text.ParseDecimalOfDecimal | riddle-me-this/src/App.jsx:86 | reading the rendered digits back gives the count |
| Text.DecimalInjective | riddle-me-this/src/App.jsx:98 | different counts render to different strings |
| RiddleGame.IsCorrect | riddle-me-this/src/App.jsx:68-69 | the comparison of the trimmed, lower-cased guess with the lower-cased answer; specified by `IsCorrectIff`, `IsCorrectIgnoresPaddingAndCase` and `PaddedAnswerNeverCorrect` |
| RiddleGame.GuessesLeftMessage | riddle-me-this/src/App.jsx:86 | the "Not quite!" message with the guesses left; specified by `GuessesLeftMessageInjective` |
| RiddleGame.WrongGuessFeedback | riddle-me-this/src/App.jsx:79-89 | the feedback for a new guess count; specified by `WrongGuessFeedbackReports` |
| RiddleGame.InputEnabled | riddle-me-this/src/App.jsx:171 | the answer input is disabled once answered, while loading and after the third guess; used by `SubmitWrongGuess`, `KeyPressIsSubmit` and the trace lemmas |
| RiddleGame.SubmitEnabled | riddle-me-this/src/App.jsx:208-215 | Submit is shown while unanswered and disabled while loading and after the third guess; used by `SubmitWrongGuess`, `FailedFirstFetchLeavesSubmitEnabled` and `SubmitPreservesInv` |
| RiddleGame.HintEnabled | riddle-me-this/src/App.jsx:178-182 | the hint button is shown while unanswered and disabled once a hint is shown and while loading; used by the trace lemmas |
| RiddleGame.RevealEnabled | riddle-me-this/src/App.jsx:188-196 | Show Answer is shown after the third guess while unanswered; specified by `RevealAfterLastGuess` |
| RiddleGame.NextEnabled | riddle-me-this/src/App.jsx:208-224 | Next Riddle is shown once answered; the only action `StepWithinRound` and `OnePointPerRound` leave out |
| RiddleGame.Reset | riddle-me-this/src/App.jsx:27-32 | the synchronous start of `fetchRiddle`; specified by `FetchRound` and `InitialIsReset` |
| RiddleGame.Settled | riddle-me-this/src/App.jsx:34-49 | the end of `fetchRiddle`, on success or failure; specified by `FetchRound` |
| RiddleGame.Typed | riddle-me-this/src/App.jsx:168 | the input's change handler, replacing only the draft answer; specified through `TypeAndMiss` and the trace lemmas |
| RiddleGame.Submitted | riddle-me-this/src/App.jsx:58-91 | `handleSubmit`; specified by `SubmitBlankGuess`, `SubmitWithoutRiddle`, `SubmitRightGuess` and `SubmitWrongGuess`, one per branch |
| RiddleGame.Missed | riddle-me-this/src/App.jsx:75-90 | the wrong-guess branch of `handleSubmit`; specified by `SubmitWrongGuess` and `WrongGuessFeedbackReports` |
| RiddleGame.Hinted | riddle-me-this/src/App.jsx:93-101 | `handleHint`; specified by `HintedOnlySetsHint` and `HintCountsWords` |
| RiddleGame.Revealed | riddle-me-this/src/App.jsx:103-109 | `handleShowAnswer`: the round ends with the blue answer feedback; with no riddle only line 104's update survives the throw; specified by `RevealAfterLastGuess` |
| RiddleGame.KeyPressed | riddle-me-this/src/App.jsx:115-119 | `handleKeyPress`; specified by `KeyPressIsSubmit` |
| RiddleGame.HintText | riddle-me-this/src/App.jsx:95-98 | the hint reads `Hint: It's N word(s) and starts with "L".` with N the number of spaces in the answer plus one and L its first character upper-cased |
| RiddleGame.HintCountsWords | riddle-me-this/src/App.jsx:93-101 | for an answer of words joined by single spaces, the hint gives the number of words and the upper-cased first letter of the first word |
| RiddleGame.HintedOnlySetsHint | riddle-me-this/src/App.jsx:93-101 | a hint request changes only `hint`; with a non-empty answer the hint is non-empty, so the button is then disabled; a repeated request yields the same hint |
| RiddleGame.IsCorrectIff | riddle-me-this/src/App.jsx:68-69 | a guess is correct exactly when, once trimmed, it equals the answer up to letter case |
| RiddleGame.IsCorrectIgnoresPaddingAndCase | riddle-me-this/src/App.jsx:69 | whitespace around the guess, and the case of the answer, do not change the verdict |
| RiddleGame.PaddedAnswerNeverCorrect | riddle-me-this/src/App.jsx:69 | an answer that starts or ends with whitespace is matched by no guess, because only the guess is trimmed |
| RiddleGame.GuessesLeftMessageInjective | riddle-me-this/src/App.jsx:86 | different numbers of guesses left give different "Not quite!" messages |
| RiddleGame.WrongGuessFeedbackReports | riddle-me-this/src/App.jsx:79-89 | the feedback after a wrong guess is "used all your guesses" exactly when the new count is at least 3; before that it is orange and tells the remaining counts apart |
| RiddleGame.SubmitBlankGuess | riddle-me-this/src/App.jsx:60-66 | a guess that is empty after trimming changes only the feedback, to the yellow "Please enter an answer!" warning |
| RiddleGame.SubmitRightGuess | riddle-me-this/src/App.jsx:68-74 | a right guess adds exactly one to the score, ends the round with "Correct!" and changes nothing else, the guess count included |
| RiddleGame.SubmitWrongGuess | riddle-me-this/src/App.jsx:75-90 | a wrong non-empty guess adds exactly one to the guess count, clears the input, sets the wrong-guess feedback and leaves score and `isAnswered` alone; the third one disables the input and Submit and enables Show Answer |
| RiddleGame.KeyPressIsSubmit | riddle-me-this/src/App.jsx:115-119 | in the enabled input, Enter is exactly a submission and any other key changes nothing |
| RiddleGame.FetchRound | riddle-me-this/src/App.jsx:26-50 | a fetch, whatever the last round did, clears `isAnswered`, `userAnswer`, `guessCount`, `hint` and the feedback and keeps the score; success installs the riddle, failure keeps the previous one and shows the red "Could not fetch" message |
| RiddleGame.InitialIsReset | riddle-me-this/src/App.jsx:14-32 | the initial hook values are already what the mount fetch's reset produces, and satisfy the invariant |
| RiddleGame.RevealAfterLastGuess | riddle-me-this/src/App.jsx:103-109 | whenever Show Answer is shown, a riddle is loaded and nothing is loading; revealing ends the round with "The answer is: " and the answer and leaves the score |
| RiddleGame.SubmitWithoutRiddle | riddle-me-this/src/App.jsx:68-69 | with no riddle loaded, submitting a non-blank guess leaves the whole state unchanged, because reading the answer throws before any setter runs |
| RiddleGame.FailedFirstFetchLeavesSubmitEnabled | riddle-me-this/src/App.jsx:208-215 | after a failed first fetch there is no riddle, yet the input and Submit are enabled, and submitting a typed guess changes nothing |
| RiddleGame.StepPreservesInv | riddle-me-this/src/App.jsx:58-119 | every enabled action keeps the invariant: `guessCount <= 3`, a riddle is loaded once a guess is used or the round is answered, a shown hint is the hint of the loaded answer, and loading means the round is cleared |
| RiddleGame.SubmitPreservesInv | riddle-me-this/src/App.jsx:58-91 | a submission from an enabled state satisfying the invariant keeps it, in each of its blank, right and wrong branches |
| RiddleGame.StepScore | riddle-me-this/src/App.jsx:72 | no action lowers the score; it rises by exactly one only when it also answers an unanswered round with "Correct!" |
| RiddleGame.StepWithinRound | riddle-me-this/src/App.jsx:178-188 | apart from Next Riddle, no action reopens an answered round, scores in it, or changes a shown hint |
| RiddleGame.RunPreservesInv | riddle-me-this/src/App.jsx:58-119 | every trace of enabled actions keeps the invariant |
| RiddleGame.ReachableInv | riddle-me-this/src/App.jsx:171-211 | every session reachable from the initial one satisfies the invariant, so `guessCount` stays within 0..3 |
| RiddleGame.RunScoreMonotone | riddle-me-this/src/App.jsx:72 | along any trace the score never decreases |
| RiddleGame.OnePointPerRound | riddle-me-this/src/App.jsx:208-223 | within one round the score rises by at most one, not at all once answered, the round stays answered, and a shown hint stays the same |
| RiddleGame.EchoGuessedWithPadding | riddle-me-this/src/App.jsx:68-74 | with answer "Echo", the guess "  echo " scores a point and ends the round |
| RiddleGame.ThreeWrongGuesses | riddle-me-this/src/App.jsx:75-90 | with answer "Echo", typing and submitting "bat", "cat", "dog" is an enabled trace, and each submission is a miss |
| RiddleGame.ThreeWrongGuessesThenReveal | riddle-me-this/src/App.jsx:75-108 | after those three misses all three guesses are used, the round is open with Submit disabled and Show Answer enabled, and revealing shows "The answer is: Echo" |
| AppComponent.App.constructor | riddle-me-this/src/App.jsx:14-21 | the new component holds the initial hook values (loading, no riddle, score 0), which the mount fetch's reset leaves as they are |
| AppComponent.App.BeginFetch | riddle-me-this/src/App.jsx:27-32 | sets loading and resets the round-scoped fields, as `Reset` does to the old state |
| AppComponent.App.SettleFetch | riddle-me-this/src/App.jsx:34-49 | while loading, stores the fetched riddle or the error feedback and stops loading, as `Settled` does to the old state |
| AppComponent.App.ChangeAnswer | riddle-me-this/src/App.jsx:168 | while the input is enabled, replaces the draft answer and nothing else |
| AppComponent.App.HandleSubmit | riddle-me-this/src/App.jsx:58-91 | while Submit is enabled, the new state is `Submitted` of the old one, including the unchanged state when the answer of a missing riddle is read, and the invariant holds |
| AppComponent.App.HandleKeyPress | riddle-me-this/src/App.jsx:115-119 | in the enabled input, Enter while unanswered runs the submit handler, with all its branches; other keys leave the state unchanged; the new state is `KeyPressed` of the old one |
| AppComponent.App.HandleHint | riddle-me-this/src/App.jsx:93-101 | while the hint button is enabled, computes the hint from the loaded answer, as `Hinted` does |
| AppComponent.App.HandleShowAnswer | riddle-me-this/src/App.jsx:103-109 | while Show Answer is shown, the riddle is loaded and the new state is `Revealed` of the old one |
| AppComponent.PlayEchoRound | riddle-me-this/src/App.jsx:14-113 | a first round through the object: it succeeds with "Echo", the guess "  echo " scores, and Next Riddle leaves score 1 with a fresh, loading round |
| AppComponent.App.HandleNextRiddle | riddle-me-this/src/App.jsx:111-113 | once answered, starts a new fetch: loading, round reset, score and riddle kept |

## Left out

- The HTTP request, `response.ok`, `response.json()` and `console.error`
  (lines 35-42) are network I/O. They are replaced by the `FetchOutcome`
  parameter of `SettleFetch`, and any failure is one `Failed` outcome.
- Overlapping requests are not modelled. The code has no guard against a late
  response, and the UI allows only one request at a time, so `SettleFetch`
  requires `isLoading`.
- JSX rendering, CSS, the `Spinner` component and the React hooks machinery are
  left out. Only the guard expressions remain, as preconditions. The setters
  one handler calls are applied together, as React batches them.
- Event objects and `e.preventDefault()` (line 59) are left out. The call
  stops the browser's own form submission: a page reload that would drop the
  score and, on Enter, a second submission through the form. The model
  assumes the call always happens: each event is exactly one handler call, and the
  page never reloads.
- `trim`, `toLowerCase` and `toUpperCase` are modelled over ASCII. Unicode
  whitespace, letters outside A-Z and a-z, and upper-case mappings that yield
  several characters are not modelled.
- Feedback colours are kept as the hue of the text colour class (`text-red-500`
  is `Red`). The rest of the class string is not modelled.
- The riddle service's response is a riddle text and an answer string. A
  response without an `answer` field (`undefined`) is not modelled; the falsy
  answer that `handleHint` checks for is the empty string.
- Submitted, HandleSubmit, KeyPressed, HandleKeyPress, Revealed: reading
  `riddle.answer` while no riddle is loaded throws a `TypeError` (lines 69
  and 106; the Enter path reaches line 69 through line 117). The model keeps
  the updates queued before the throw and drops the rest. At line 69 no setter
  has run yet, so the state is unchanged. At line 106 `setIsAnswered(true)`
  (line 104) has already run, so only `isAnswered` becomes true. The exception
  itself, which React reports, is not modelled. The read at line 106 happens
  in no reachable session (`RevealAfterLastGuess`).
- `score` and `guessCount` are unbounded naturals. JavaScript numbers lose
  precision above 2^53, which a score cannot reach in practice.
