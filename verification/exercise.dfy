/**
 The exercise control: a scenario with a "Show Answer" button. Its one piece
 of state, `submitted`, starts false and the button can only set it to true;
 the expected command is shown exactly when it is true.
 */
module ExerciseControl {
  import opened Wrappers
  import opened Catalog

  /** The button's handler: the flag becomes true, whatever it was, so it
      can only move from false to true. */
  function Reveal(submitted: bool): (r: bool)
    ensures r
    ensures submitted ==> r == submitted
  {
    true
  }

  /** A click as the page delivers it: a disabled button (the answer is
      already shown) delivers nothing. */
  function Click(submitted: bool): (r: bool)
    ensures r == Reveal(submitted)
  {
    if submitted then submitted else Reveal(submitted)
  }

  /** The flag after `n` clicks. */
  function Clicks(submitted: bool, n: nat): bool
    decreases n
  {
    if n == 0 then submitted else Clicks(Click(submitted), n - 1)
  }

  /** The flag is one-way: after any number of clicks it is set exactly when
      it was set before or at least one click happened. In particular
      revealing twice is the same as revealing once. */
  lemma {:induction false} ClicksRevealOnce(submitted: bool, n: nat)
    ensures Clicks(submitted, n) <==> submitted || n > 0
    ensures Clicks(submitted, n + 1) == Clicks(submitted, 1)
    decreases n
  {
    if n > 0 {
      ClicksRevealOnce(Click(submitted), n - 1);
    }
  }

  /** What an exercise shows. */
  datatype ExerciseView = ExerciseView(
    scenario: string,
    buttonLabel: string,
    buttonDisabled: bool,
    shownCommand: Option<string>)

  /** The rendering of an exercise: the expected command appears exactly
      when the flag is set, and then the button is disabled and relabelled. */
  function Render(ex: ExerciseItem, submitted: bool): (v: ExerciseView)
    ensures v.scenario == ex.scenario
    ensures v.shownCommand.Some? <==> submitted
    ensures v.shownCommand.Some? ==> v.shownCommand.value == ex.expectedCommand
    ensures v.buttonDisabled <==> v.shownCommand.Some?
    ensures v.buttonLabel == (if v.buttonDisabled then "Answer Shown" else "Show Answer")
  {
    if submitted then ExerciseView(ex.scenario, "Answer Shown", true, Some(ex.expectedCommand))
    else ExerciseView(ex.scenario, "Show Answer", false, None)
  }

}
