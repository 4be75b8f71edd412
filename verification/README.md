# Docker course page: UI state machine

A model, in Dafny, of the behaviour of the single-page Docker course viewer
(`docker-course-tutorial.tsx` and `docker-course-tutorial_working_full.tsx`).
The two files have the same logic and differ only in lesson data and styling,
so one model covers both. The page has four pieces of state:

- **quiz answers** (`LessonComponent`): one integer slot per question of the
  shown lesson. The sentinel -1 means "unanswered". The slots are reset when
  the lesson changes, and the first answer to a question is final;
- **expanded modules** (`CourseSidebar`): a list of module ids used as a set,
  which a header click toggles;
- **exercise reveal** (`Exercise`): a flag per exercise that only moves from
  false to true and decides whether the expected command is shown;
- **selection** (`App`): the first lesson of the first module at start, or
  nothing. It is replaced by whatever lesson the sidebar reports.

Modules, one per component:

- `Wrappers`: `Option`. `None` also stands for JavaScript's `undefined`.
- `Catalog`: the `Quiz`, `ExerciseItem`, `Lesson` and `CourseModule` records, the well-formedness
  predicate (answer index in range, unique non-empty lesson ids) and the
  initial lesson.
- `QuizControl`: reset, the answer handler, verdicts and option colours.
- `ExerciseControl`: the reveal flag and how an exercise renders.
- `Sidebar`: toggling, the absence of duplicates, and which lessons are listed.
- `Root`: the whole page as a state machine. `StepAsWritten` and
  `RunAsWritten` apply one click and a series of clicks as the page is
  written. `Step` and `Run` do the same for the corrected page of the
  Findings section, which differs only in how a lesson click treats the
  exercise flags. `Inv` is the invariant of the reachable states of both.

Modelling choices:

- Reads past the end of an array yield `undefined` in the source. The model
  keeps that: `QuizControl.Read` and `QuizControl.OptionText` return `None`.
  So `handleAnswer` on an out-of-range index does nothing, because
  `undefined !== -1` holds. A verdict whose correct index has no option
  prints "undefined". No precondition demands a well-formed quiz;
  `WellFormedQuiz` is only a hypothesis of lemmas.
- `handleAnswer(i, -1)` writes the sentinel and so leaves the question open.
  The page never issues it, because option indices start at 0.
  `QuizControl.FirstAnswer` accounts for it.
- A click reaches only a control that is on screen. So `Root.Step` ignores
  these clicks: a header for an id that is not a module of the catalog, a
  lesson that is not listed in the sidebar, and an option or exercise index
  that does not exist.
- Lesson identity is value equality. Distinct catalog lessons have distinct
  `quiz` arrays, so "`lesson.quiz` changed" is the same as "another lesson
  was selected". Reselecting the shown lesson changes nothing. React skips
  the state update and the effect's dependency is unchanged.
- The reset of the slots happens atomically with the selection.
- The initial selection looks only at the first module. When that module
  has no lessons, nothing is selected, even if a later module has lessons
  (`Catalog.InitialLesson`). `Catalog.InitialLessonIsFirstOfCatalog` gives
  the first-lesson-of-the-catalog reading when no module is empty.

## Model

| member | source | states |
|---|---|---|
| Catalog.InitialLesson | docker-course-tutorial.tsx:2608 | the initial selection is absent exactly when there is no module or the first module has no lessons; otherwise it is the first lesson of the first module, which is also the first lesson of the whole catalog |
| Catalog.InitialLessonIsFirstOfCatalog | docker-course-tutorial_working_full.tsx:1997 | when every module has lessons, a lesson is selected at start exactly when the catalog is non-empty, and it is the first lesson of the whole catalog |
| QuizControl.Reset | docker-course-tutorial.tsx:2483-2487 | after a reset there is one slot per question of the lesson and every slot is open |
| QuizControl.HandleAnswer | docker-course-tutorial.tsx:2489-2494 | the length never changes and no other slot changes; an open slot takes the chosen option; a closed or out-of-range slot leaves the whole array unchanged |
| QuizControl.AnsweredSlotIsFinal | docker-course-tutorial_working_full.tsx:1878-1883 | an answered slot keeps its value after any series of clicks |
| QuizControl.FirstAnswerWins | docker-course-tutorial.tsx:2490-2493 | starting open, a slot ends up holding the option of the first click on it that closes it, as given by the independent definition `FirstAnswer` |
| QuizControl.SecondAnswerIgnored | docker-course-tutorial_working_full.tsx:1879 | answering an open question twice is the same as answering it once, and the slot holds the first option |
| QuizControl.Judge | docker-course-tutorial.tsx:2528-2533 | no verdict exactly while the slot holds the sentinel; "correct" exactly when the slot equals the answer index; otherwise "incorrect" naming the correct option's text for a well-formed question |
| QuizControl.VerdictText | docker-course-tutorial.tsx:2530-2532 | the correct verdict text is produced exactly for a correct verdict; an incorrect text starts with the fixed prefix and ends with the correct option's text |
| QuizControl.OptionHighlight | docker-course-tutorial.tsx:2509-2520 | an option is coloured exactly when it is the chosen one, and green exactly when it is chosen and correct |
| QuizControl.RenderQuestion | docker-course-tutorial.tsx:2506-2535 | shows the question text and the verdict `Judge` gives for this question's slot; one colour per option, each as `OptionHighlight` gives it; the options are disabled exactly when the slot is not open, and exactly then a verdict is shown |
| QuizControl.RenderQuiz | docker-course-tutorial.tsx:2502-2538 | the quiz section is left out exactly when the lesson has no questions; otherwise it renders each question against its own slot |
| QuizControl.ResetShowsNothing | docker-course-tutorial_working_full.tsx:1872-1876 | right after a reset no question shows a verdict, is disabled, or colours an option |
| QuizControl.VerdictAgreesWithHighlight | docker-course-tutorial_working_full.tsx:1898-1922 | for an answered well-formed question, the chosen option is green exactly when the verdict is correct, red exactly when it is incorrect, and every other option is plain |
| ExerciseControl.Reveal | docker-course-tutorial.tsx:2464 | after the handler the flag is set whatever it was, so it only moves from false to true and a set flag stays as it was |
| ExerciseControl.Click | docker-course-tutorial.tsx:2464-2465 | a click with the button disabled has the same effect as the handler, so a second reveal is a no-op |
| ExerciseControl.ClicksRevealOnce | docker-course-tutorial.tsx:2456-2465 | after any number of clicks the flag is set exactly when it was set before or some click happened; n+1 clicks equal one click |
| ExerciseControl.Render | docker-course-tutorial.tsx:2458-2472 | the expected command is shown exactly when the flag is set; the button is disabled exactly then and is relabelled "Answer Shown" |
| Sidebar.RemoveAll | docker-course-tutorial.tsx:2566 | the filter keeps exactly the other ids, returns the list unchanged when the id is absent, shrinks it when present, and keeps it duplicate-free |
| Sidebar.Toggle | docker-course-tutorial.tsx:2563-2569 | membership of the toggled id flips, membership of every other id is unchanged, and no duplicate appears |
| Sidebar.ToggleTwice | docker-course-tutorial_working_full.tsx:1952-1958 | toggling twice restores every membership; a collapsed module gives back exactly the old list, and an expanded one returns at the end |
| Sidebar.ToggleAllParity | docker-course-tutorial.tsx:2563-2569 | after any series of clicks, a module is expanded exactly when its initial state differs from "clicked an odd number of times" |
| Sidebar.ToggleAllNoDuplicates | docker-course-tutorial.tsx:2561-2568 | starting duplicate-free, as the empty initial list is, no series of clicks creates a duplicate |
| Sidebar.ListedLessons | docker-course-tutorial_working_full.tsx:1972-1989 | a module lists either nothing or all its lessons, and, when it has lessons, all of them exactly when it is expanded |
| Sidebar.ShownLessonsMembers | docker-course-tutorial.tsx:2574-2600 | a lesson has a sidebar entry exactly when some expanded module of the catalog holds it |
| Root.Init | docker-course-tutorial.tsx:2608 | the page opens on the initial lesson with nothing expanded; when a lesson is shown, every question slot is -1 and every exercise hidden (`useState(false)` at :2456, reset at :2483-2487); the state satisfies the invariant |
| Root.CurrentLessonId | docker-course-tutorial.tsx:2618 | the highlighted id is the selected lesson's id, or the empty string when nothing is selected |
| Root.Select | docker-course-tutorial.tsx:2610-2612 | selection becomes the lesson and expansion is untouched; reselecting changes nothing; another lesson starts with every question open and every exercise hidden (the corrected behaviour, see Findings) |
| Root.SelectAsWritten | docker-course-tutorial.tsx:2540-2547 | as written, the slots are reset like `Select`, but the exercise at position j is revealed exactly when the previous lesson's exercise at position j was |
| Root.Step | docker-course-tutorial_working_full.tsx:1997-2007 | corrected page: a header click on a catalog module toggles it; a click on a listed lesson selects it as `Select` does; a click on an on-screen option applies `HandleAnswer`; an on-screen "Show Answer" sets that exercise's flag; a click on anything not on screen does nothing; and each click changes only its owner's part of the state |
| Root.StepAsWritten | docker-course-tutorial.tsx:2607-2622 | the page as written: every click except a lesson click acts exactly as in `Step`; a click on a listed lesson applies `SelectAsWritten`, with the quiz reset as in `Step`; an unlisted one does nothing; expansion changes as in `Step` |
| Root.StepAsWrittenPreservesInv | docker-course-tutorial.tsx:2540-2547 | every click on the page as written keeps the invariant, including the positional carry-over of exercise flags |
| Root.RunAsWrittenPreservesInv | docker-course-tutorial.tsx:2481-2494 | every state reachable by clicks on the page as written satisfies the invariant |
| Root.RunAsWrittenAgreesWithoutNavigation | docker-course-tutorial.tsx:2610-2612 | over any series of clicks with no lesson click, the page as written and the corrected page reach the same state |
| Root.RevisitResetsQuizAsWritten | docker-course-tutorial.tsx:2483-2487 | page as written: leaving a lesson and returning shows all its questions open with the sidebar unchanged; exercise j comes back revealed exactly when it was revealed before and the lesson visited in between has an exercise j |
| Root.StepPreservesInv | docker-course-tutorial.tsx:2561-2569 | every click keeps the invariant: no duplicate or unknown module id, the selection is a catalog lesson, one slot per question holding the sentinel or a valid option, and one flag per exercise |
| Root.RunPreservesInv | docker-course-tutorial.tsx:2481-2494 | every state reachable by clicks satisfies the invariant |
| Root.AnswerIsFinal | docker-course-tutorial.tsx:2490 | no click except moving to another lesson changes an answered slot |
| Root.RevealIsOneWay | docker-course-tutorial.tsx:2456-2465 | no click except moving to another lesson hides a revealed exercise |
| Root.StayingKeepsAnswers | docker-course-tutorial_working_full.tsx:1878-1883 | over any series of clicks with no lesson click, every answered question keeps its answer |
| Root.StayingKeepsReveals | docker-course-tutorial_working_full.tsx:1845-1854 | over any series of clicks with no lesson click, every revealed exercise stays revealed |
| Root.RevisitStartsFresh | docker-course-tutorial.tsx:2483-2487 | corrected page: leaving a lesson and returning shows all its questions open and all exercises hidden, with the sidebar unchanged (the page as written: `RevisitResetsQuizAsWritten`) |
| Root.HighlightIsSelection | docker-course-tutorial_working_full.tsx:1978 | in a well-formed catalog, a lesson's entry is highlighted exactly when it is the selected lesson |
| Root.ToggleModuleTwice | docker-course-tutorial.tsx:2578 | a header click flips only that module and changes nothing outside the sidebar; a second click restores every membership |
| Root.SelectHidesAnswers | docker-course-tutorial.tsx:2543-2545 | with the correction, every exercise of a newly selected lesson renders without its command |
| Root.AsWrittenRevealLeaks | docker-course-tutorial.tsx:2544 | concrete case: revealing lesson A's first exercise and moving to lesson B shows B's first command unclicked; the corrected `Select` does not |
| Root.RenderExercises | docker-course-tutorial.tsx:2540-2547 | the exercise section is left out exactly when the lesson has no exercises; otherwise position j renders exercise j (its scenario and, exactly when flag j is set, its own expected command) |
| Root.RenderMain | docker-course-tutorial.tsx:2621-2628 | the welcome view is shown exactly when nothing is selected; otherwise the selected lesson's title, quiz and exercises |
| Root.OneModuleWalkthrough | docker-course-tutorial_working_full.tsx:1869-2021 | one-module walkthrough: opens on the lesson; a wrong answer is red with "incorrect, correct answer: B"; reveal shows the command; a header click lists the lesson |

## Left out

- Lesson, quiz and exercise content: the thousands of lines of literal text
  are data. Only their shape is modelled.
- Markup, CSS classes and the unsanitised `dangerouslySetInnerHTML` body:
  presentation only. Colours are modelled as plain/green/red and nothing
  more.
- React scheduling: the update batching of `useState` and the timing of
  `useEffect`. This includes the transient render after a lesson change,
  where the slots still belong to the previous lesson or are `[]`. The reset
  is modelled as part of the selection.
- The `if (lesson.quiz)` guard of the reset effect: `quiz` is a required
  array in the types, so the guard always passes.
- The optional `description` field is carried but never read. DOM event
  dispatch is reduced to "a click on a rendered control".
- Root.Step: `Step`, `Run` and the lemmas about them (`StepPreservesInv`,
  `RunPreservesInv`, `AnswerIsFinal`, `RevealIsOneWay`, `StayingKeepsAnswers`,
  `StayingKeepsReveals`, `RevisitStartsFresh`, `ToggleModuleTwice`) describe
  the corrected page. They hold of the page as written for every click except
  a lesson click (`RunAsWrittenAgreesWithoutNavigation`). The exercise half of
  `RevisitStartsFresh` does not hold as written; see Findings and
  `RevisitResetsQuizAsWritten`.
- JavaScript numbers are modelled as Dafny integers (`Quiz.answer`, the quiz
  and option indices). A fractional `answer` would read `undefined` and
  never equal a slot, and the model cannot express that. Every `answer` in
  both catalogs is an integer literal, and every index comes from `.map`.
- `docker-course-tutorial copy.tsx` is not part of this model. It is a third
  copy of the same component.

## Findings

| source | as written | input that shows it | evidently intended | confidence | as-written member | corrected member |
|---|---|---|---|---|---|---|
| docker-course-tutorial.tsx:2543-2545 (same at docker-course-tutorial_working_full.tsx:1932-1934) | exercise controls are keyed by their index inside a `LessonComponent` that stays mounted when the lesson changes. React therefore keeps each control's `submitted` flag, and the flag carries over to the exercise at the same position of the next lesson | reveal the first exercise of lesson A, then select lesson B, which has at least one exercise: B's first expected command is shown without being clicked | each lesson is shown with its exercises hidden, just as its quiz slots are reset | high (React keeps the state of a child whose type and key are unchanged); not executed | Root.SelectAsWritten, Root.AsWrittenRevealLeaks | Root.Select, Root.SelectHidesAnswers |
