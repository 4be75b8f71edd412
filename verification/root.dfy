/**
 The page as a whole: the root holds the selected lesson, the sidebar holds
 the expanded modules, and the mounted lesson view holds one answer slot per
 question and one reveal flag per exercise. Every user action is a click on
 a rendered control; a click on a control that is not on screen does
 nothing.
 */
module Root {
  import opened Wrappers
  import opened Catalog
  import opened QuizControl
  import opened ExerciseControl
  import opened Sidebar

  /** The whole mutable state of the page. `revealed[j]` is the flag of the
      exercise control rendered at position `j` of the lesson view. */
  datatype State = State(
    selected: Option<Lesson>,
    expanded: seq<string>,
    answers: seq<int>,
    revealed: seq<bool>)

  /** The clicks the page reacts to. */
  datatype Event =
    | ToggleModule(moduleId: string)
    | SelectLesson(lesson: Lesson)
    | Answer(quizIndex: nat, option: nat)
    | ShowAnswer(exerciseIndex: nat)

  /** Some module of the catalog has this id, so its header is on screen. */
  predicate IsModuleId(c: seq<CourseModule>, id: string) {
    exists m :: m in c && m.id == id
  }

  /** What stays true of every state the page can reach. */
  predicate Inv(c: seq<CourseModule>, st: State) {
    && NoDuplicates(st.expanded)
    && (forall id :: id in st.expanded ==> IsModuleId(c, id))
    && match st.selected
       case None => st.answers == [] && st.revealed == []
       case Some(l) =>
         && l in AllLessons(c)
         && |st.answers| == |l.quiz|
         && |st.revealed| == |l.exercises|
         && forall i :: 0 <= i < |st.answers| ==>
              st.answers[i] == Unanswered || 0 <= st.answers[i] < |l.quiz[i].options|
  }

  /** All exercises hidden, one flag per exercise of the lesson. */
  function Hidden(l: Lesson): (r: seq<bool>)
    ensures |r| == |l.exercises|
    ensures forall j :: 0 <= j < |r| ==> !r[j]
  {
    seq(|l.exercises|, _ => false)
  }

  /** The page when it opens: the initial lesson (if any) freshly shown, no
      module expanded. */
  function Init(c: seq<CourseModule>): (st: State)
    ensures st.selected == InitialLesson(c)
    ensures st.expanded == []
    ensures st.selected.Some? ==>
              st.answers == Reset(st.selected.value) && st.revealed == Hidden(st.selected.value)
    ensures Inv(c, st)
  {
    match InitialLesson(c)
    case None => State(None, [], [], [])
    case Some(l) => State(Some(l), [], Reset(l), Hidden(l))
  }

  /** The id the sidebar highlights: the selected lesson's, or the empty
      string when nothing is selected. The source writes `?.id || ''`, so an
      empty id also falls back to the empty string, which changes nothing. */
  function CurrentLessonId(selected: Option<Lesson>): (r: string)
    ensures selected.None? ==> r == ""
    ensures selected.Some? ==> r == selected.value.id
  {
    match selected
    case None => ""
    case Some(l) => if l.id != "" then l.id else ""
  }

  /** Selecting a lesson. Reselecting the shown lesson changes nothing;
      any other lesson replaces the selection and is shown fresh, with every
      question open and every exercise hidden. Expansion is never touched. */
  function Select(st: State, l: Lesson): (r: State)
    ensures r.selected == Some(l)
    ensures r.expanded == st.expanded
    ensures st.selected == Some(l) ==> r == st
    ensures st.selected != Some(l) ==>
              && |r.answers| == |l.quiz|
              && (forall i :: 0 <= i < |r.answers| ==> IsOpen(r.answers, i))
              && |r.revealed| == |l.exercises|
              && (forall j :: 0 <= j < |r.revealed| ==> !r.revealed[j])
  {
    if st.selected == Some(l) then st
    else st.(selected := Some(l), answers := Reset(l), revealed := Hidden(l))
  }

  /** Selecting a lesson as the page is written: the quiz slots are reset,
      but the exercise controls are keyed by position inside a lesson view
      that stays mounted, so each keeps its flag when the next lesson has an
      exercise at the same position. */
  function SelectAsWritten(st: State, l: Lesson): (r: State)
    ensures r.selected == Some(l)
    ensures r.expanded == st.expanded
    ensures st.selected == Some(l) ==> r == st
    ensures st.selected != Some(l) ==>
              && r.answers == Select(st, l).answers
              && |r.revealed| == |l.exercises|
              && (forall j :: 0 <= j < |r.revealed| ==>
                    (r.revealed[j] <==> st.selected.Some? && j < |st.revealed| && st.revealed[j]))
  {
    if st.selected == Some(l) then st
    else
      var kept := seq(|l.exercises|, j requires 0 <= j =>
                        st.selected.Some? && j < |st.revealed| && st.revealed[j]);
      st.(selected := Some(l), answers := Reset(l), revealed := kept)
  }

  /** Option `k` of question `qi` of the shown lesson has a button. */
  predicate OptionOnScreen(st: State, qi: nat, k: nat) {
    st.selected.Some? && qi < |st.selected.value.quiz| && k < |st.selected.value.quiz[qi].options|
  }

  /** Exercise `ei` of the shown lesson has a "Show Answer" button. */
  predicate ExerciseOnScreen(st: State, ei: nat) {
    st.selected.Some? && ei < |st.selected.value.exercises| && ei < |st.revealed|
  }

  /** One click. A click on a control that is on screen runs that
      control's handler; only the part of the state the control owns
      changes; a click on a control that is not on screen does nothing. */
  function Step(c: seq<CourseModule>, st: State, ev: Event): (r: State)
    ensures !ev.ToggleModule? ==> r.expanded == st.expanded
    ensures !ev.SelectLesson? ==> r.selected == st.selected
    ensures ev.ToggleModule? ==> r.(expanded := st.expanded) == st
    ensures ev.Answer? ==> r.revealed == st.revealed
    ensures ev.ShowAnswer? ==> r.answers == st.answers
    ensures ev.ToggleModule? && IsModuleId(c, ev.moduleId) ==>
              r.expanded == Toggle(st.expanded, ev.moduleId)
    ensures ev.SelectLesson? && ev.lesson in ShownLessons(c, st.expanded) ==>
              r == Select(st, ev.lesson)
    ensures ev.Answer? && OptionOnScreen(st, ev.quizIndex, ev.option) ==>
              r.answers == HandleAnswer(st.answers, ev.quizIndex, ev.option)
    ensures ev.ShowAnswer? && ExerciseOnScreen(st, ev.exerciseIndex) ==>
              r.revealed == st.revealed[ev.exerciseIndex := true]
    ensures && (ev.ToggleModule? && !IsModuleId(c, ev.moduleId) ==> r == st)
            && (ev.SelectLesson? && ev.lesson !in ShownLessons(c, st.expanded) ==> r == st)
            && (ev.Answer? && !OptionOnScreen(st, ev.quizIndex, ev.option) ==> r == st)
            && (ev.ShowAnswer? && !ExerciseOnScreen(st, ev.exerciseIndex) ==> r == st)
  {
    match ev
    case ToggleModule(id) =>
      if IsModuleId(c, id) then st.(expanded := Toggle(st.expanded, id)) else st
    case SelectLesson(l) =>
      if l in ShownLessons(c, st.expanded) then Select(st, l) else st
    case Answer(qi, k) =>
      if OptionOnScreen(st, qi, k) then st.(answers := HandleAnswer(st.answers, qi, k)) else st
    case ShowAnswer(ei) =>
      if ExerciseOnScreen(st, ei) then st.(revealed := st.revealed[ei := Click(st.revealed[ei])]) else st
  }

  /** The state after a series of clicks. */
  function Run(c: seq<CourseModule>, st: State, evs: seq<Event>): State
    decreases |evs|
  {
    if evs == [] then st else Run(c, Step(c, st, evs[0]), evs[1..])
  }

  /** Every click keeps the invariant. */
  lemma StepPreservesInv(c: seq<CourseModule>, st: State, ev: Event)
    requires Inv(c, st)
    ensures Inv(c, Step(c, st, ev))
  {
    match ev
    case ToggleModule(id) =>
      var r := Step(c, st, ev);
      forall y | y in r.expanded
        ensures IsModuleId(c, y)
      {
        if y != id {
          assert y in st.expanded;
        }
      }
    case SelectLesson(l) =>
      if l in ShownLessons(c, st.expanded) {
        ShownLessonsInCatalog(c, st.expanded, l);
      }
    case Answer(qi, k) =>
    case ShowAnswer(ei) =>
  }

  /** Every state reachable from the opening page satisfies the invariant. */
  lemma {:induction false} RunPreservesInv(c: seq<CourseModule>, st: State, evs: seq<Event>)
    requires Inv(c, st)
    ensures Inv(c, Run(c, st, evs))
    decreases |evs|
  {
    if evs != [] {
      StepPreservesInv(c, st, evs[0]);
      RunPreservesInv(c, Step(c, st, evs[0]), evs[1..]);
    }
  }

  /** An answered question keeps its answer under every click except moving
      to another lesson. */
  lemma AnswerIsFinal(c: seq<CourseModule>, st: State, ev: Event, i: int)
    requires 0 <= i < |st.answers| && st.answers[i] != Unanswered
    requires ev.SelectLesson? ==> st.selected == Some(ev.lesson)
    ensures |Step(c, st, ev).answers| == |st.answers|
    ensures Step(c, st, ev).answers[i] == st.answers[i]
  {
  }

  /** A revealed exercise stays revealed under every click except moving to
      another lesson. */
  lemma RevealIsOneWay(c: seq<CourseModule>, st: State, ev: Event, j: int)
    requires 0 <= j < |st.revealed| && st.revealed[j]
    requires ev.SelectLesson? ==> st.selected == Some(ev.lesson)
    ensures |Step(c, st, ev).revealed| == |st.revealed|
    ensures Step(c, st, ev).revealed[j]
  {
  }

  /** While the user stays on one lesson, whatever they click, answered
      questions keep their answers. */
  lemma {:induction false} StayingKeepsAnswers(c: seq<CourseModule>, st: State, evs: seq<Event>, i: int)
    requires forall e :: e in evs ==> !e.SelectLesson?
    requires 0 <= i < |st.answers| && st.answers[i] != Unanswered
    ensures |Run(c, st, evs).answers| == |st.answers| && Run(c, st, evs).answers[i] == st.answers[i]
    decreases |evs|
  {
    if evs != [] {
      assert evs[0] in evs;
      AnswerIsFinal(c, st, evs[0], i);
      StayingKeepsAnswers(c, Step(c, st, evs[0]), evs[1..], i);
    }
  }

  /** While the user stays on one lesson, whatever they click, revealed
      exercises stay revealed. */
  lemma {:induction false} StayingKeepsReveals(c: seq<CourseModule>, st: State, evs: seq<Event>, j: int)
    requires forall e :: e in evs ==> !e.SelectLesson?
    requires 0 <= j < |st.revealed| && st.revealed[j]
    ensures |Run(c, st, evs).revealed| == |st.revealed| && Run(c, st, evs).revealed[j]
    decreases |evs|
  {
    if evs != [] {
      assert evs[0] in evs;
      RevealIsOneWay(c, st, evs[0], j);
      StayingKeepsReveals(c, Step(c, st, evs[0]), evs[1..], j);
    }
  }

  /** In the corrected page, leaving a lesson and coming back shows it
      fresh: all questions open, all exercises hidden, and the sidebar as it
      was. As written, only the quiz and sidebar half holds
      (`RevisitResetsQuizAsWritten`). */
  lemma RevisitStartsFresh(c: seq<CourseModule>, st: State, l1: Lesson, l2: Lesson)
    requires st.selected == Some(l1) && l1 != l2
    requires l1 in ShownLessons(c, st.expanded) && l2 in ShownLessons(c, st.expanded)
    ensures var back := Step(c, Step(c, st, SelectLesson(l2)), SelectLesson(l1));
            && back.selected == Some(l1)
            && back.expanded == st.expanded
            && |back.answers| == |l1.quiz|
            && (forall i :: 0 <= i < |back.answers| ==> IsOpen(back.answers, i))
            && (forall j :: 0 <= j < |back.revealed| ==> !back.revealed[j])
  {
  }

  /** One click on the page as written: a lesson click goes through
      `SelectAsWritten`, every other click is handled as in `Step`. */
  function StepAsWritten(c: seq<CourseModule>, st: State, ev: Event): (r: State)
    ensures !ev.SelectLesson? ==> r == Step(c, st, ev)
    ensures ev.SelectLesson? && ev.lesson in ShownLessons(c, st.expanded) ==>
              r == SelectAsWritten(st, ev.lesson) && r.answers == Step(c, st, ev).answers
    ensures ev.SelectLesson? && ev.lesson !in ShownLessons(c, st.expanded) ==> r == st
    ensures r.expanded == Step(c, st, ev).expanded
  {
    match ev
    case SelectLesson(l) =>
      if l in ShownLessons(c, st.expanded) then SelectAsWritten(st, l) else st
    case _ => Step(c, st, ev)
  }

  /** The state after a series of clicks on the page as written. */
  function RunAsWritten(c: seq<CourseModule>, st: State, evs: seq<Event>): State
    decreases |evs|
  {
    if evs == [] then st else RunAsWritten(c, StepAsWritten(c, st, evs[0]), evs[1..])
  }

  /** The page as written keeps the invariant too. */
  lemma StepAsWrittenPreservesInv(c: seq<CourseModule>, st: State, ev: Event)
    requires Inv(c, st)
    ensures Inv(c, StepAsWritten(c, st, ev))
  {
    if ev.SelectLesson? && ev.lesson in ShownLessons(c, st.expanded) {
      ShownLessonsInCatalog(c, st.expanded, ev.lesson);
    } else {
      StepPreservesInv(c, st, ev);
    }
  }

  /** Every state the page as written can reach satisfies the invariant. */
  lemma {:induction false} RunAsWrittenPreservesInv(c: seq<CourseModule>, st: State, evs: seq<Event>)
    requires Inv(c, st)
    ensures Inv(c, RunAsWritten(c, st, evs))
    decreases |evs|
  {
    if evs != [] {
      StepAsWrittenPreservesInv(c, st, evs[0]);
      RunAsWrittenPreservesInv(c, StepAsWritten(c, st, evs[0]), evs[1..]);
    }
  }

  /** Without a lesson click the corrected page and the page as written
      agree, so every property of `Run` over such clicks (for instance
      `StayingKeepsAnswers`, `StayingKeepsReveals`) holds of the page as
      written. */
  lemma {:induction false} RunAsWrittenAgreesWithoutNavigation(c: seq<CourseModule>, st: State, evs: seq<Event>)
    requires forall e :: e in evs ==> !e.SelectLesson?
    ensures RunAsWritten(c, st, evs) == Run(c, st, evs)
    decreases |evs|
  {
    if evs != [] {
      assert evs[0] in evs;
      RunAsWrittenAgreesWithoutNavigation(c, Step(c, st, evs[0]), evs[1..]);
    }
  }

  /** On the page as written, leaving a lesson and coming back shows all its
      questions open with the sidebar as it was; exercise `j` comes back
      revealed exactly when it was revealed before and the lesson visited
      in between also has an exercise at position `j`. */
  lemma RevisitResetsQuizAsWritten(c: seq<CourseModule>, st: State, l1: Lesson, l2: Lesson)
    requires Inv(c, st)
    requires st.selected == Some(l1) && l1 != l2
    requires l1 in ShownLessons(c, st.expanded) && l2 in ShownLessons(c, st.expanded)
    ensures var back := StepAsWritten(c, StepAsWritten(c, st, SelectLesson(l2)), SelectLesson(l1));
            && back.selected == Some(l1)
            && back.expanded == st.expanded
            && |back.answers| == |l1.quiz|
            && (forall i :: 0 <= i < |back.answers| ==> IsOpen(back.answers, i))
            && |back.revealed| == |l1.exercises|
            && (forall j :: 0 <= j < |back.revealed| ==>
                  (back.revealed[j] <==> j < |l2.exercises| && st.revealed[j]))
  {
  }

  /** With unique, non-empty lesson ids, the sidebar highlights exactly the
      selected lesson, and nothing when no lesson is selected. */
  lemma HighlightIsSelection(c: seq<CourseModule>, st: State, l: Lesson)
    requires WellFormed(c) && Inv(c, st) && l in AllLessons(c)
    ensures Highlighted(CurrentLessonId(st.selected), l) <==> st.selected == Some(l)
  {
    var all := AllLessons(c);
    var i :| 0 <= i < |all| && all[i] == l;
    if st.selected.Some? {
      var s := st.selected.value;
      var j :| 0 <= j < |all| && all[j] == s;
      if s.id == l.id {
        assert i == j;
      }
    }
  }

  /** Clicking a module header flips that module's expansion and nothing
      else; clicking it twice restores every module's expansion. */
  lemma ToggleModuleTwice(c: seq<CourseModule>, st: State, id: string)
    requires IsModuleId(c, id)
    ensures var once := Step(c, st, ToggleModule(id));
            var twice := Step(c, once, ToggleModule(id));
            && (id in once.expanded <==> id !in st.expanded)
            && (forall y :: y != id ==> (y in once.expanded <==> y in st.expanded))
            && twice.(expanded := st.expanded) == st
            && (forall y :: y in twice.expanded <==> y in st.expanded)
  {
    ToggleTwice(st.expanded, id);
  }

  /** Whatever was revealed before, a lesson reached through the sidebar
      shows every exercise hidden. */
  lemma SelectHidesAnswers(st: State, l: Lesson, j: int)
    requires st.selected != Some(l) && 0 <= j < |l.exercises|
    ensures Render(l.exercises[j], Select(st, l).revealed[j]).shownCommand == None
  {
  }

  /** What the main panel shows. */
  datatype MainView =
    | Welcome
    | LessonPage(title: string, quiz: Option<seq<QuestionView>>, exercises: Option<seq<ExerciseView>>)

  /** The exercise section of a lesson, or `None` when the lesson has no
      exercises and the section (with its heading) is left out. */
  function RenderExercises(l: Lesson, revealed: seq<bool>): (r: Option<seq<ExerciseView>>)
    ensures r.None? <==> l.exercises == []
    ensures r.Some? ==> |r.value| == |l.exercises|
    ensures r.Some? ==> forall j :: 0 <= j < |l.exercises| ==>
              r.value[j] == Render(l.exercises[j], j < |revealed| && revealed[j])
    ensures r.Some? ==> forall j :: 0 <= j < |l.exercises| ==>
              && r.value[j].scenario == l.exercises[j].scenario
              && (r.value[j].shownCommand.Some? <==> j < |revealed| && revealed[j])
              && (r.value[j].shownCommand.Some? ==> r.value[j].shownCommand.value == l.exercises[j].expectedCommand)
  {
    if l.exercises == [] then None
    else Some(seq(|l.exercises|, j requires 0 <= j < |l.exercises| =>
                Render(l.exercises[j], j < |revealed| && revealed[j])))
  }

  /** The main panel: a welcome text while no lesson is selected, otherwise
      the selected lesson with its quiz and exercise sections. */
  function RenderMain(st: State): (v: MainView)
    ensures v.Welcome? <==> st.selected.None?
    ensures v.LessonPage? ==> && v.title == st.selected.value.title
                              && v.quiz == RenderQuiz(st.selected.value, st.answers)
                              && v.exercises == RenderExercises(st.selected.value, st.revealed)
  {
    match st.selected
    case None => Welcome
    case Some(l) => LessonPage(l.title, RenderQuiz(l, st.answers), RenderExercises(l, st.revealed))
  }

  /** A one-module course walked through: the page opens on its lesson;
      choosing the third of four options when the second is right marks it
      red and names the right one; showing the exercise's answer reveals the
      command; clicking the module header lists the lesson. */
  lemma OneModuleWalkthrough()
    ensures var q := Quiz("Which command lists containers?", ["A", "B", "C", "D"], 1);
            var ex := ExerciseItem("List all containers.", "docker ps -a");
            var lesson := Lesson("fund-1", "Basics", "", [q], [ex]);
            var c := [CourseModule("mod-01", "Fundamentals", [lesson], None)];
            var s0 := Init(c);
            var s1 := Step(c, s0, Answer(0, 2));
            var s2 := Step(c, s1, ShowAnswer(0));
            var s3 := Step(c, s2, ToggleModule("mod-01"));
            && s0.selected == Some(lesson)
            && RenderQuestion(q, s1.answers, 0) ==
                 QuestionView(q.question, [Plain, Plain, Red, Plain], true, Some(Incorrect(Some("B"))))
            && RenderMain(s2).exercises == Some([ExerciseView(ex.scenario, "Answer Shown", true, Some("docker ps -a"))])
            && ShownLessons(c, s3.expanded) == [lesson]
  {
    var q := Quiz("Which command lists containers?", ["A", "B", "C", "D"], 1);
    var ex := ExerciseItem("List all containers.", "docker ps -a");
    var lesson := Lesson("fund-1", "Basics", "", [q], [ex]);
    var c := [CourseModule("mod-01", "Fundamentals", [lesson], None)];
    assert IsModuleId(c, "mod-01") by {
      assert c[0] in c;
    }
    var s0 := Init(c);
    assert s0.selected == Some(lesson);
    var s1 := Step(c, s0, Answer(0, 2));
    assert s1.answers == [2];
    var v := RenderQuestion(q, s1.answers, 0);
    assert v.highlights == [Plain, Plain, Red, Plain];
    assert v.verdict == Some(Incorrect(Some("B")));
    var s2 := Step(c, s1, ShowAnswer(0));
    assert s2.revealed == [true];
    var s3 := Step(c, s2, ToggleModule("mod-01"));
    assert s3.expanded == ["mod-01"];
    assert ListedLessons(c[0], s3.expanded) == [lesson];
    assert ShownLessons(c, s3.expanded) == [lesson] + ShownLessons(c[1..], s3.expanded);
    var e := RenderExercises(lesson, s2.revealed);
    assert e.Some? && |e.value| == 1 && e.value[0] == Render(ex, true);
    assert e.value == [Render(ex, true)];
  }

  /** The page as written shows a lesson's expected command without any
      click on it: reveal the first exercise of one lesson, move to another
      lesson with an exercise, and that exercise comes up revealed. */
  lemma AsWrittenRevealLeaks()
    ensures var a := Lesson("a", "A", "", [], [ExerciseItem("run it", "docker run x")]);
            var b := Lesson("b", "B", "", [], [ExerciseItem("list them", "docker ps -a")]);
            var st := State(Some(a), [], [], [true]);
            && Render(b.exercises[0], SelectAsWritten(st, b).revealed[0]).shownCommand == Some("docker ps -a")
            && Render(b.exercises[0], Select(st, b).revealed[0]).shownCommand == None
  {
  }

}
