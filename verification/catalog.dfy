/**
 The course catalog: modules of lessons, each lesson carrying quiz questions
 and exercises. The catalog is compiled into the page and never changes, so
 only its shape is modelled here, together with the facts the user interface
 relies on (well-formed answer indices, unique lesson ids).
 */
module Catalog {
  import opened Wrappers

  /** A single-choice question; `answer` indexes the correct option. */
  datatype Quiz = Quiz(question: string, options: seq<string>, answer: int)

  /** A scenario whose expected command is hidden until revealed. */
  datatype ExerciseItem = ExerciseItem(scenario: string, expectedCommand: string)

  datatype Lesson = Lesson(
    id: string,
    title: string,
    content: string,
    quiz: seq<Quiz>,
    exercises: seq<ExerciseItem>)

  datatype CourseModule = CourseModule(
    id: string,
    title: string,
    lessons: seq<Lesson>,
    description: Option<string>)

  /** The correct option of a question exists, so its text can be shown. */
  predicate WellFormedQuiz(q: Quiz) {
    0 <= q.answer < |q.options|
  }

  /** Every lesson of the catalog, module by module, in sidebar order. */
  function AllLessons(c: seq<CourseModule>): (r: seq<Lesson>)
    ensures forall l :: l in r <==> exists m :: m in c && l in m.lessons
  {
    if c == [] then []
    else
      var rest := AllLessons(c[1..]);
      assert forall m :: m in c <==> m == c[0] || m in c[1..];
      c[0].lessons + rest
  }

  /** The catalog facts the interface depends on: every question's answer
      index is in range, and lesson ids are non-empty and distinct. */
  predicate WellFormed(c: seq<CourseModule>) {
    var all := AllLessons(c);
    && (forall i :: 0 <= i < |all| ==> all[i].id != "")
    && (forall i, j :: 0 <= i < |all| && 0 <= j < |all| && all[i].id == all[j].id ==> i == j)
    && (forall i, k :: 0 <= i < |all| && 0 <= k < |all[i].quiz| ==> WellFormedQuiz(all[i].quiz[k]))
  }

  /** The lesson selected when the page opens: the first lesson of the first
      module, or nothing when there is no first module or it has no lessons. */
  function InitialLesson(c: seq<CourseModule>): (r: Option<Lesson>)
    ensures r.Some? ==> r.value in AllLessons(c)
    ensures r.Some? ==> c != [] && c[0].lessons != [] && r.value == c[0].lessons[0]
    ensures r.Some? ==> r.value == AllLessons(c)[0]
    ensures r.None? <==> c == [] || c[0].lessons == []
  {
    if c != [] && c[0].lessons != [] then Some(c[0].lessons[0]) else None
  }

  /** When no module is empty, the initial lesson is simply the first lesson
      of the whole catalog, and there is one exactly when the catalog is
      non-empty. */
  lemma InitialLessonIsFirstOfCatalog(c: seq<CourseModule>)
    requires forall m :: m in c ==> m.lessons != []
    ensures InitialLesson(c).Some? <==> c != []
    ensures InitialLesson(c).Some? ==> InitialLesson(c).value == AllLessons(c)[0]
  {
    if c != [] {
      assert c[0] in c;
    }
  }

}
