/**
 The quiz control of a lesson view. The view keeps one integer slot per
 question; the sentinel -1 marks an unanswered question, any other value is
 the option index the user chose. The first answer to a question is final.
 */
module QuizControl {
  import opened Wrappers
  import opened Catalog

  /** The value of a slot whose question has not been answered. */
  const Unanswered: int := -1

  /** `answers[i]` as JavaScript evaluates it: `None` is `undefined`, which
      is what any index outside the array yields. */
  function Read(answers: seq<int>, i: int): (r: Option<int>)
    ensures r.Some? <==> 0 <= i < |answers|
  {
    if 0 <= i < |answers| then Some(answers[i]) else None
  }

  /** Question `i` can still take an answer: its slot exists and holds the
      sentinel. `undefined` is not the sentinel, so a missing slot is closed. */
  predicate IsOpen(answers: seq<int>, i: int) {
    Read(answers, i) == Some(Unanswered)
  }

  /** The slots a lesson view starts from whenever its lesson changes. */
  function Reset(lesson: Lesson): (r: seq<int>)
    ensures |r| == |lesson.quiz|
    ensures forall i :: 0 <= i < |r| ==> IsOpen(r, i)
  {
    seq(|lesson.quiz|, _ => Unanswered)
  }

  /** The click handler of an option button: a closed or missing slot is left
      alone, an open one takes the chosen option, and nothing else moves. */
  function HandleAnswer(answers: seq<int>, quizIndex: int, selectedOption: int): (r: seq<int>)
    ensures |r| == |answers|
    ensures forall j :: 0 <= j < |answers| && j != quizIndex ==> r[j] == answers[j]
    ensures IsOpen(answers, quizIndex) ==> r[quizIndex] == selectedOption
    ensures !IsOpen(answers, quizIndex) ==> r == answers
  {
    if !IsOpen(answers, quizIndex) then answers
    else answers[quizIndex := selectedOption]
  }

  /** One call of the click handler. */
  datatype AnswerClick = AnswerClick(quizIndex: int, option: int)

  /** The slots after a series of clicks, handled one after the other. */
  function AnswerAll(answers: seq<int>, clicks: seq<AnswerClick>): (r: seq<int>)
    ensures |r| == |answers|
    decreases |clicks|
  {
    if clicks == [] then answers
    else AnswerAll(HandleAnswer(answers, clicks[0].quizIndex, clicks[0].option), clicks[1..])
  }

  /** Reference definition of "the first answer wins": the option of the
      first click on question `i` that closes it, or the sentinel if none
      does. A click carrying the sentinel itself writes it back and so
      leaves the question open. */
  function FirstAnswer(clicks: seq<AnswerClick>, i: int): int
    decreases |clicks|
  {
    if clicks == [] then Unanswered
    else if clicks[0].quizIndex == i && clicks[0].option != Unanswered then clicks[0].option
    else FirstAnswer(clicks[1..], i)
  }

  /** An answered question keeps its answer whatever is clicked afterwards. */
  lemma {:induction false} AnsweredSlotIsFinal(answers: seq<int>, clicks: seq<AnswerClick>, i: int)
    requires 0 <= i < |answers| && answers[i] != Unanswered
    ensures AnswerAll(answers, clicks)[i] == answers[i]
    decreases |clicks|
  {
    if clicks != [] {
      var next := HandleAnswer(answers, clicks[0].quizIndex, clicks[0].option);
      assert next[i] == answers[i];
      AnsweredSlotIsFinal(next, clicks[1..], i);
    }
  }

  /** Starting from an open question, the slot ends up holding exactly the
      first closing answer given to it. */
  lemma {:induction false} FirstAnswerWins(answers: seq<int>, clicks: seq<AnswerClick>, i: int)
    requires IsOpen(answers, i)
    ensures AnswerAll(answers, clicks)[i] == FirstAnswer(clicks, i)
    decreases |clicks|
  {
    if clicks != [] {
      var c := clicks[0];
      var next := HandleAnswer(answers, c.quizIndex, c.option);
      if c.quizIndex == i && c.option != Unanswered {
        AnsweredSlotIsFinal(next, clicks[1..], i);
      } else {
        assert next[i] == Unanswered;
        FirstAnswerWins(next, clicks[1..], i);
      }
    }
  }

  /** Two answers to the same question: the second is ignored. */
  lemma SecondAnswerIgnored(answers: seq<int>, i: int, k: int, j: int)
    requires IsOpen(answers, i) && k != Unanswered
    ensures HandleAnswer(HandleAnswer(answers, i, k), i, j) == HandleAnswer(answers, i, k)
    ensures HandleAnswer(answers, i, k)[i] == k
  {
  }

  /** The verdict printed under an answered question. `correctAnswer` is the
      text of the correct option, `None` when that index has no option (the
      page then prints "undefined"). */
  datatype Verdict = Correct | Incorrect(correctAnswer: Option<string>)

  /** `q.options[k]` as JavaScript evaluates it. */
  function OptionText(q: Quiz, k: int): (r: Option<string>)
    ensures r.Some? <==> 0 <= k < |q.options|
  {
    if 0 <= k < |q.options| then Some(q.options[k]) else None
  }

  /** The verdict under a question whose slot reads `slot`: nothing while
      the question is open, otherwise "correct" exactly when the chosen
      option is the right one, and "incorrect" naming the right option. */
  function Judge(q: Quiz, slot: Option<int>): (r: Option<Verdict>)
    ensures r.None? <==> slot == Some(Unanswered)
    ensures r == Some(Correct) <==> slot != Some(Unanswered) && slot == Some(q.answer)
    ensures WellFormedQuiz(q) && r.Some? && r.value.Incorrect? ==>
              r.value.correctAnswer == Some(q.options[q.answer])
  {
    if slot == Some(Unanswered) then None
    else if slot == Some(q.answer) then Some(Correct)
    else Some(Incorrect(OptionText(q, q.answer)))
  }

  /** The text of a verdict as the page prints it. */
  function VerdictText(v: Verdict): (r: string)
    ensures v.Correct? <==> r == "Correct \U{2705}"
    ensures v.Incorrect? ==> |IncorrectPrefix| <= |r| && r[..|IncorrectPrefix|] == IncorrectPrefix
    ensures v.Incorrect? && v.correctAnswer.Some? ==> r[|IncorrectPrefix|..] == v.correctAnswer.value
  {
    match v
    case Correct => "Correct \U{2705}"
    case Incorrect(Some(t)) => IncorrectPrefix + t
    case Incorrect(None) => IncorrectPrefix + "undefined"
  }

  const IncorrectPrefix: string := "Incorrect \U{274C}. Correct answer: "

  /** How an option button is coloured. */
  datatype Highlight = Plain | Green | Red

  /** Option `i` is coloured only when it is the chosen one: green when it is
      also the correct one, red otherwise. */
  function OptionHighlight(q: Quiz, slot: Option<int>, i: nat): (h: Highlight)
    ensures h != Plain <==> slot == Some(i)
    ensures h == Green <==> slot == Some(i) && q.answer == i
  {
    if slot == Some(i) then (if q.answer == i then Green else Red) else Plain
  }

  /** What one question of the quiz section shows. */
  datatype QuestionView = QuestionView(
    question: string,
    highlights: seq<Highlight>,
    disabled: bool,
    verdict: Option<Verdict>)

  /** The rendering of question `idx` of a lesson from the current slots. */
  function RenderQuestion(q: Quiz, answers: seq<int>, idx: int): (v: QuestionView)
    ensures v.question == q.question
    ensures v.verdict == Judge(q, Read(answers, idx))
    ensures |v.highlights| == |q.options|
    ensures v.disabled <==> !IsOpen(answers, idx)
    ensures v.disabled <==> v.verdict.Some?
    ensures forall i :: 0 <= i < |q.options| ==>
              v.highlights[i] == OptionHighlight(q, Read(answers, idx), i)
  {
    var slot := Read(answers, idx);
    QuestionView(
      q.question,
      seq(|q.options|, i requires 0 <= i => OptionHighlight(q, slot, i)),
      slot != Some(Unanswered),
      Judge(q, slot))
  }

  /** The quiz section of a lesson, or `None` when the lesson has no
      questions and the section (with its heading) is left out. */
  function RenderQuiz(lesson: Lesson, answers: seq<int>): (r: Option<seq<QuestionView>>)
    ensures r.None? <==> lesson.quiz == []
    ensures r.Some? ==> |r.value| == |lesson.quiz|
    ensures r.Some? ==> forall k :: 0 <= k < |lesson.quiz| ==>
              r.value[k] == RenderQuestion(lesson.quiz[k], answers, k)
  {
    if lesson.quiz == [] then None
    else Some(seq(|lesson.quiz|, k requires 0 <= k < |lesson.quiz| => RenderQuestion(lesson.quiz[k], answers, k)))
  }

  /** Right after a reset nothing is coloured, nothing is disabled and no
      verdict is shown, for every question of the lesson. */
  lemma ResetShowsNothing(lesson: Lesson, k: int, i: int)
    requires 0 <= k < |lesson.quiz| && 0 <= i < |lesson.quiz[k].options|
    ensures RenderQuestion(lesson.quiz[k], Reset(lesson), k).verdict == None
    ensures !RenderQuestion(lesson.quiz[k], Reset(lesson), k).disabled
    ensures RenderQuestion(lesson.quiz[k], Reset(lesson), k).highlights[i] == Plain
  {
  }

  /** Once question `idx` is answered with option `k`, the colours and the
      verdict agree: option `k` is green exactly when the verdict is
      "correct", red exactly when it is "incorrect", and every other option
      stays plain. */
  lemma VerdictAgreesWithHighlight(q: Quiz, answers: seq<int>, idx: int, i: nat)
    requires WellFormedQuiz(q)
    requires 0 <= idx < |answers| && 0 <= answers[idx] < |q.options|
    requires i < |q.options|
    ensures var v := RenderQuestion(q, answers, idx);
            var k := answers[idx];
            && (v.verdict == Some(Correct) <==> v.highlights[k] == Green)
            && (v.verdict == Some(Incorrect(Some(q.options[q.answer]))) <==> v.highlights[k] == Red)
            && (i != k ==> v.highlights[i] == Plain)
  {
  }

}
