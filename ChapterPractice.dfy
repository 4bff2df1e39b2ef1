/** The chapter-practice hook of src/hooks/useChapterPracticeLogic.ts: three
    state cells (the questions, the current index and the selected answer)
    and the handlers that update them. */
module ChapterPractice {
  import opened Text

  datatype ChapterQuestion = ChapterQuestion(id: int, text: string, options: seq<string>, answer: string, explanation: string)

  class ChapterPractice {
    var questions: seq<ChapterQuestion>
    var currentIndex: nat
    var selectedAnswer: Option<string>
    var loading: bool

    constructor ()
      ensures questions == [] && currentIndex == 0 && selectedAnswer == None && loading
      ensures IndexInRange()
    {
      questions := [];
      currentIndex := 0;
      selectedAnswer := None;
      loading := true;
    }

    /** The index stays within [0, max(0, n - 1)]. */
    predicate IndexInRange()
      reads this
    {
      currentIndex == 0 || currentIndex < |questions|
    }

    /** An answer is locked in once a non-empty one is selected. */
    predicate Locked()
      reads this
    {
      Truthy(selectedAnswer)
    }

    /** The load effect: `None` is a failed fetch, which keeps the previous
        questions; loading ends either way. The index and the selection are
        not reset. */
    method LoadQuestions(fetched: Option<seq<ChapterQuestion>>)
      modifies this
      ensures questions == (if fetched.Some? then fetched.value else old(questions))
      ensures currentIndex == old(currentIndex) && selectedAnswer == old(selectedAnswer) && !loading
    {
      if fetched.Some? {
        questions := fetched.value;
      }
      loading := false;
    }

    /** `handleAnswerSelect(answer)`: takes effect only while nothing is
        selected, so the first answer locks. */
    method HandleAnswerSelect(answer: string)
      modifies this
      ensures old(Locked()) ==> selectedAnswer == old(selectedAnswer)
      ensures !old(Locked()) ==> selectedAnswer == Some(answer)
      ensures questions == old(questions) && currentIndex == old(currentIndex) && loading == old(loading)
    {
      if !Truthy(selectedAnswer) {
        selectedAnswer := Some(answer);
      }
    }

    /** `handleNext`: one question on and the selection cleared, unless at
        the last question, where nothing changes. */
    method HandleNext()
      modifies this
      ensures old(currentIndex) < |questions| - 1 ==> currentIndex == old(currentIndex) + 1 && selectedAnswer == None
      ensures !(old(currentIndex) < |questions| - 1) ==> currentIndex == old(currentIndex) && selectedAnswer == old(selectedAnswer)
      ensures old(IndexInRange()) ==> IndexInRange()
      ensures questions == old(questions) && loading == old(loading)
    {
      if currentIndex < |questions| - 1 {
        currentIndex := currentIndex + 1;
        selectedAnswer := None;
      }
    }

    /** `handlePrev`: one question back and the selection cleared, unless at
        the first question, where nothing changes. */
    method HandlePrev()
      modifies this
      ensures old(currentIndex) > 0 ==> currentIndex == old(currentIndex) - 1 && selectedAnswer == None
      ensures old(currentIndex) == 0 ==> currentIndex == 0 && selectedAnswer == old(selectedAnswer)
      ensures old(IndexInRange()) ==> IndexInRange()
      ensures questions == old(questions) && loading == old(loading)
    {
      if currentIndex > 0 {
        currentIndex := currentIndex - 1;
        selectedAnswer := None;
      }
    }

    /** `questions[currentIndex]`, undefined when there is no such question.
        While the index stays in range, a loaded list always has a current
        question, and that question is one of the loaded ones. */
    function CurrentQuestion(): (r: Option<ChapterQuestion>)
      reads this
      ensures IndexInRange() && |questions| > 0 ==> r.Some?
      ensures r.Some? ==> r.value in questions
      ensures r.Some? <==> currentIndex < |questions|
      ensures r.Some? ==> r.value == questions[currentIndex]
    {
      if currentIndex < |questions| then Some(questions[currentIndex]) else None
    }
  }
}
