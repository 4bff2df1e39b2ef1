/** The timed mock-test session of src/hooks/useQuizLogic.ts: one state record
    (questions, current position, answers and statuses keyed by question id,
    remaining seconds, finished flag, score) replaced by each handler, a
    once-a-second timer, and negative-marking scoring. */
module QuizLogic {
  import opened Text

  datatype QuestionStatus = NotVisited | Visited | Answered | MarkedForReview

  datatype QuizQuestion = QuizQuestion(id: int, text: string, options: seq<string>, answer: string)

  /** The ids of a question list. */
  function Ids(qs: seq<QuizQuestion>): set<int>
  {
    set q | q in qs :: q.id
  }

  /** `newStatus[id] === "not_visited"` upgraded to "visited"; any other
      status, and an id without a status, is left alone. */
  function Visit(status: map<int, QuestionStatus>, id: int): map<int, QuestionStatus>
  {
    if id in status && status[id] == NotVisited then status[id := Visited] else status
  }

  /** No question that had left "not_visited" is back in it (or lost its status). */
  ghost predicate NeverUnvisits(before: map<int, QuestionStatus>, after: map<int, QuestionStatus>)
  {
    forall id :: id in before && before[id] != NotVisited ==> id in after && after[id] != NotVisited
  }

  /** Visiting changes at most the visited id's status, only from
      "not_visited" to "visited", and never reverts progress. */
  lemma VisitSpec(status: map<int, QuestionStatus>, id: int)
    ensures Visit(status, id).Keys == status.Keys
    ensures id in status ==> Visit(status, id)[id] != NotVisited
    ensures forall k :: k in status && k != id ==> Visit(status, id)[k] == status[k]
    ensures id in status && status[id] != NotVisited ==> Visit(status, id)[id] == status[id]
    ensures NeverUnvisits(status, Visit(status, id))
  {
  }

  /** A question counts as attempted when its answer is present and non-empty
      (`if (ans)`). */
  predicate IsAttempted(q: QuizQuestion, answers: map<int, string>)
  {
    q.id in answers && answers[q.id] != ""
  }

  /** Strict string equality with the key, as `ans === q.answer`. */
  predicate IsCorrect(q: QuizQuestion, answers: map<int, string>)
  {
    IsAttempted(q, answers) && answers[q.id] == q.answer
  }

  function Attempted(qs: seq<QuizQuestion>, answers: map<int, string>): nat
  {
    if |qs| == 0 then 0
    else Attempted(qs[..|qs| - 1], answers) + (if IsAttempted(qs[|qs| - 1], answers) then 1 else 0)
  }

  function Correct(qs: seq<QuizQuestion>, answers: map<int, string>): nat
  {
    if |qs| == 0 then 0
    else Correct(qs[..|qs| - 1], answers) + (if IsCorrect(qs[|qs| - 1], answers) then 1 else 0)
  }

  function Wrong(qs: seq<QuizQuestion>, answers: map<int, string>): nat
  {
    if |qs| == 0 then 0
    else
      var q := qs[|qs| - 1];
      Wrong(qs[..|qs| - 1], answers) + (if IsAttempted(q, answers) && !IsCorrect(q, answers) then 1 else 0)
  }

  /** +1 per correct answer, -0.25 per wrong one, nothing for the rest. */
  function Score(qs: seq<QuizQuestion>, answers: map<int, string>): real
  {
    Correct(qs, answers) as real - 0.25 * Wrong(qs, answers) as real
  }

  /** Every attempted question is either correct or wrong, and at most all
      questions are attempted. */
  lemma {:induction false} CorrectPlusWrong(qs: seq<QuizQuestion>, answers: map<int, string>)
    ensures Correct(qs, answers) + Wrong(qs, answers) == Attempted(qs, answers)
    ensures Attempted(qs, answers) <= |qs|
  {
    if |qs| > 0 {
      CorrectPlusWrong(qs[..|qs| - 1], answers);
    }
  }

  /** The score lies between -0.25 per attempted question and +1 per
      attempted question, hence between -0.25 n and n. */
  lemma ScoreBounds(qs: seq<QuizQuestion>, answers: map<int, string>)
    ensures -0.25 * Attempted(qs, answers) as real <= Score(qs, answers) <= Attempted(qs, answers) as real
    ensures -0.25 * |qs| as real <= Score(qs, answers) <= |qs| as real
    ensures Score(qs, answers) == Attempted(qs, answers) as real <==> Wrong(qs, answers) == 0
  {
    CorrectPlusWrong(qs, answers);
  }

  /** Matching is strict: an answer that differs from the key only by a
      trailing space is counted wrong. */
  lemma StrictMatching(id: int)
    ensures var q := QuizQuestion(id, "", ["4"], "4");
      Correct([q], map[id := "4 "]) == 0 && Wrong([q], map[id := "4 "]) == 1
  {
    var q := QuizQuestion(id, "", ["4"], "4");
    assert [q][..0] == [];
    assert "4 " != "4";
  }

  /** The hook's state record and its handlers. `Tick` is the body of the
      one-second interval; `loading` is the separate loading cell, which
      together with `isFinished` decides whether the interval runs. */
  class QuizSession {
    var questions: seq<QuizQuestion>
    var currentIndex: nat
    var answers: map<int, string>
    var status: map<int, QuestionStatus>
    var timeLeft: int
    var isFinished: bool
    var score: Option<real>
    var loading: bool

    /** Every question has a status, only questions have one, and a question
        marked "answered" has an answer recorded. */
    ghost predicate Valid()
      reads this
    {
      && status.Keys == Ids(questions)
      && forall id :: id in status && status[id] == Answered ==> id in answers
    }

    /** `questions[currentIndex]` exists. */
    predicate HasCurrent()
      reads this
    {
      currentIndex < |questions|
    }

    constructor (initialTime: int)
      ensures Valid()
      ensures questions == [] && currentIndex == 0 && answers == map[] && status == map[]
      ensures timeLeft == initialTime && !isFinished && score == None && loading
    {
      questions := [];
      currentIndex := 0;
      answers := map[];
      status := map[];
      timeLeft := initialTime;
      isFinished := false;
      score := None;
      loading := true;
    }

    /** `loadQuestions`: `None` is a failed fetch, which leaves the state as it
        was. A successful fetch sets the questions and a fresh status record in
        which every question is "not_visited" except the first, which is
        "visited". The rest of the record (position, answers, timer, score) is
        kept, as the spread of `prev` does. */
    method LoadQuestions(fetched: Option<seq<QuizQuestion>>)
      requires Valid()
      modifies this
      ensures Valid() && !loading
      ensures fetched.None? ==> questions == old(questions) && status == old(status)
      ensures fetched.Some? ==> questions == fetched.value
      ensures fetched.Some? ==> forall id :: id in status ==>
        status[id] == (if id == fetched.value[0].id then Visited else NotVisited)
      ensures currentIndex == old(currentIndex) && answers == old(answers)
      ensures timeLeft == old(timeLeft) && isFinished == old(isFinished) && score == old(score)
    {
      loading := true;
      if fetched.Some? {
        var data := fetched.value;
        var initialStatus: map<int, QuestionStatus> := map[];
        var i := 0;
        while i < |data|
          invariant 0 <= i <= |data|
          invariant initialStatus.Keys == Ids(data[..i])
          invariant forall id :: id in initialStatus ==> initialStatus[id] == NotVisited
        {
          assert data[..i + 1] == data[..i] + [data[i]];
          initialStatus := initialStatus[data[i].id := NotVisited];
          i := i + 1;
        }
        assert data[..i] == data;
        if |data| > 0 {
          initialStatus := initialStatus[data[0].id := Visited];
        }
        questions := data;
        status := initialStatus;
      }
      loading := false;
    }

    /** One second of the countdown. The interval only exists while the quiz
        is neither finished nor loading; then the time drops by one, and at one
        second or less it becomes 0 and the quiz finishes in the same step,
        leaving the score unset. */
    method Tick()
      requires Valid()
      modifies this
      ensures Valid()
      ensures old(isFinished || loading) ==> timeLeft == old(timeLeft) && isFinished == old(isFinished)
      ensures !old(isFinished || loading) && old(timeLeft) > 1 ==> timeLeft == old(timeLeft) - 1 && !isFinished
      ensures !old(isFinished || loading) && old(timeLeft) <= 1 ==> timeLeft == 0 && isFinished
      ensures !old(isFinished || loading) ==> timeLeft >= 0
      ensures questions == old(questions) && currentIndex == old(currentIndex) && loading == old(loading)
      ensures answers == old(answers) && status == old(status) && score == old(score)
    {
      if !isFinished && !loading {
        if timeLeft <= 1 {
          timeLeft := 0;
          isFinished := true;
        } else {
          timeLeft := timeLeft - 1;
        }
      }
    }

    /** `handleAnswer(answer)`: records the answer of the current question,
        overwriting an earlier one, and marks that question "answered". There
        is no finished guard. `ok` is false where the source would fail on a
        missing current question; the state is then unchanged. */
    method HandleAnswer(answer: string) returns (ok: bool)
      requires Valid()
      modifies this
      ensures Valid()
      ensures ok == old(HasCurrent())
      ensures questions == old(questions) && currentIndex == old(currentIndex) && timeLeft == old(timeLeft)
      ensures isFinished == old(isFinished) && score == old(score) && loading == old(loading)
      ensures ok ==> var id := questions[currentIndex].id;
        answers == old(answers)[id := answer] && status == old(status)[id := Answered]
      ensures !ok ==> answers == old(answers) && status == old(status)
      ensures NeverUnvisits(old(status), status)
    {
      ok := HasCurrent();
      if ok {
        var id := questions[currentIndex].id;
        answers := answers[id := answer];
        status := status[id := Answered];
      }
    }

    /** `clearAnswer()`: removes only the current question's answer and puts
        its status back to "visited" (never "not_visited"). */
    method ClearAnswer() returns (ok: bool)
      requires Valid()
      modifies this
      ensures Valid()
      ensures ok == old(HasCurrent())
      ensures questions == old(questions) && currentIndex == old(currentIndex) && timeLeft == old(timeLeft)
      ensures isFinished == old(isFinished) && score == old(score) && loading == old(loading)
      ensures ok ==> var id := questions[currentIndex].id;
        answers == old(answers) - {id} && status == old(status)[id := Visited]
      ensures !ok ==> answers == old(answers) && status == old(status)
      ensures NeverUnvisits(old(status), status)
    {
      ok := HasCurrent();
      if ok {
        var id := questions[currentIndex].id;
        answers := answers - {id};
        status := status[id := Visited];
      }
    }

    /** `navigateTo(index)`: out of range it changes nothing; otherwise the
        target becomes current and is upgraded to "visited" if it was
        "not_visited". Answers are never touched. */
    method NavigateTo(index: int)
      requires Valid()
      modifies this
      ensures Valid()
      ensures !(0 <= index < |questions|) ==> currentIndex == old(currentIndex) && status == old(status)
      ensures 0 <= index < |questions| ==>
        currentIndex == index && status == Visit(old(status), questions[index].id)
      ensures NeverUnvisits(old(status), status)
      ensures questions == old(questions) && answers == old(answers) && timeLeft == old(timeLeft)
      ensures isFinished == old(isFinished) && score == old(score) && loading == old(loading)
    {
      if 0 <= index < |questions| {
        VisitSpec(status, questions[index].id);
        currentIndex := index;
        status := Visit(status, questions[index].id);
      }
    }

    /** `markForReviewAndNext()`: the current question becomes
        "marked_for_review" even if it was answered, and the position moves on
        by one, staying on the last question instead of wrapping; the new
        current question is upgraded from "not_visited" to "visited". */
    method MarkForReviewAndNext() returns (ok: bool)
      requires Valid()
      modifies this
      ensures Valid()
      ensures ok == old(HasCurrent())
      ensures questions == old(questions) && answers == old(answers) && timeLeft == old(timeLeft)
      ensures isFinished == old(isFinished) && score == old(score) && loading == old(loading)
      ensures ok ==> currentIndex < |questions|
      ensures ok ==> currentIndex == (if old(currentIndex) + 1 < |questions| then old(currentIndex) + 1 else old(currentIndex))
      ensures ok ==> status == Visit(old(status)[old(questions[currentIndex]).id := MarkedForReview], questions[currentIndex].id)
      ensures !ok ==> currentIndex == old(currentIndex) && status == old(status)
      ensures ok && old(currentIndex) + 1 == |questions| ==> status[questions[currentIndex].id] == MarkedForReview
      ensures NeverUnvisits(old(status), status)
    {
      ok := HasCurrent();
      if ok {
        var id := questions[currentIndex].id;
        var newStatus := status[id := MarkedForReview];
        var nextIndex := if currentIndex + 1 < |questions| then currentIndex + 1 else currentIndex;
        VisitSpec(newStatus, questions[nextIndex].id);
        currentIndex := nextIndex;
        status := Visit(newStatus, questions[nextIndex].id);
      }
    }

    /** `submitQuiz()`: counts correct and wrong answers over the questions
        with strict equality and finishes the quiz with the negative-marking
        score. */
    method SubmitQuiz()
      requires Valid()
      modifies this
      ensures Valid()
      ensures isFinished && score == Some(Score(questions, answers))
      ensures questions == old(questions) && currentIndex == old(currentIndex) && answers == old(answers)
      ensures status == old(status) && timeLeft == old(timeLeft) && loading == old(loading)
    {
      var correct := 0;
      var wrong := 0;
      var i := 0;
      while i < |questions|
        invariant 0 <= i <= |questions|
        invariant correct == Correct(questions[..i], answers)
        invariant wrong == Wrong(questions[..i], answers)
      {
        var q := questions[i];
        assert questions[..i + 1][..i] == questions[..i];
        if q.id in answers && answers[q.id] != "" {
          if answers[q.id] == q.answer {
            correct := correct + 1;
          } else {
            wrong := wrong + 1;
          }
        }
        i := i + 1;
      }
      assert questions[..i] == questions;
      isFinished := true;
      score := Some(correct as real - 0.25 * wrong as real);
    }
  }
}
