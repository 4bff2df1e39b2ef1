/** The untimed learning-mode session of src/pages/PracticeSessionPage.tsx:
    the answer normaliser, the session's state cells and their handlers, and
    the result summary shown when the session is finished. */
module PracticeSession {
  import opened Text

  /** The characters `normalizeStr` deletes: the regular expression
      `/[\$\s]/g`. */
  predicate Dropped(c: char) {
    c == '$' || IsWhitespace(c)
  }

  predicate Kept(c: char) {
    !Dropped(c)
  }

  /** `normalizeStr(s)`: "" for a missing or empty string; otherwise the string
      with every `$` and whitespace character deleted, then lower-cased. */
  function NormalizeStr(s: Option<string>): string
  {
    if !Truthy(s) then "" else Lower(Filter(s.value, Kept))
  }

  /** What a normalised string consists of: no `$`, no whitespace, no upper
      case, and one character for every character of the input the
      normaliser keeps, in order: position `i` holds the lower case of the
      `i`-th kept character. */
  lemma NormalizeStrSpec(s: Option<string>)
    ensures var r := NormalizeStr(s);
      && (forall i :: 0 <= i < |r| ==> !Dropped(r[i]) && !IsUpper(r[i]))
      && (!Truthy(s) ==> r == "")
      && (Truthy(s) ==> |r| == Count(s.value, Kept))
      && (Truthy(s) ==> forall i :: 0 <= i < |r| ==> r[i] == ToLowerChar(Filter(s.value, Kept)[i]))
      && (Truthy(s) ==> forall i :: 0 <= i < |r| ==> exists j :: 0 <= j < |s.value| && r[i] == ToLowerChar(s.value[j]))
  {
    if Truthy(s) {
      var f := Filter(s.value, Kept);
      FilterSpec(s.value, Kept);
      var r := NormalizeStr(s);
      forall i | 0 <= i < |r|
        ensures !Dropped(r[i]) && !IsUpper(r[i])
        ensures exists j :: 0 <= j < |s.value| && r[i] == ToLowerChar(s.value[j])
      {
        assert f[i] in f;
        var j :| 0 <= j < |s.value| && s.value[j] == f[i];
      }
    }
  }

  /** Normalising twice is normalising once. */
  lemma NormalizeStrIdempotent(s: Option<string>)
    ensures NormalizeStr(Some(NormalizeStr(s))) == NormalizeStr(s)
  {
    var r := NormalizeStr(s);
    if r != "" {
      NormalizeStrSpec(s);
      FilterAll(r, Kept);
      assert Lower(r) == r;
    }
  }

  /** Dollar signs and spaces around a LaTeX answer do not affect matching. */
  lemma NormalizeStrDollarExample()
    ensures NormalizeStr(Some("$4$ ")) == NormalizeStr(Some("4")) == "4"
    ensures NormalizeStr(Some("4")) != NormalizeStr(Some("5"))
  {
    assert Filter(" ", Kept) == [];
    assert Filter("$ ", Kept) == [];
    assert Filter("4$ ", Kept) == "4";
    assert Filter("$4$ ", Kept) == "4";
    assert Filter("4", Kept) == "4";
    assert Filter("5", Kept) == "5";
    assert Lower("4") == "4";
    assert Lower("5") == "5";
  }

  /** Case and inner spaces do not affect matching. */
  lemma NormalizeStrCaseExample()
    ensures NormalizeStr(Some(" X y")) == NormalizeStr(Some("xy")) == "xy"
  {
    FilterXy();
    assert Lower("Xy") == "xy";
    assert Lower("xy") == "xy";
  }

  lemma FilterXy()
    ensures Filter(" X y", Kept) == "Xy" && Filter("xy", Kept) == "xy"
  {
    assert Filter("y", Kept) == "y";
    assert Filter(" y", Kept) == "y";
    assert Filter("X y", Kept) == "Xy";
    assert Filter("xy", Kept) == "xy";
  }

  /** A missing answer key matches only what normalises to nothing. */
  lemma NormalizeStrBlankExample()
    ensures NormalizeStr(None) == NormalizeStr(Some("")) == NormalizeStr(Some(" $ ")) == ""
  {
    assert Filter(" ", Kept) == [];
    assert Filter("$ ", Kept) == [];
    assert Filter(" $ ", Kept) == [];
  }

  /** A question as fetched; the answer key may be missing. */
  datatype PracticeQuestion = PracticeQuestion(id: string, question: string, options: seq<string>, answer: Option<string>)

  /** `normalizeStr(answer) === normalizeStr(question.answer)`. */
  predicate Matches(q: PracticeQuestion, answer: string) {
    NormalizeStr(Some(answer)) == NormalizeStr(q.answer)
  }

  /** The figures on the result screen. */
  datatype Summary = Summary(total: nat, attempted: nat, correct: nat, wrong: int, accuracy: int)

  /** Every answer belongs to a loaded question (`questions[Number(index)]`
      exists for every key, else the result screen would throw). */
  predicate AnswersInRange(questions: seq<PracticeQuestion>, answers: map<nat, string>) {
    forall k :: k in answers ==> k < |questions|
  }

  /** The indices whose answer matches the key. */
  function CorrectKeys(questions: seq<PracticeQuestion>, answers: map<nat, string>): set<nat>
    requires AnswersInRange(questions, answers)
  {
    set k | k in answers && Matches(questions[k], answers[k])
  }

  /** The indices whose answer does not match the key. */
  function WrongKeys(questions: seq<PracticeQuestion>, answers: map<nat, string>): set<nat>
    requires AnswersInRange(questions, answers)
  {
    set k | k in answers && !Matches(questions[k], answers[k])
  }

  /** `Math.round(100 * correct / attempted)`, computed exactly as
      floor(100 * correct / attempted + 1/2), and 0 when nothing was
      attempted. */
  function Accuracy(correct: nat, attempted: nat): int
  {
    if attempted > 0 then (200 * correct + attempted) / (2 * attempted) else 0
  }

  /** The result computation: attempted counts the answer entries, correct
      the entries whose normalised answer equals the normalised key, and wrong
      is the difference. */
  function Summarize(questions: seq<PracticeQuestion>, answers: map<nat, string>): (r: Summary)
    requires AnswersInRange(questions, answers)
    ensures r.total == |questions| && r.attempted == |answers|
    ensures r.correct <= r.attempted
    ensures r.wrong == r.attempted - r.correct >= 0
  {
    var correct := CorrectKeys(questions, answers);
    assert correct <= answers.Keys;
    SubsetCard(correct, answers.Keys);
    var attempted := |answers.Keys|;
    Summary(|questions|, attempted, |correct|, attempted - |correct|, Accuracy(|correct|, attempted))
  }

  lemma SubsetCard<T>(a: set<T>, b: set<T>)
    requires a <= b
    ensures |a| <= |b|
  {
    assert b == a + (b - a);
  }

  /** The correct and the wrong indices partition the answered ones, so the
      wrong count is exactly the number of mismatching answers. */
  lemma SummaryPartition(questions: seq<PracticeQuestion>, answers: map<nat, string>)
    requires AnswersInRange(questions, answers)
    ensures CorrectKeys(questions, answers) + WrongKeys(questions, answers) == answers.Keys
    ensures CorrectKeys(questions, answers) * WrongKeys(questions, answers) == {}
    ensures Summarize(questions, answers).correct == |CorrectKeys(questions, answers)|
    ensures Summarize(questions, answers).wrong == |WrongKeys(questions, answers)|
  {
    var c, w := CorrectKeys(questions, answers), WrongKeys(questions, answers);
    assert c + w == answers.Keys;
    assert c * w == {};
  }

  /** The accuracy is a percentage, is the nearest integer to
      100 * correct / attempted (ties rounded up), is 0 with nothing
      attempted and 100 when every attempt is correct. */
  lemma AccuracySpec(correct: nat, attempted: nat)
    requires correct <= attempted
    ensures 0 <= Accuracy(correct, attempted) <= 100
    ensures attempted > 0 ==>
      2 * attempted * Accuracy(correct, attempted) <= 200 * correct + attempted < 2 * attempted * (Accuracy(correct, attempted) + 1)
    ensures attempted == 0 ==> Accuracy(correct, attempted) == 0
    ensures attempted > 0 && correct == attempted ==> Accuracy(correct, attempted) == 100
    ensures correct == 0 ==> Accuracy(correct, attempted) == 0
  {
    if attempted > 0 {
      var n, d := 200 * correct + attempted, 2 * attempted;
      var q := n / d;
      DivBounds(n, d);
      assert n <= 201 * attempted;
      if q > 100 {
        MulMono(d, 101, q);
        assert false;
      }
      if correct == attempted {
        assert n == 100 * d + attempted;
        DivUnique(n, d, 100, attempted);
      }
      if correct == 0 {
        DivUnique(n, d, 0, attempted);
      }
    }
  }

  lemma DivBounds(n: nat, d: nat)
    requires d > 0
    ensures d * (n / d) <= n < d * (n / d + 1)
  {
  }

  lemma MulMono(d: nat, a: nat, b: nat)
    requires a <= b
    ensures d * a <= d * b
  {
  }

  lemma DivUnique(n: nat, d: nat, q: nat, r: nat)
    requires d > 0 && r < d && n == q * d + r
    ensures n / d == q
  {
    var k := n / d;
    DivBounds(n, d);
    assert d * (q + 1) == d * q + d;
    if k < q {
      MulMono(d, k + 1, q);
      assert false;
    } else if k > q {
      MulMono(d, q + 1, k);
      assert false;
    }
  }

  /** The session's state cells. `userAnswers` and `bookmarked` are keyed by
      question index; a missing bookmark entry reads as not bookmarked. */
  class Session {
    var questions: seq<PracticeQuestion>
    var currentIndex: nat
    var userAnswers: map<nat, string>
    var bookmarked: map<nat, bool>
    var isFinished: bool

    constructor ()
      ensures questions == [] && currentIndex == 0 && userAnswers == map[] && bookmarked == map[] && !isFinished
    {
      questions := [];
      currentIndex := 0;
      userAnswers := map[];
      bookmarked := map[];
      isFinished := false;
    }

    /** The index stays within [0, max(0, n - 1)]. */
    predicate IndexInRange()
      reads this
    {
      currentIndex == 0 || currentIndex < |questions|
    }

    /** `!!userAnswers[i]`: question `i` holds a non-empty answer. */
    predicate AnsweredAt(i: nat)
      reads this
    {
      i in userAnswers && userAnswers[i] != ""
    }

    /** `bookmarked[i]`, undefined reading as false. */
    predicate BookmarkedAt(i: nat)
      reads this
    {
      i in bookmarked && bookmarked[i]
    }

    /** `setQuestions(data)` at the end of a load; the other cells are kept. */
    method SetQuestions(data: seq<PracticeQuestion>)
      modifies this
      ensures questions == data
      ensures currentIndex == old(currentIndex) && userAnswers == old(userAnswers)
      ensures bookmarked == old(bookmarked) && isFinished == old(isFinished)
    {
      questions := data;
    }

    /** `handleAnswerSelect(option)`: the first non-empty answer locks the
        question, and nothing is recorded once the session is finished. */
    method HandleAnswerSelect(option: string)
      modifies this
      ensures old(AnsweredAt(currentIndex)) || old(isFinished) ==> userAnswers == old(userAnswers)
      ensures !old(AnsweredAt(currentIndex)) && !old(isFinished) ==>
        userAnswers == old(userAnswers)[currentIndex := option]
      ensures old(AnsweredAt(currentIndex)) ==> AnsweredAt(currentIndex) && userAnswers[currentIndex] == old(userAnswers[currentIndex])
      ensures forall i :: i != currentIndex ==> (i in userAnswers <==> i in old(userAnswers))
      ensures forall i :: i != currentIndex && i in userAnswers ==> userAnswers[i] == old(userAnswers[i])
      ensures questions == old(questions) && currentIndex == old(currentIndex)
      ensures bookmarked == old(bookmarked) && isFinished == old(isFinished)
    {
      if AnsweredAt(currentIndex) || isFinished {
        return;
      }
      userAnswers := userAnswers[currentIndex := option];
    }

    /** `handleNext`: one question on, or finish at the last question. */
    method HandleNext()
      modifies this
      ensures currentIndex < |questions| - 1 ==> old(currentIndex) < |questions| - 1
      ensures old(currentIndex) < |questions| - 1 ==> currentIndex == old(currentIndex) + 1 && isFinished == old(isFinished)
      ensures !(old(currentIndex) < |questions| - 1) ==> currentIndex == old(currentIndex) && isFinished
      ensures old(IndexInRange()) ==> IndexInRange()
      ensures questions == old(questions) && userAnswers == old(userAnswers) && bookmarked == old(bookmarked)
    {
      if currentIndex < |questions| - 1 {
        currentIndex := currentIndex + 1;
      } else {
        isFinished := true;
      }
    }

    /** `handlePrev`: one question back, never below the first. */
    method HandlePrev()
      modifies this
      ensures old(currentIndex) > 0 ==> currentIndex == old(currentIndex) - 1
      ensures old(currentIndex) == 0 ==> currentIndex == 0
      ensures old(IndexInRange()) ==> IndexInRange()
      ensures questions == old(questions) && userAnswers == old(userAnswers)
      ensures bookmarked == old(bookmarked) && isFinished == old(isFinished)
    {
      if currentIndex > 0 {
        currentIndex := currentIndex - 1;
      }
    }

    /** `jumpToQuestion(index)` from the palette, whose buttons are the
        loaded questions' indices. */
    method JumpToQuestion(index: nat)
      requires index < |questions|
      modifies this
      ensures currentIndex == index && IndexInRange()
      ensures questions == old(questions) && userAnswers == old(userAnswers)
      ensures bookmarked == old(bookmarked) && isFinished == old(isFinished)
    {
      currentIndex := index;
    }

    /** `finishPractice` (the Exit button). */
    method FinishPractice()
      modifies this
      ensures isFinished
      ensures questions == old(questions) && currentIndex == old(currentIndex)
      ensures userAnswers == old(userAnswers) && bookmarked == old(bookmarked)
    {
      isFinished := true;
    }

    /** `restartPractice` (Try Again): a fresh attempt at the same questions. */
    method RestartPractice()
      modifies this
      ensures userAnswers == map[] && bookmarked == map[] && currentIndex == 0 && !isFinished
      ensures forall i :: !AnsweredAt(i) && !BookmarkedAt(i)
      ensures questions == old(questions) && IndexInRange()
    {
      userAnswers := map[];
      bookmarked := map[];
      currentIndex := 0;
      isFinished := false;
    }

    /** The Review Answers button: back to the first question with every
        answer kept, so answered questions stay locked. */
    method Review()
      modifies this
      ensures !isFinished && currentIndex == 0 && IndexInRange()
      ensures forall i :: AnsweredAt(i) <==> old(AnsweredAt(i))
      ensures questions == old(questions) && userAnswers == old(userAnswers) && bookmarked == old(bookmarked)
    {
      isFinished := false;
      currentIndex := 0;
    }

    /** `toggleBookmark`: flips the current question's flag only. */
    method ToggleBookmark()
      modifies this
      ensures BookmarkedAt(currentIndex) == !old(BookmarkedAt(currentIndex))
      ensures bookmarked == old(bookmarked)[currentIndex := !old(BookmarkedAt(currentIndex))]
      ensures forall i :: i != currentIndex ==> BookmarkedAt(i) == old(BookmarkedAt(i))
      ensures questions == old(questions) && currentIndex == old(currentIndex)
      ensures userAnswers == old(userAnswers) && isFinished == old(isFinished)
    {
      bookmarked := bookmarked[currentIndex := !BookmarkedAt(currentIndex)];
    }

    /** `clearAnswer`: deletes the current question's answer, unless the
        session is finished. */
    method ClearAnswer()
      modifies this
      ensures old(isFinished) ==> userAnswers == old(userAnswers)
      ensures !old(isFinished) ==> userAnswers == old(userAnswers) - {currentIndex} && !AnsweredAt(currentIndex)
      ensures forall i :: i != currentIndex ==> (i in userAnswers <==> i in old(userAnswers))
      ensures forall i :: i != currentIndex && i in userAnswers ==> userAnswers[i] == old(userAnswers[i])
      ensures questions == old(questions) && currentIndex == old(currentIndex)
      ensures bookmarked == old(bookmarked) && isFinished == old(isFinished)
    {
      if isFinished {
        return;
      }
      userAnswers := userAnswers - {currentIndex};
    }

    /** The result screen's figures for the current state. */
    function Result(): (r: Summary)
      reads this
      requires AnswersInRange(questions, userAnswers)
      ensures r.attempted == |userAnswers| && 0 <= r.wrong <= r.attempted
    {
      Summarize(questions, userAnswers)
    }
  }

  /** Toggling the bookmark twice restores the flag. */
  method ToggleBookmarkTwice(s: Session)
    modifies s
    ensures forall i :: s.BookmarkedAt(i) == old(s.BookmarkedAt(i))
    ensures s.userAnswers == old(s.userAnswers) && s.currentIndex == old(s.currentIndex)
  {
    s.ToggleBookmark();
    s.ToggleBookmark();
  }
}
