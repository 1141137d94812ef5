/** The pure decisions inside `MovieQuiz.start`: how an answer is classified, which reveal
    message follows a question, and how the final score is summed up and worded. */
module Rules {
  import opened Text
  import opened Movies

  /** The `match answer.lower()` of the attempt loop: `next` and `pass` are tested before
      the title, and anything else that is not the title is wrong. */
  function Classify(answer: string, titleLower: string): GuessResult
  {
    var said := Lower(answer);
    if said == "next" then Default
    else if said == "pass" then Pass
    else if said == titleLower then Correct
    else Incorrect
  }

  /** Each outcome and the answers that lead to it. */
  lemma ClassifyMeaning(answer: string, titleLower: string)
    ensures Classify(answer, titleLower) == Default <==> Lower(answer) == "next"
    ensures Classify(answer, titleLower) == Pass <==> Lower(answer) == "pass"
    ensures Classify(answer, titleLower) == Correct <==>
      Lower(answer) == titleLower && Lower(answer) != "next" && Lower(answer) != "pass"
    ensures Classify(answer, titleLower) == Incorrect <==>
      Lower(answer) != titleLower && Lower(answer) != "next" && Lower(answer) != "pass"
  {
  }

  /** A title that reads "next" or "pass" in lower case can never be answered. */
  lemma ReservedTitleUnanswerable(title: string, answer: string)
    requires Lower(title) == "next" || Lower(title) == "pass"
    ensures Classify(answer, Lower(title)) != Correct
  {
  }

  /** Any other title is answered by exactly the answers that equal it when both are
      lower-cased, so that case never matters. */
  lemma AnswerIgnoresCase(title: string, answer: string)
    requires Lower(title) != "next" && Lower(title) != "pass"
    ensures Classify(answer, Lower(title)) == Correct <==> Lower(answer) == Lower(title)
  {
  }

  /** What is printed once a question is over: nothing, "The answer was", or
      "No more attempts left, the answer was", each followed by the title in upper case. */
  datatype Reveal = NoReveal | AnswerWas(title: string) | NoMoreAttempts(title: string)

  function RevealFor(result: GuessResult, title: string): (m: Reveal)
    ensures m == NoReveal <==> result == Correct
    ensures m.NoMoreAttempts? <==> result != Correct && result != Pass
    ensures !m.NoReveal? ==> m.title == Upper(title)
  {
    if result != Correct then
      if result != Pass then NoMoreAttempts(Upper(title)) else AnswerWas(Upper(title))
    else NoReveal
  }

  /** The closing message: all right, all wrong, or the two counts. */
  datatype Summary = AllRight | AllWrong | Mixed(correct: nat, incorrect: nat)

  /** `len([q for q in questions if q.correct_guess])`, over the flags in question order. */
  function CountSolved(flags: seq<bool>): (n: nat)
    ensures n <= |flags|
  {
    if flags == [] then 0 else (if flags[0] then 1 else 0) + CountSolved(flags[1..])
  }

  /** The count is the number of true flags. */
  lemma {:induction false} CountSolvedIsMultiplicity(flags: seq<bool>)
    ensures CountSolved(flags) == multiset(flags)[true]
  {
    if flags != [] {
      CountSolvedIsMultiplicity(flags[1..]);
      assert flags == [flags[0]] + flags[1..];
    }
  }

  /** Everything was solved exactly when the count reaches the number of questions, and
      nothing was solved exactly when it is zero. */
  lemma {:induction false} CountSolvedExtremes(flags: seq<bool>)
    ensures CountSolved(flags) == |flags| <==> forall k :: 0 <= k < |flags| ==> flags[k]
    ensures CountSolved(flags) == 0 <==> forall k :: 0 <= k < |flags| ==> !flags[k]
  {
    if flags != [] {
      CountSolvedExtremes(flags[1..]);
      assert forall k :: 1 <= k < |flags| ==> flags[k] == flags[1..][k - 1];
    }
  }

  /** The `if correct == num_questions / elif correct == 0 / else` choice. The "all right"
      branch comes first, so an empty quiz counts as all right. */
  function SummaryFor(flags: seq<bool>): (s: Summary)
    ensures s == AllRight <==> forall k :: 0 <= k < |flags| ==> flags[k]
    ensures s == AllWrong <==> |flags| > 0 && forall k :: 0 <= k < |flags| ==> !flags[k]
    ensures s.Mixed? ==> s.correct == CountSolved(flags) && 0 < s.correct < |flags|
    ensures s.Mixed? ==> s.correct + s.incorrect == |flags|
  {
    CountSolvedExtremes(flags);
    var correct := CountSolved(flags);
    var incorrect := |flags| - correct;
    if correct == |flags| then AllRight
    else if correct == 0 then AllWrong
    else Mixed(correct, incorrect)
  }
}
