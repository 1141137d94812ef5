/** `MovieQuiz`: the questions generated from the titles, and `start`, which asks them in
    turn and sums up the score. The answer lines typed over the whole session are `inputs`,
    and `picks(k)` is the `random.choice` oracle while question `k` is asked. */
module Quiz {
  import opened Text
  import opened Shuffle
  import opened Wrappers
  import opened Movies
  import opened Rules
  import opened Attempts
  import opened Generation

  /** The state of one question when the session starts. */
  datatype Question = Question(title: string, anagrams: seq<string>, spent: seq<string>, correctGuess: bool)

  /** One question asked: how its attempt loop ended, and whether the line read at the
      "Press enter to continue" prompt that follows was there. */
  datatype Round = Round(ending: Ending, continued: bool)

  /** What a session produced: the questions asked, the reveal printed after each question
      that came to its end, and the closing summary, reached only when every question was
      asked and every "Press enter" line was read. */
  datatype Session = Session(rounds: seq<Round>, revealed: seq<Reveal>, summary: Option<Summary>)

  /** The questions asked from question `k` on, on the input left by the ones before. A
      question whose loop ends without an answer (`EOFError` or `IndexError`) ends the
      session, and so does the end of the input at a "Press enter" prompt. */
  function Rounds(qs: seq<Question>, maxGuesses: int, inputs: seq<string>, picks: nat -> nat -> nat, k: nat)
    : seq<Round>
    decreases |qs| - k
  {
    if k >= |qs| then []
    else
      var e := PlayQuestion(qs[k].anagrams, qs[k].spent, Lower(qs[k].title), maxGuesses, inputs, picks(k));
      if !e.Finished? || e.consumed >= |inputs| then [Round(e, false)]
      else [Round(e, true)] + Rounds(qs, maxGuesses, inputs[e.consumed + 1..], picks, k + 1)
  }

  /** One round: `e` is how the loop of question `k` ends on `inputs`. */
  lemma RoundsStep(qs: seq<Question>, maxGuesses: int, inputs: seq<string>, picks: nat -> nat -> nat, k: nat, e: Ending)
    requires k < |qs|
    requires e == PlayQuestion(qs[k].anagrams, qs[k].spent, Lower(qs[k].title), maxGuesses, inputs, picks(k))
    ensures e.Finished? && e.consumed < |inputs| ==>
      Rounds(qs, maxGuesses, inputs, picks, k) ==
        [Round(e, true)] + Rounds(qs, maxGuesses, inputs[e.consumed + 1..], picks, k + 1)
    ensures !(e.Finished? && e.consumed < |inputs|) ==> Rounds(qs, maxGuesses, inputs, picks, k) == [Round(e, false)]
  {
  }

  /** The questions are asked in order and each is asked at most once; every round but the
      last had its "Press enter" line read, a round goes on only after an answer ended its
      loop, and the session stops short of the last question only because a round did not
      go on. */
  lemma {:induction false} RoundsShape(qs: seq<Question>, maxGuesses: int, inputs: seq<string>,
                                       picks: nat -> nat -> nat, k: nat)
    requires k <= |qs|
    ensures var rounds := Rounds(qs, maxGuesses, inputs, picks, k);
      && |rounds| <= |qs| - k
      && (k < |qs| ==> |rounds| > 0)
      && (forall i :: 0 <= i < |rounds| - 1 ==> rounds[i].continued)
      && (forall i :: 0 <= i < |rounds| && rounds[i].continued ==> rounds[i].ending.Finished?)
      && (0 < |rounds| < |qs| - k ==> !rounds[|rounds| - 1].continued)
    decreases |qs| - k
  {
    if k < |qs| {
      var e := PlayQuestion(qs[k].anagrams, qs[k].spent, Lower(qs[k].title), maxGuesses, inputs, picks(k));
      if e.Finished? && e.consumed < |inputs| {
        RoundsShape(qs, maxGuesses, inputs[e.consumed + 1..], picks, k + 1);
      }
    }
  }

  /** The input lines the rounds `rounds` read: the answers of each, and its "Press enter"
      line when that was there. */
  function LinesRead(rounds: seq<Round>): nat
  {
    if rounds == [] then 0
    else rounds[0].ending.consumed + (if rounds[0].continued then 1 else 0) + LinesRead(rounds[1..])
  }

  /** Each round reads its lines from the input the rounds before it left, so that no line
      is read twice and none beyond the input. */
  lemma {:induction false} RoundsReadWithinInput(qs: seq<Question>, maxGuesses: int, inputs: seq<string>,
                                                 picks: nat -> nat -> nat, k: nat)
    ensures LinesRead(Rounds(qs, maxGuesses, inputs, picks, k)) <= |inputs|
    decreases |qs| - k
  {
    if k < |qs| {
      var e := PlayQuestion(qs[k].anagrams, qs[k].spent, Lower(qs[k].title), maxGuesses, inputs, picks(k));
      PlayBounds(qs[k].anagrams, qs[k].spent, Lower(qs[k].title), maxGuesses, inputs, picks(k));
      if e.Finished? && e.consumed < |inputs| {
        RoundsReadWithinInput(qs, maxGuesses, inputs[e.consumed + 1..], picks, k + 1);
      }
    }
  }

  /** A question after it was asked: its drawn anagrams are recorded as shown, and it is
      marked guessed if its loop ended on the title. */
  function Asked(q: Question, e: Ending): (q': Question)
    ensures q'.title == q.title && q'.anagrams == q.anagrams
  {
    q.(spent := q.spent + e.shown, correctGuess := q.correctGuess || (e.Finished? && e.result == Correct))
  }

  /** The questions after the rounds `rounds` were played on the first of them. */
  function After(qs: seq<Question>, rounds: seq<Round>): (qs': seq<Question>)
    ensures |qs'| == |qs|
  {
    seq(|qs|, i requires 0 <= i < |qs| => if i < |rounds| then Asked(qs[i], rounds[i].ending) else qs[i])
  }

  /** The reveals printed during the rounds `rounds`, one after each round whose loop came to
      its end, naming the title of its question. */
  function Reveals(rounds: seq<Round>, titles: seq<string>): (revealed: seq<Reveal>)
    requires |rounds| <= |titles|
    ensures |revealed| <= |rounds|
  {
    if rounds == [] then []
    else
      var n := |rounds| - 1;
      Reveals(rounds[..n], titles) +
      (if rounds[n].ending.Finished? then [RevealFor(rounds[n].ending.result, titles[n])] else [])
  }

  lemma RevealsAppend(rounds: seq<Round>, round: Round, titles: seq<string>)
    requires |rounds| < |titles|
    ensures Reveals(rounds + [round], titles) ==
      Reveals(rounds, titles) +
      (if round.ending.Finished? then [RevealFor(round.ending.result, titles[|rounds|])] else [])
  {
    assert (rounds + [round])[..|rounds|] == rounds;
  }

  /** Playing one more round changes only the question it was played on. */
  lemma AfterStep(qs: seq<Question>, rounds: seq<Round>, round: Round)
    requires |rounds| < |qs|
    ensures After(qs, rounds + [round]) == After(qs, rounds)[|rounds| := Asked(qs[|rounds|], round.ending)]
  {
  }

  /** Where `start` stands after `k` questions: the rounds played so far, followed by those
      still to come on the input left from `offset` on, are the whole session while it goes
      on (`goOn`), and are the whole session once it has stopped; the reveals are those of
      the rounds played. */
  ghost predicate Progressed(qs: seq<Question>, maxGuesses: int, inputs: seq<string>, picks: nat -> nat -> nat,
                             titles: seq<string>, k: nat, offset: nat, goOn: bool,
                             rounds: seq<Round>, revealed: seq<Reveal>)
  {
    k <= |qs| == |titles| && |rounds| == k && offset <= |inputs| &&
    (goOn ==>
       rounds + Rounds(qs, maxGuesses, inputs[offset..], picks, k) == Rounds(qs, maxGuesses, inputs, picks, 0) &&
       forall i :: 0 <= i < k ==> rounds[i].continued) &&
    (!goOn ==> rounds == Rounds(qs, maxGuesses, inputs, picks, 0) && 0 < k && !rounds[k - 1].continued) &&
    revealed == Reveals(rounds, titles)
  }

  /** Asking question `k` keeps `Progressed`: its round is appended, its reveal too if its
      loop came to its end, and the session goes on past its "Press enter" prompt only if
      that line is there. */
  lemma ProgressedStep(qs: seq<Question>, maxGuesses: int, inputs: seq<string>, picks: nat -> nat -> nat,
                       titles: seq<string>, k: nat, offset: nat, rounds: seq<Round>, revealed: seq<Reveal>, e: Ending)
    requires Progressed(qs, maxGuesses, inputs, picks, titles, k, offset, true, rounds, revealed) && k < |qs|
    requires e == PlayQuestion(qs[k].anagrams, qs[k].spent, Lower(qs[k].title), maxGuesses, inputs[offset..], picks(k))
    ensures var continued := e.Finished? && offset + e.consumed < |inputs|;
      Progressed(qs, maxGuesses, inputs, picks, titles, k + 1,
                 if continued then offset + e.consumed + 1 else offset, continued,
                 rounds + [Round(e, continued)],
                 if e.Finished? then revealed + [RevealFor(e.result, titles[k])] else revealed)
  {
    var continued := e.Finished? && offset + e.consumed < |inputs|;
    var lines := inputs[offset..];
    RoundsStep(qs, maxGuesses, lines, picks, k, e);
    RevealsAppend(rounds, Round(e, continued), titles);
    if continued {
      assert lines[e.consumed + 1..] == inputs[offset + e.consumed + 1..];
      assert (rounds + [Round(e, true)]) + Rounds(qs, maxGuesses, inputs[offset + e.consumed + 1..], picks, k + 1) ==
        rounds + Rounds(qs, maxGuesses, lines, picks, k);
    }
  }

  /** Once every question was asked or the session stopped, the rounds are the whole
      session, and the summary is reached exactly when every round went on. */
  lemma ProgressedEnd(qs: seq<Question>, maxGuesses: int, inputs: seq<string>, picks: nat -> nat -> nat,
                      titles: seq<string>, k: nat, offset: nat, goOn: bool, rounds: seq<Round>, revealed: seq<Reveal>)
    requires Progressed(qs, maxGuesses, inputs, picks, titles, k, offset, goOn, rounds, revealed)
    requires !goOn || k == |qs|
    ensures rounds == Rounds(qs, maxGuesses, inputs, picks, 0)
    ensures revealed == Reveals(rounds, titles)
    ensures goOn <==> |rounds| == |qs| && forall i :: 0 <= i < |qs| ==> rounds[i].continued
  {
    if goOn {
      assert Rounds(qs, maxGuesses, inputs[offset..], picks, k) == [];
      assert rounds + [] == rounds;
    }
  }

  class MovieQuiz {
    const titles: seq<string>
    const questions: seq<Movie>
    const maxGuesses: int

    /** The questions are distinct objects, each with its shown anagrams taken from its pool. */
    ghost predicate Valid()
      reads this, questions
    {
      Distinct(questions) && forall k :: 0 <= k < |questions| ==> questions[k].Valid()
    }

    /** The state of every question, in question order. */
    function State(): (qs: seq<Question>)
      reads this, questions
      ensures |qs| == |questions|
    {
      seq(|questions|, k requires 0 <= k < |questions| reads questions =>
        Question(questions[k].title, questions[k].anagrams, questions[k].spent, questions[k].correctGuess))
    }

    /** Whether each question has been guessed, in question order. */
    function Flags(): (flags: seq<bool>)
      reads this, questions
      ensures |flags| == |questions|
      ensures forall k :: 0 <= k < |questions| ==> flags[k] == questions[k].correctGuess
    {
      seq(|questions|, k requires 0 <= k < |questions| reads questions => questions[k].correctGuess)
    }

    /** `MovieQuiz(filename, max_guesses)` with the lines of the titles file given as `titles`:
        one new question per title, shuffled by `order`. */
    constructor (titles: seq<string>, maxGuesses: int, draw: (nat, nat, nat, nat) -> seq<nat>, order: seq<nat>)
      ensures Valid()
      ensures this.titles == titles && this.maxGuesses == maxGuesses
      ensures Titles(questions) == Shuffled(titles, order)
      ensures forall k :: 0 <= k < |questions| ==> fresh(questions[k]) && NewQuestion(questions[k])
    {
      this.titles := titles;
      var generated := GenerateQuiz(titles, draw, order);
      questions := generated;
      this.maxGuesses := maxGuesses;
    }

    /** One pass of the `for i, question in enumerate(self.questions)` loop up to the
        "Press enter" prompt: the attempt loop on question `k`, which changes that question
        only. */
    method AskRound(k: nat, lines: seq<string>, pick: nat -> nat) returns (ending: Ending)
      requires Valid() && k < |questions|
      modifies questions[k]
      ensures Valid()
      ensures ending == PlayQuestion(old(State())[k].anagrams, old(State())[k].spent, Lower(questions[k].title),
                                     maxGuesses, lines, pick)
      ensures State() == old(State())[k := Asked(old(State())[k], ending)]
    {
      ghost var before := State();
      var movie := questions[k];
      ending := AskQuestion(movie, maxGuesses, lines, pick);
      forall i | 0 <= i < |questions| ensures State()[i] == before[k := Asked(before[k], ending)][i] {
        if i != k {
          assert questions[i] != movie;
        }
      }
    }

    /** `start`: the rounds are those `Rounds` gives for the state the questions were in,
        the questions are left as those rounds leave them, every round that came to its end
        is followed by its reveal, and the summary is that of the final guessed flags. */
    method Start(inputs: seq<string>, picks: nat -> nat -> nat) returns (session: Session)
      requires Valid()
      modifies questions
      ensures Valid()
      ensures session.rounds == Rounds(old(State()), maxGuesses, inputs, picks, 0)
      ensures State() == After(old(State()), session.rounds)
      ensures |session.rounds| <= |questions|
      ensures session.revealed == Reveals(session.rounds, Titles(questions))
      ensures session.summary.Some? <==>
        |session.rounds| == |questions| && forall k :: 0 <= k < |questions| ==> session.rounds[k].continued
      ensures session.summary.Some? ==> session.summary.value == SummaryFor(Flags())
    {
      ghost var start := State();
      ghost var titles := Titles(questions);
      var rounds: seq<Round> := [];
      var revealed: seq<Reveal> := [];
      var offset: nat := 0;
      var k := 0;
      var goOn := true;
      while k < |questions| && goOn
        invariant Progressed(start, maxGuesses, inputs, picks, titles, k, offset, goOn, rounds, revealed)
        invariant Valid()
        invariant State() == After(start, rounds)
        decreases |questions| - k
      {
        var ending := AskRound(k, inputs[offset..], picks(k));
        assert titles[k] == questions[k].title;
        ProgressedStep(start, maxGuesses, inputs, picks, titles, k, offset, rounds, revealed, ending);
        var continued := ending.Finished? && offset + ending.consumed < |inputs|;
        AfterStep(start, rounds, Round(ending, continued));
        revealed := if ending.Finished? then revealed + [RevealFor(ending.result, questions[k].title)] else revealed;
        offset := if continued then offset + ending.consumed + 1 else offset;
        goOn := continued;
        rounds := rounds + [Round(ending, continued)];
        k := k + 1;
      }
      ProgressedEnd(start, maxGuesses, inputs, picks, titles, k, offset, goOn, rounds, revealed);
      session := Session(rounds, revealed, if goOn then Some(SummaryFor(Flags())) else None);
    }
  }
}
