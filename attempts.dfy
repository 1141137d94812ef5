/** One question of `MovieQuiz.start`: the `for x in range(self.max_guesses)` loop with the
    terminal I/O taken out. The answers typed are `inputs` (already stripped, as
    `get_input` returns them), and `picks(x)` is the choice `random.choice` makes if an
    anagram is drawn on attempt `x`. */
module Attempts {
  import opened Shuffle
  import opened Movies
  import opened Rules

  /** How the loop for one question ends. `consumed` counts the answers read and `shown`
      lists the anagrams drawn, in order. `InputEnded` is `input()` meeting the end of its
      input (an `EOFError` nothing catches); `AnagramsRanOut` is `random.choice` on an empty
      list of unshown anagrams (an `IndexError` nothing catches). */
  datatype Ending =
    | Finished(result: GuessResult, consumed: nat, shown: seq<string>)
    | InputEnded(consumed: nat, shown: seq<string>)
    | AnagramsRanOut(consumed: nat, shown: seq<string>)

  /** The loop from attempt `x` on, with `result` the outcome so far and `shown` the anagrams
      drawn so far; `spent` is what had been shown before the question began. */
  function Play(anagrams: seq<string>, spent: seq<string>, titleLower: string, maxGuesses: int,
                inputs: seq<string>, picks: nat -> nat, x: nat, result: GuessResult, shown: seq<string>): Ending
    decreases maxGuesses - x
  {
    if x >= maxGuesses then Finished(result, x, shown)
    else
      var pool := Unspent(anagrams, spent + shown);
      if result == Default && pool == [] then AnagramsRanOut(x, shown)
      else
        var shown' := if result == Default then shown + [pool[picks(x) % |pool|]] else shown;
        if x >= |inputs| then InputEnded(x, shown')
        else
          var r := Classify(inputs[x], titleLower);
          if r == Correct || r == Pass then Finished(r, x + 1, shown')
          else Play(anagrams, spent, titleLower, maxGuesses, inputs, picks, x + 1, r, shown')
  }

  /** The loop for a whole question. */
  function PlayQuestion(anagrams: seq<string>, spent: seq<string>, titleLower: string, maxGuesses: int,
                        inputs: seq<string>, picks: nat -> nat): Ending
  {
    Play(anagrams, spent, titleLower, maxGuesses, inputs, picks, 0, Default, [])
  }

  /** The result that attempt `x` starts from: `Default` before the first answer, the
      classification of the previous answer afterwards. */
  function ResultBefore(inputs: seq<string>, titleLower: string, x: nat): GuessResult
    requires x <= |inputs|
  {
    if x == 0 then Default else Classify(inputs[x - 1], titleLower)
  }

  /** The number of attempts among the first `n` that start by drawing an anagram: the first
      one, and each one that follows a `next`. */
  function DrawCount(inputs: seq<string>, titleLower: string, n: nat): nat
    requires n <= |inputs| + 1
  {
    if n == 0 then 0
    else DrawCount(inputs, titleLower, n - 1) + (if ResultBefore(inputs, titleLower, n - 1) == Default then 1 else 0)
  }

  lemma {:induction false} DrawCountBound(inputs: seq<string>, titleLower: string, n: nat)
    requires n <= |inputs| + 1
    ensures DrawCount(inputs, titleLower, n) <= n
    ensures n > 0 ==> DrawCount(inputs, titleLower, n) >= 1
  {
    if n > 0 {
      DrawCountBound(inputs, titleLower, n - 1);
    }
  }

  /** The first `n` answers all let the loop go on: each was `next` or wrong. */
  ghost predicate Continued(inputs: seq<string>, titleLower: string, n: nat)
    requires n <= |inputs|
  {
    forall i :: 0 <= i < n ==> Classify(inputs[i], titleLower) in {Default, Incorrect}
  }

  /** What holds of the answers at the top of attempt `x`: all read so far let the loop go
      on, and `result` is the classification of the last one. */
  ghost predicate Progress(inputs: seq<string>, titleLower: string, maxGuesses: int, x: nat, result: GuessResult)
  {
    x <= |inputs| && (x == 0 || x <= maxGuesses) &&
    result == ResultBefore(inputs, titleLower, x) &&
    Continued(inputs, titleLower, x)
  }

  /** The loop was ended by the last answer read: a right answer or `pass`. */
  predicate EndedByAnswer(e: Ending)
  {
    e.Finished? && (e.result == Correct || e.result == Pass)
  }

  /** How many answers the loop reads: it stops early only on a right answer or `pass`, or
      when the input or the pool of unshown anagrams runs out; otherwise it uses all
      `max_guesses` attempts. */
  lemma {:induction false} PlayConsumes(anagrams: seq<string>, spent: seq<string>, titleLower: string, maxGuesses: int,
                                        inputs: seq<string>, picks: nat -> nat, x: nat, result: GuessResult, shown: seq<string>)
    requires x <= |inputs| && (x == 0 || x <= maxGuesses)
    requires result == Default || result == Incorrect
    ensures var e := Play(anagrams, spent, titleLower, maxGuesses, inputs, picks, x, result, shown);
      && x <= e.consumed <= |inputs|
      && (EndedByAnswer(e) ==> 0 < e.consumed <= maxGuesses)
      && (e.Finished? && !EndedByAnswer(e) ==> e.consumed == (if maxGuesses < 0 then x else maxGuesses))
      && (e.InputEnded? ==> e.consumed == |inputs| < maxGuesses)
      && (e.AnagramsRanOut? ==> e.consumed < maxGuesses)
    decreases maxGuesses - x
  {
    if x < maxGuesses {
      var pool := Unspent(anagrams, spent + shown);
      if !(result == Default && pool == []) {
        var shown' := if result == Default then shown + [pool[picks(x) % |pool|]] else shown;
        if x < |inputs| {
          var r := Classify(inputs[x], titleLower);
          if r != Correct && r != Pass {
            PlayConsumes(anagrams, spent, titleLower, maxGuesses, inputs, picks, x + 1, r, shown');
          }
        }
      }
    }
  }

  /** Why the loop stops: every answer read before the last was `next` or wrong; a loop
      ended by an answer was ended by its last one; a loop that used up its attempts ends
      with the classification of its last answer; and a draw that fails comes first on an
      attempt that follows a `next`, or on the first attempt. */
  lemma {:induction false} PlayAnswers(anagrams: seq<string>, spent: seq<string>, titleLower: string, maxGuesses: int,
                                       inputs: seq<string>, picks: nat -> nat, x: nat, result: GuessResult, shown: seq<string>)
    requires Progress(inputs, titleLower, maxGuesses, x, result)
    ensures var e := Play(anagrams, spent, titleLower, maxGuesses, inputs, picks, x, result, shown);
      && e.consumed <= |inputs|
      && (EndedByAnswer(e) ==>
            0 < e.consumed && Continued(inputs, titleLower, e.consumed - 1) &&
            Classify(inputs[e.consumed - 1], titleLower) == e.result)
      && (!EndedByAnswer(e) ==> Continued(inputs, titleLower, e.consumed))
      && (e.Finished? && !EndedByAnswer(e) ==> e.result == ResultBefore(inputs, titleLower, e.consumed))
      && (e.AnagramsRanOut? ==>
            ResultBefore(inputs, titleLower, e.consumed) == Default && Unspent(anagrams, spent + e.shown) == [])
    decreases maxGuesses - x
  {
    if x < maxGuesses {
      var pool := Unspent(anagrams, spent + shown);
      if !(result == Default && pool == []) {
        var shown' := if result == Default then shown + [pool[picks(x) % |pool|]] else shown;
        if x < |inputs| {
          var r := Classify(inputs[x], titleLower);
          if r != Correct && r != Pass {
            PlayAnswers(anagrams, spent, titleLower, maxGuesses, inputs, picks, x + 1, r, shown');
          }
        }
      }
    }
  }

  /** Attempt `x` draws exactly when the result it starts from is `Default`. */
  lemma DrawCountStep(inputs: seq<string>, titleLower: string, x: nat)
    requires x <= |inputs|
    ensures DrawCount(inputs, titleLower, x + 1) ==
      DrawCount(inputs, titleLower, x) + (if ResultBefore(inputs, titleLower, x) == Default then 1 else 0)
  {
  }

  /** An answer that lets the loop go on keeps `Progress` for the next attempt. */
  lemma ProgressNext(inputs: seq<string>, titleLower: string, maxGuesses: int, x: nat, result: GuessResult)
    requires Progress(inputs, titleLower, maxGuesses, x, result)
    requires x < |inputs| && x < maxGuesses
    requires Classify(inputs[x], titleLower) in {Default, Incorrect}
    ensures Progress(inputs, titleLower, maxGuesses, x + 1, Classify(inputs[x], titleLower))
  {
  }

  /** How many anagrams a question draws: one on the first attempt and one after each `next`,
      also when the loop then meets the end of its input. */
  lemma {:induction false} PlayDrawCount(anagrams: seq<string>, spent: seq<string>, titleLower: string, maxGuesses: int,
                                         inputs: seq<string>, picks: nat -> nat, x: nat, result: GuessResult, shown: seq<string>)
    requires x <= |inputs| && result == ResultBefore(inputs, titleLower, x)
    requires |shown| == DrawCount(inputs, titleLower, x)
    ensures var e := Play(anagrams, spent, titleLower, maxGuesses, inputs, picks, x, result, shown);
      e.consumed <= |inputs| &&
      (e.InputEnded? ==> |e.shown| == DrawCount(inputs, titleLower, e.consumed + 1)) &&
      (!e.InputEnded? ==> |e.shown| == DrawCount(inputs, titleLower, e.consumed))
    decreases maxGuesses - x
  {
    var e := Play(anagrams, spent, titleLower, maxGuesses, inputs, picks, x, result, shown);
    if x >= maxGuesses {
      assert e == Finished(result, x, shown);
    } else {
      var pool := Unspent(anagrams, spent + shown);
      if result == Default && pool == [] {
        assert e == AnagramsRanOut(x, shown);
      } else {
        var shown' := if result == Default then shown + [pool[picks(x) % |pool|]] else shown;
        DrawCountStep(inputs, titleLower, x);
        if x >= |inputs| {
          assert e == InputEnded(x, shown');
        } else {
          var r := Classify(inputs[x], titleLower);
          if r == Correct || r == Pass {
            assert e == Finished(r, x + 1, shown');
          } else {
            PlayDrawCount(anagrams, spent, titleLower, maxGuesses, inputs, picks, x + 1, r, shown');
            assert e == Play(anagrams, spent, titleLower, maxGuesses, inputs, picks, x + 1, r, shown');
          }
        }
      }
    }
  }

  /** Every anagram a question draws comes from the pool, had not been shown before, and is
      drawn once. */
  lemma {:induction false} PlayDrawsFresh(anagrams: seq<string>, spent: seq<string>, titleLower: string, maxGuesses: int,
                                          inputs: seq<string>, picks: nat -> nat, x: nat, result: GuessResult, shown: seq<string>)
    requires Distinct(shown) && forall a :: a in shown ==> a in anagrams && a !in spent
    ensures var e := Play(anagrams, spent, titleLower, maxGuesses, inputs, picks, x, result, shown);
      Distinct(e.shown) && forall a :: a in e.shown ==> a in anagrams && a !in spent
    decreases maxGuesses - x
  {
    if x < maxGuesses {
      var pool := Unspent(anagrams, spent + shown);
      if !(result == Default && pool == []) {
        var shown' := if result == Default then shown + [pool[picks(x) % |pool|]] else shown;
        if result == Default {
          var a := pool[picks(x) % |pool|];
          assert a in pool;
          AppendKeepsDistinct(shown, a);
        }
        if x < |inputs| {
          var r := Classify(inputs[x], titleLower);
          if r != Correct && r != Pass {
            PlayDrawsFresh(anagrams, spent, titleLower, maxGuesses, inputs, picks, x + 1, r, shown');
          }
        }
      }
    }
  }

  /** A question ends solved exactly when one of the answers read was the title. */
  lemma SolvedIffAnswered(anagrams: seq<string>, spent: seq<string>, titleLower: string, maxGuesses: int,
                          inputs: seq<string>, picks: nat -> nat)
    ensures var e := PlayQuestion(anagrams, spent, titleLower, maxGuesses, inputs, picks);
      e.consumed <= |inputs| &&
      ((e.Finished? && e.result == Correct) <==>
       exists i :: 0 <= i < e.consumed && Classify(inputs[i], titleLower) == Correct)
  {
    PlayAnswers(anagrams, spent, titleLower, maxGuesses, inputs, picks, 0, Default, []);
  }

  /** At most `max_guesses` answers are read and at most `max_guesses` anagrams drawn. */
  lemma PlayBounds(anagrams: seq<string>, spent: seq<string>, titleLower: string, maxGuesses: int,
                   inputs: seq<string>, picks: nat -> nat)
    ensures var e := PlayQuestion(anagrams, spent, titleLower, maxGuesses, inputs, picks);
      e.consumed <= |inputs| && e.consumed <= (if maxGuesses < 0 then 0 else maxGuesses) &&
      |e.shown| <= (if maxGuesses < 0 then 0 else maxGuesses)
  {
    PlayConsumes(anagrams, spent, titleLower, maxGuesses, inputs, picks, 0, Default, []);
    PlayDrawCount(anagrams, spent, titleLower, maxGuesses, inputs, picks, 0, Default, []);
    var e := PlayQuestion(anagrams, spent, titleLower, maxGuesses, inputs, picks);
    DrawCountBound(inputs, titleLower, if e.InputEnded? then e.consumed + 1 else e.consumed);
  }

  /** The attempt loop itself, on the `Movie` it asks about. */
  method AskQuestion(movie: Movie, maxGuesses: int, inputs: seq<string>, picks: nat -> nat) returns (ending: Ending)
    requires movie.Valid()
    modifies movie`spent, movie`correctGuess
    ensures movie.Valid()
    ensures ending == PlayQuestion(movie.anagrams, old(movie.spent), movie.TitleLower(), maxGuesses, inputs, picks)
    ensures movie.spent == old(movie.spent) + ending.shown
    ensures movie.correctGuess == (old(movie.correctGuess) || (ending.Finished? && ending.result == Correct))
  {
    ghost var anagrams, spent, titleLower := movie.anagrams, movie.spent, movie.TitleLower();
    ghost var start := PlayQuestion(anagrams, spent, titleLower, maxGuesses, inputs, picks);
    var result := Default;
    var shown: seq<string> := [];
    var x := 0;
    while x < maxGuesses
      invariant x == 0 || x <= maxGuesses
      invariant result != Correct && result != Pass
      invariant movie.Valid() && movie.anagrams == anagrams && movie.spent == spent + shown
      invariant movie.correctGuess == old(movie.correctGuess)
      invariant Play(anagrams, spent, titleLower, maxGuesses, inputs, picks, x, result, shown) == start
      decreases maxGuesses - x
    {
      if result == Default {
        if Unspent(movie.anagrams, movie.spent) == [] {
          ending := AnagramsRanOut(x, shown);
          return;
        }
        var anagram := movie.RandomAnagram(picks(x));
        shown := shown + [anagram];
      }
      if x >= |inputs| {
        ending := InputEnded(x, shown);
        return;
      }
      result := Classify(inputs[x], movie.TitleLower());
      if result == Correct {
        movie.correctGuess := true;
      }
      x := x + 1;
      if result == Correct || result == Pass {
        break;
      }
    }
    ending := Finished(result, x, shown);
  }

  /** When every anagram in the pool reads the same, as for a title like "Up", answering
      `next` to the first one leaves nothing to draw: the loop stops on the second attempt
      with the `IndexError` of `random.choice`. */
  lemma NextOnUniformPoolRunsOut(anagrams: seq<string>, a: string, titleLower: string, maxGuesses: int,
                                 inputs: seq<string>, picks: nat -> nat)
    requires anagrams != [] && forall k :: 0 <= k < |anagrams| ==> anagrams[k] == a
    requires maxGuesses >= 2 && |inputs| >= 1 && Classify(inputs[0], titleLower) == Default
    ensures PlayQuestion(anagrams, [], titleLower, maxGuesses, inputs, picks) == AnagramsRanOut(1, [a])
  {
    UniformPoolLastsOneDraw(anagrams, a);
    var none: seq<string> := [];
    assert none + none == none && none + [a] == [a];
    var pool := Unspent(anagrams, none + none);
    var i := picks(0) % |pool|;
    assert pool[i] in anagrams;
    var k :| 0 <= k < |anagrams| && anagrams[k] == pool[i];
    assert Unspent(anagrams, none + [a]) == [];
    assert Play(anagrams, none, titleLower, maxGuesses, inputs, picks, 1, Default, [a]) == AnagramsRanOut(1, [a]);
    assert Play(anagrams, none, titleLower, maxGuesses, inputs, picks, 0, Default, none) ==
      Play(anagrams, none, titleLower, maxGuesses, inputs, picks, 1, Default, none + [pool[picks(0) % |pool|]]);
  }
}
