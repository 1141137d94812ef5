/** `MovieQuiz._scramble_word`: rearrange the letters of a word until the result differs
    from the word. The random rearrangement of attempt `n` is `Shuffled(word, draw(n))`. */
module Scramble {
  import opened Shuffle
  import opened Wrappers

  /** The retry bound the loop guard names. */
  const MaxAttempts := 10

  /** Whether some two letters of `word` differ, i.e. whether any rearrangement can differ
      from `word`. False for the empty word, a single letter, and words like "II". */
  predicate HasDistinctLetters(word: string)
  {
    exists i :: 0 <= i < |word| && word[i] != word[0]
  }

  /** A word whose letters are all the same is its only rearrangement. */
  lemma RepeatedLettersNeverScramble(word: string, picks: seq<nat>)
    requires !HasDistinctLetters(word)
    ensures Shuffled(word, picks) == word
  {
    var r := Shuffled(word, picks);
    ShuffledPermutes(word, picks);
    forall k | 0 <= k < |r| ensures r[k] == word[k] {
      assert r[k] in multiset(r);
      var i :| 0 <= i < |word| && word[i] == r[k];
      assert word[i] == word[0] && word[k] == word[0];
    }
  }

  /** A rearrangement that differs from `word` shows that `word` has two different letters. */
  lemma DifferentShuffleNeedsDistinctLetters(word: string, picks: seq<nat>)
    requires Shuffled(word, picks) != word
    ensures HasDistinctLetters(word)
  {
    if !HasDistinctLetters(word) {
      RepeatedLettersNeverScramble(word, picks);
    }
  }

  /** Some rearrangement differs from `word` exactly when `word` has two different letters:
      moving a letter unlike the first one to the front gives one. */
  lemma ScrambleExists(word: string)
    ensures HasDistinctLetters(word) ==> exists picks :: Shuffled(word, picks) != word
    ensures (exists picks :: Shuffled(word, picks) != word) ==> HasDistinctLetters(word)
  {
    if HasDistinctLetters(word) {
      var i :| 0 <= i < |word| && word[i] != word[0];
      var front := Shuffled(word, [i]);
      assert i % |word| == i;
      assert [i] != [] && [i][0] == i && [i][1..] == [];
      assert front == [word[i]] + Shuffled(word[..i] + word[i + 1..], []);
      assert front[0] != word[0];
      assert Shuffled(word, [i]) != word;
    }
    forall picks | Shuffled(word, picks) != word ensures HasDistinctLetters(word) {
      DifferentShuffleNeedsDistinctLetters(word, picks);
    }
  }

  /** The first `n` rearrangements the scrambler draws all equal `word`. */
  ghost predicate NoChangeIn(word: string, draw: nat -> seq<nat>, n: nat)
  {
    forall m :: 0 <= m < n ==> Shuffled(word, draw(m)) == word
  }

  /** `_scramble_word` as the source has it: the counter `i` starts at 0 and is never
      increased, so the guard `i < 10` always holds and the loop ends only by returning a
      rearrangement unlike `word`; the final `return word` is unreachable. The model watches
      the first `fuel` draws: `None` means the loop is still running after all of them, and
      `draws` is how many it made. */
  method ScrambleWordAsWritten(word: string, draw: nat -> seq<nat>, fuel: nat)
    returns (r: Option<string>, draws: nat)
    ensures draws <= fuel
    ensures r.Some? ==> multiset(r.value) == multiset(word) && r.value != word
    ensures r.Some? ==> 0 < draws && r.value == Shuffled(word, draw(draws - 1))
    ensures r.Some? ==> NoChangeIn(word, draw, draws - 1)
    ensures r.None? ==> draws == fuel && NoChangeIn(word, draw, fuel)
    ensures !HasDistinctLetters(word) ==> r.None?
  {
    var i := 0;
    draws := 0;
    while i < MaxAttempts && draws < fuel
      invariant i == 0 && draws <= fuel
      invariant NoChangeIn(word, draw, draws)
      decreases fuel - draws
    {
      var anagram := Shuffled(word, draw(draws));
      if !HasDistinctLetters(word) {
        RepeatedLettersNeverScramble(word, draw(draws));
      }
      draws := draws + 1;
      if anagram != word {
        ShuffledPermutes(word, draw(draws - 1));
        return Some(anagram), draws;
      }
    }
    r := None;
  }

  /** `_scramble_word` with the counter advanced on every attempt, as its loop guard and its
      final `return word` intend: at most ten rearrangements are tried, and the word itself
      comes back only if all ten equal it, which is always so for a word without two
      different letters. */
  method ScrambleWord(word: string, draw: nat -> seq<nat>) returns (r: string)
    ensures multiset(r) == multiset(word)
    ensures r != word <==> !NoChangeIn(word, draw, MaxAttempts)
    ensures r != word ==> exists n :: 0 <= n < MaxAttempts && r == Shuffled(word, draw(n))
    ensures r != word ==> HasDistinctLetters(word)
  {
    var i := 0;
    while i < MaxAttempts
      invariant 0 <= i <= MaxAttempts
      invariant NoChangeIn(word, draw, i)
    {
      var anagram := Shuffled(word, draw(i));
      if anagram != word {
        ShuffledPermutes(word, draw(i));
        DifferentShuffleNeedsDistinctLetters(word, draw(i));
        return anagram;
      }
      i := i + 1;
    }
    return word;
  }
}
