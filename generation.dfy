/** `MovieQuiz._generate_quiz`: fifty anagrams for every title, each made by scrambling the
    words of the title one by one and joining them back in upper case, then the questions
    shuffled. `draw(t, i, w, n)` is the rearrangement that attempt `n` of the scrambler
    makes for word `w` of anagram `i` of title `t`, and `order` is the oracle of
    `random.shuffle`. */
module Generation {
  import opened Text
  import opened Shuffle
  import opened Scramble
  import opened Wrappers
  import opened Movies

  /** `range(50)`: the number of anagrams made for every title. */
  const AnagramsPerTitle := 50

  /** `a` is an anagram of `title` in the quiz's sense: it has as many words as the title,
      and each of its words is made of the letters of the matching title word in upper case. */
  predicate IsAnagramOf(title: string, a: string)
  {
    var words, scrambled := Split(title), Split(a);
    |scrambled| == |words| &&
    forall k :: 0 <= k < |words| ==> multiset(scrambled[k]) == multiset(Upper(words[k]))
  }

  /** A rearrangement of a word is a word: not empty, and without whitespace. */
  lemma PermutedWord(s: string, w: string)
    requires multiset(s) == multiset(w)
    requires w != [] && NoSpace(w)
    ensures s != [] && NoSpace(s)
  {
    assert |s| == |multiset(s)|;
    forall i | 0 <= i < |s| ensures !IsSpace(s[i]) {
      assert s[i] in multiset(w);
    }
  }

  /** `s` is words joined by single spaces, with no space at either end, as `' '.join`
      leaves them. */
  predicate SingleSpaced(s: string)
  {
    s == JoinSpace(Split(s))
  }

  /** Rearranged title words, joined by single spaces and upper-cased, make an anagram of
      the title whose words are the rearranged words in upper case. */
  lemma JoinedAnagram(title: string, scrambled: seq<string>)
    requires |scrambled| == |Split(title)|
    requires forall k :: 0 <= k < |scrambled| ==> multiset(scrambled[k]) == multiset(Split(title)[k])
    ensures var a := Upper(JoinSpace(scrambled));
      && IsAnagramOf(title, a) && Upper(a) == a && SingleSpaced(a)
      && forall k :: 0 <= k < |scrambled| ==> Split(a)[k] == Upper(scrambled[k])
  {
    var words := Split(title);
    var a := Upper(JoinSpace(scrambled));
    UpperIdempotent(JoinSpace(scrambled));
    var ups := seq(|scrambled|, k requires 0 <= k < |scrambled| => Upper(scrambled[k]));
    UpperJoin(scrambled);
    forall k | 0 <= k < |ups| ensures ups[k] != [] && NoSpace(ups[k]) {
      PermutedWord(scrambled[k], words[k]);
      UpperKeepsWord(scrambled[k]);
    }
    SplitJoin(ups);
    forall k | 0 <= k < |words| ensures multiset(Split(a)[k]) == multiset(Upper(words[k])) {
      UpperKeepsPermutation(scrambled[k], words[k]);
    }
  }

  /** One anagram of `title`: `' '.join([self._scramble_word(word) for word in title.split()]).upper()`,
      with the scrambler as intended. Its words rearrange the title's words in order, and a
      word without two different letters, which the scrambler cannot change, comes out as it
      was, in upper case. */
  method ScrambleTitle(title: string, draw: (nat, nat) -> seq<nat>) returns (a: string)
    ensures IsAnagramOf(title, a)
    ensures Upper(a) == a
    ensures SingleSpaced(a)
    ensures forall k :: 0 <= k < |Split(title)| && !HasDistinctLetters(Split(title)[k]) ==>
      Split(a)[k] == Upper(Split(title)[k])
  {
    var words := Split(title);
    var scrambled: seq<string> := [];
    for w := 0 to |words|
      invariant |scrambled| == w
      invariant forall k :: 0 <= k < w ==> multiset(scrambled[k]) == multiset(words[k])
      invariant forall k :: 0 <= k < w && !HasDistinctLetters(words[k]) ==> scrambled[k] == words[k]
    {
      var s := ScrambleWord(words[w], n => draw(w, n));
      scrambled := scrambled + [s];
    }
    JoinedAnagram(title, scrambled);
    a := Upper(JoinSpace(scrambled));
  }

  /** The first `|scrambled|` words of `words`, each rearranged into a different string. */
  ghost predicate DifferingWords(words: seq<string>, scrambled: seq<string>)
  {
    |scrambled| <= |words| &&
    forall k :: 0 <= k < |scrambled| ==>
      multiset(scrambled[k]) == multiset(words[k]) && scrambled[k] != words[k]
  }

  lemma DifferingWordsStep(words: seq<string>, scrambled: seq<string>, s: string)
    requires DifferingWords(words, scrambled) && |scrambled| < |words|
    requires multiset(s) == multiset(words[|scrambled|]) && s != words[|scrambled|]
    ensures DifferingWords(words, scrambled + [s])
  {
  }

  /** Every word of `title` rearranged into a different string, in order: what the list
      comprehension yields whenever each call of the scrambler as written returns. */
  ghost predicate DifferingScramble(title: string, scrambled: seq<string>)
  {
    |scrambled| == |Split(title)| && DifferingWords(Split(title), scrambled)
  }

  /** Word `w` of `words` is still unchanged after the first `fuel` draws the scrambler as
      written makes for it. */
  ghost predicate WordStuck(words: seq<string>, draw: (nat, nat) -> seq<nat>, fuel: nat, w: nat)
  {
    w < |words| && forall m :: 0 <= m < fuel ==> Shuffled(words[w], draw(w, m)) == words[w]
  }

  /** The words of `words` before `|scrambled|` are each rearranged into a different string,
      each has two different letters, and none of them is stuck. */
  ghost predicate ScrambledSoFar(words: seq<string>, draw: (nat, nat) -> seq<nat>, fuel: nat, scrambled: seq<string>)
  {
    DifferingWords(words, scrambled) &&
    (forall k :: 0 <= k < |scrambled| ==> HasDistinctLetters(words[k])) &&
    (forall k :: 0 <= k < |scrambled| ==> !WordStuck(words, draw, fuel, k))
  }

  lemma ScrambledSoFarStep(words: seq<string>, draw: (nat, nat) -> seq<nat>, fuel: nat, scrambled: seq<string>,
                           s: string, draws: nat)
    requires ScrambledSoFar(words, draw, fuel, scrambled) && |scrambled| < |words|
    requires multiset(s) == multiset(words[|scrambled|]) && s != words[|scrambled|]
    requires 0 < draws <= fuel && s == Shuffled(words[|scrambled|], draw(|scrambled|, draws - 1))
    ensures ScrambledSoFar(words, draw, fuel, scrambled + [s])
  {
    var w := |scrambled|;
    DifferentShuffleNeedsDistinctLetters(words[w], draw(w, draws - 1));
    DifferingWordsStep(words, scrambled, s);
  }

  /** A word whose loop returned nothing after `fuel` draws is stuck. */
  lemma StuckWord(words: seq<string>, draw: (nat, nat) -> seq<nat>, fuel: nat, w: nat, f: nat -> seq<nat>)
    requires w < |words| && NoChangeIn(words[w], f, fuel)
    requires forall n :: f(n) == draw(w, n)
    ensures WordStuck(words, draw, fuel, w)
  {
    forall m | 0 <= m < fuel ensures Shuffled(words[w], draw(w, m)) == words[w] {
      assert f(m) == draw(w, m);
    }
  }

  /** One anagram of `title` with the scrambler as written, which gives each word `fuel`
      draws: `None` means exactly that some word's loop is still running after them. A title
      with a word without two different letters (such as "II" or "3") never yields an
      anagram; one that does yield one has every word rearranged into a different string. */
  method ScrambleTitleAsWritten(title: string, draw: (nat, nat) -> seq<nat>, fuel: nat)
    returns (r: Option<string>)
    ensures r.Some? ==> forall k :: 0 <= k < |Split(title)| ==> HasDistinctLetters(Split(title)[k])
    ensures r.Some? ==> exists scrambled :: DifferingScramble(title, scrambled) && r.value == Upper(JoinSpace(scrambled))
    ensures r.Some? ==> IsAnagramOf(title, r.value) && Upper(r.value) == r.value && SingleSpaced(r.value)
    ensures r.None? <==> exists w :: WordStuck(Split(title), draw, fuel, w)
  {
    var words := Split(title);
    var scrambled: seq<string> := [];
    for w := 0 to |words|
      invariant |scrambled| == w
      invariant ScrambledSoFar(words, draw, fuel, scrambled)
    {
      var f: nat -> seq<nat> := n => draw(w, n);
      var s, draws := ScrambleWordAsWritten(words[w], f, fuel);
      if s.None? {
        StuckWord(words, draw, fuel, w, f);
        assert WordStuck(Split(title), draw, fuel, w);
        return None;
      }
      assert f(draws - 1) == draw(w, draws - 1);
      ScrambledSoFarStep(words, draw, fuel, scrambled, s.value, draws);
      scrambled := scrambled + [s.value];
    }
    JoinedAnagram(title, scrambled);
    NoWordStuck(words, draw, fuel, scrambled);
    r := Some(Upper(JoinSpace(scrambled)));
  }

  lemma NoWordStuck(words: seq<string>, draw: (nat, nat) -> seq<nat>, fuel: nat, scrambled: seq<string>)
    requires ScrambledSoFar(words, draw, fuel, scrambled) && |scrambled| == |words|
    ensures !exists w :: WordStuck(words, draw, fuel, w)
  {
  }

  /** The titles of a list of questions, in order. */
  function Titles(questions: seq<Movie>): (titles: seq<string>)
    ensures |titles| == |questions|
  {
    seq(|questions|, k requires 0 <= k < |questions| => questions[k].title)
  }

  /** A freshly made question: fifty anagrams of its title, all in upper case with their
      words joined by single spaces, nothing shown and not guessed. */
  ghost predicate NewQuestion(movie: Movie)
    reads movie
  {
    movie.Valid() && !movie.correctGuess && movie.spent == [] &&
    |movie.anagrams| == AnagramsPerTitle &&
    forall i :: 0 <= i < |movie.anagrams| ==>
      IsAnagramOf(movie.title, movie.anagrams[i]) && Upper(movie.anagrams[i]) == movie.anagrams[i] &&
      SingleSpaced(movie.anagrams[i])
  }

  /** `_generate_quiz`: one new question per title, in the order `random.shuffle` leaves
      them. */
  method GenerateQuiz(titles: seq<string>, draw: (nat, nat, nat, nat) -> seq<nat>, order: seq<nat>)
    returns (questions: seq<Movie>)
    ensures Titles(questions) == Shuffled(titles, order)
    ensures multiset(Titles(questions)) == multiset(titles)
    ensures Distinct(questions)
    ensures forall k :: 0 <= k < |questions| ==> fresh(questions[k]) && NewQuestion(questions[k])
  {
    questions := [];
    for t := 0 to |titles|
      invariant Titles(questions) == titles[..t]
      invariant Distinct(questions)
      invariant forall k :: 0 <= k < |questions| ==> fresh(questions[k]) && NewQuestion(questions[k])
    {
      var movie := new Movie(titles[t], []);
      for i := 0 to AnagramsPerTitle
        modifies movie
        invariant movie.title == titles[t] && movie.spent == [] && !movie.correctGuess
        invariant |movie.anagrams| == i
        invariant forall j :: 0 <= j < i ==>
          IsAnagramOf(movie.title, movie.anagrams[j]) && Upper(movie.anagrams[j]) == movie.anagrams[j] &&
          SingleSpaced(movie.anagrams[j])
      {
        var a := ScrambleTitle(titles[t], (w, n) => draw(t, i, w, n));
        movie.anagrams := movie.anagrams + [a];
      }
      assert Titles(questions + [movie]) == Titles(questions) + [movie.title];
      assert movie !in questions;
      AppendKeepsDistinct(questions, movie);
      questions := questions + [movie];
    }
    assert titles[..|titles|] == titles;
    ghost var built := questions;
    ShuffledTitles(questions, order);
    ShuffledPermutes(titles, order);
    ShuffledDistinct(questions, order);
    questions := Shuffled(questions, order);
    forall k | 0 <= k < |questions| ensures questions[k] in built {
      ShuffledMembers(built, order, questions[k]);
    }
  }

  /** Shuffling the questions shuffles their titles the same way. */
  lemma {:induction false} ShuffledTitles(questions: seq<Movie>, picks: seq<nat>)
    ensures Titles(Shuffled(questions, picks)) == Shuffled(Titles(questions), picks)
    decreases |questions|
  {
    if questions != [] {
      var j := (if picks == [] then 0 else picks[0]) % |questions|;
      var rest := questions[..j] + questions[j + 1..];
      var tail := if picks == [] then [] else picks[1..];
      var titles := Titles(questions);
      ShuffledStep(questions, picks);
      ShuffledStep(titles, picks);
      TitlesRemove(questions, j);
      ShuffledTitles(rest, tail);
      TitlesAppend([questions[j]], Shuffled(rest, tail));
      assert Titles([questions[j]]) == [titles[j]];
      calc {
        Titles(Shuffled(questions, picks));
        Titles([questions[j]] + Shuffled(rest, tail));
        [titles[j]] + Titles(Shuffled(rest, tail));
        [titles[j]] + Shuffled(Titles(rest), tail);
        Shuffled(titles, picks);
      }
    }
  }

  lemma TitlesAppend(a: seq<Movie>, b: seq<Movie>)
    ensures Titles(a + b) == Titles(a) + Titles(b)
  {
    assert forall k :: 0 <= k < |a + b| ==> Titles(a + b)[k] == (Titles(a) + Titles(b))[k];
  }

  lemma TitlesRemove(questions: seq<Movie>, j: nat)
    requires j < |questions|
    ensures Titles(questions[..j] + questions[j + 1..]) == Titles(questions)[..j] + Titles(questions)[j + 1..]
  {
    TitlesAppend(questions[..j], questions[j + 1..]);
    assert Titles(questions[..j]) == Titles(questions)[..j];
    assert Titles(questions[j + 1..]) == Titles(questions)[j + 1..];
  }
}
