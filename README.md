# Movie quiz, modelled in Dafny

`movie_quiz.py` is a console game. It reads a list of movie titles and makes fifty anagrams
of each title, scrambling every word separately. Then it asks the titles one by one in a
random order: the player sees an anagram and may guess the title, type `next` for another
anagram or `pass` to give up. At the end the game prints how many titles were guessed.

This project models the part of the game that is not terminal I/O, and proves properties of
it:

- `Movie`, with its pool of anagrams, the list of anagrams already shown and the
  "guessed" flag (`movie.dfy`, class `Movies.Movie`);
- the word scrambler `_scramble_word`, both as written and as evidently intended
  (`scramble.dfy`);
- the quiz builder `_generate_quiz` (`generation.dfy`);
- the attempt loop of one question (`attempts.dfy`);
- how answers are classified, which reveal message follows a question, and the final score
  (`rules.dfy`);
- `MovieQuiz`, its constructor and `start` over a whole session (`quiz.dfy`).

The string operations these rely on are in `text.dfy`: `lower`, `upper`, `split` and
`' '.join`. The random reorderings are in `shuffle.dfy`. `wrappers.dfy` holds the
`Option` type shared by the modules.

Randomness is an oracle parameter:

- `random.sample(word, len(word))` and `random.shuffle` are `Shuffle.Shuffled(s, picks)`.
  Every sequence of picks gives a permutation (`Shuffle.ShuffledPermutes`), and every
  permutation has a sequence of picks that gives it (`Shuffle.EveryPermutationReached`). So a
  property proved for all picks holds of every outcome these calls can give.
- `random.choice(pool)` is `pool[pick % |pool|]`.

The player's typed lines are a sequence of already stripped strings. When `input()` runs out
of lines, it raises an `EOFError` that nothing catches. This is modelled as an outcome of its
own.

The model follows the code in three places where the code differs from the quiz's
intended behaviour:

- The intended behaviour, once every anagram of a title has been shown, is to repeat one.
  The code calls `random.choice` on an empty list, which raises `IndexError`. The model
  ends the question with `AnagramsRanOut`. `Attempts.NextOnUniformPoolRunsOut` shows a
  session where this happens.
- The scrambler is meant to give up after ten attempts, but the code never advances its
  counter. This is the finding below.
- An empty title list is meant to be a load error. The code builds an empty quiz and then
  reports "all right" (`Rules.SummaryFor`).

## Model

| member | source | states |
|---|---|---|
| Text.Lower | movie_quiz.py:67 | the reference definition of `str.lower()`: each ASCII letter lower-cased, nothing else changed; its properties are in `Text.LowerIdempotent` and `Movies.Movie.TitleLower` |
| Text.Upper | movie_quiz.py:114 | the reference definition of `str.upper()` on ASCII letters, each upper-cased and nothing else changed, used for the anagrams and for the title in the reveal; its properties are in `Text.UpperJoin`, `Text.UpperKeepsPermutation` and `Text.UpperKeepsWord` |
| Text.JoinSpace | movie_quiz.py:114 | the reference definition of `' '.join`: the words with one space between neighbours and none at either end; `Text.SplitJoin` proves it inverse to `Text.Split` |
| Text.Split | movie_quiz.py:113 | every word `str.split()` returns is non-empty and holds no whitespace |
| Text.SplitJoin | movie_quiz.py:113-114 | splitting non-empty whitespace-free words joined by single spaces gives the same words back |
| Text.UpperJoin | movie_quiz.py:114 | upper-casing a space-joined phrase upper-cases each word and keeps the single spaces |
| Text.UpperKeepsPermutation | movie_quiz.py:114 | upper-casing two rearrangements of the same letters gives two rearrangements of the same letters |
| Text.UpperKeepsWord | movie_quiz.py:114 | an upper-cased word is still a non-empty word without whitespace |
| Text.LowerIdempotent | movie_quiz.py:67 | lower-casing twice equals lower-casing once, and leaves no upper-case letter |
| Shuffle.Shuffled | movie_quiz.py:118-124 | the reference definition of `random.shuffle` and `random.sample(word, len(word))` under an oracle: it keeps the length; its meaning is in `Shuffle.ShuffledPermutes` and `Shuffle.EveryPermutationReached` |
| Shuffle.EveryPermutationReached | movie_quiz.py:118-124 | every rearrangement of a list is the result of some oracle, so the oracle leaves out no outcome of `random.shuffle` or `random.sample` |
| Shuffle.PicksFor | movie_quiz.py:118-124 | builds the oracle that gives a chosen rearrangement: at each step, the position of the next wanted element among those left |
| Shuffle.ShuffledPermutes | movie_quiz.py:118-124 | a shuffle (of the questions, or of a word's letters) keeps every element with its multiplicity |
| Shuffle.ShuffledMembers | movie_quiz.py:118 | an element is in the shuffled list exactly when it is in the original |
| Shuffle.ShuffledDistinct | movie_quiz.py:118 | shuffling a list of distinct elements leaves them distinct |
| Scramble.RepeatedLettersNeverScramble | movie_quiz.py:124-125 | for a word without two different letters, every rearrangement equals the word |
| Scramble.DifferentShuffleNeedsDistinctLetters | movie_quiz.py:124-125 | a rearrangement that differs from the word shows that the word has two different letters |
| Scramble.ScrambleExists | movie_quiz.py:124-125 | some rearrangement differs from the word if and only if the word has two different letters |
| Scramble.ScrambleWordAsWritten | movie_quiz.py:121-128 | the loop as written returns only a rearrangement that differs from the word, namely the first differing draw; it never returns for a word without two different letters |
| Scramble.ScrambleWord | movie_quiz.py:121-128 | the intended loop returns a rearrangement of the word; it differs from the word exactly when one of the ten draws does, and then it is one of them |
| Movies.Unspent | movie_quiz.py:70 | the unshown pool holds exactly the anagrams that are not in the shown list, and is no longer than the pool |
| Movies.SpendingRemovesAllCopies | movie_quiz.py:70-71 | showing an anagram removes every copy of it from the unshown pool, and nothing else |
| Movies.UniformPoolLastsOneDraw | movie_quiz.py:70 | a pool whose anagrams are all the same string allows one draw and then none |
| Movies.Movie.constructor | movie_quiz.py:60-63 | a new movie has its title and anagrams, is not guessed and has nothing shown |
| Movies.Movie.TitleLower | movie_quiz.py:65-67 | the title with every letter lower-cased and no upper-case letter left |
| Movies.Movie.RandomAnagram | movie_quiz.py:69-72 | requires an unshown anagram; returns the picked unshown anagram, appends exactly it to the shown list and keeps every shown anagram in the pool |
| Rules.Classify | movie_quiz.py:152-163 | the reference definition of the `match answer.lower()`: `next`, then `pass`, then the lower-cased title, then anything else; its meaning is in `Rules.ClassifyMeaning` |
| Rules.ClassifyMeaning | movie_quiz.py:152-163 | the lower-cased answer `next` gives Default, `pass` gives Pass, the lower-cased title gives Correct, and anything else gives Incorrect, with `next` and `pass` tested first |
| Rules.ReservedTitleUnanswerable | movie_quiz.py:152-157 | a title that lower-cases to `next` or `pass` can never be answered correctly |
| Rules.AnswerIgnoresCase | movie_quiz.py:152-159 | any other title is answered exactly by the answers equal to it after lower-casing both |
| Rules.RevealFor | movie_quiz.py:168-173 | there is no reveal exactly after a correct answer; "No more attempts left" exactly when the result is neither correct nor pass; the title is shown in upper case |
| Rules.CountSolved | movie_quiz.py:181 | the number of guessed questions is at most the number of questions |
| Rules.CountSolvedIsMultiplicity | movie_quiz.py:181 | the count equals the number of true flags |
| Rules.CountSolvedExtremes | movie_quiz.py:184-187 | the count equals the number of questions exactly when all were guessed, and is zero exactly when none were |
| Rules.SummaryFor | movie_quiz.py:180-190 | "all right" exactly when every question was guessed, including an empty quiz; "all wrong" exactly when there are questions and none was guessed; otherwise both counts, which add up to the number of questions |
| Attempts.Play | movie_quiz.py:145-166 | the reference definition of the attempt loop from attempt `x` on: draw when the last result was `Default`, fail when no unshown anagram is left, stop on the end of input, on a correct answer or `pass`, or after `max_guesses` attempts; its properties are in the lemmas below and `Attempts.AskQuestion` is proved to follow it |
| Attempts.PlayQuestion | movie_quiz.py:145-166 | the attempt loop of one question, from its first attempt with no anagram drawn yet |
| Attempts.DrawCountBound | movie_quiz.py:146-148 | among the first n attempts, between one and n draw an anagram |
| Attempts.PlayConsumes | movie_quiz.py:146-166 | the loop reads at most `max_guesses` answers; it stops early only on a correct answer or `pass`, at the end of the input, or when a draw finds no unshown anagram |
| Attempts.PlayAnswers | movie_quiz.py:152-166 | every answer read before the last one was `next` or wrong; a loop ended by an answer was ended by its last one; a loop that used up its attempts ends with the classification of its last answer; a failed draw comes after a `next` (or at the start) with no unshown anagram left |
| Attempts.PlayDrawCount | movie_quiz.py:147-148 | an anagram is drawn on the first attempt and on every attempt after a `next`, and on no other |
| Attempts.PlayDrawsFresh | movie_quiz.py:69-72 | the anagrams drawn for a question come from its pool, were not shown before, and are all different |
| Attempts.SolvedIffAnswered | movie_quiz.py:157-159 | a question ends guessed exactly when one of the answers read matches its title |
| Attempts.PlayBounds | movie_quiz.py:146-148 | a question reads at most `max_guesses` answers and draws at most `max_guesses` anagrams |
| Attempts.AskQuestion | movie_quiz.py:145-166 | the loop on a movie ends as `PlayQuestion` says; it appends exactly the drawn anagrams to the shown list, and sets the guessed flag exactly when the loop ended on the title |
| Attempts.NextOnUniformPoolRunsOut | movie_quiz.py:146-154 | with a pool whose anagrams are all the same (a title like "Up"), answering `next` makes the second draw fail |
| Generation.PermutedWord | movie_quiz.py:113 | a rearrangement of a word is a non-empty word without whitespace |
| Generation.JoinedAnagram | movie_quiz.py:113-114 | rearranged title words, joined by single spaces and upper-cased, are an anagram of the title in upper case whose words are the rearranged words |
| Generation.ScrambleTitle | movie_quiz.py:113-114 | with the corrected scrambler: every anagram has as many words as the title; each word is an upper-cased rearrangement of the matching title word; a word without two different letters comes out unchanged, apart from case; the anagram is all upper case, with its words joined by single spaces |
| Generation.ScrambleTitleAsWritten | movie_quiz.py:113-128 | with the scrambler as written: no anagram comes out exactly when some word's loop is still running, every draw so far having left that word unchanged; a title that has a word without two different letters never yields an anagram, at any number of draws; an anagram that is yielded rearranges every word into a different string, in upper case, joined by single spaces |
| Generation.ShuffledTitles | movie_quiz.py:118 | shuffling the questions shuffles their titles the same way |
| Generation.GenerateQuiz | movie_quiz.py:106-119 | one new question per title, in a shuffled order that is a permutation of the titles; each has fifty anagrams of its title, in upper case and joined by single spaces, nothing shown and not guessed, and all questions are distinct objects |
| Quiz.Rounds | movie_quiz.py:140-175 | the reference definition of the question loop: ask question `k` on the remaining lines, then read the "Press enter" line and go on, or end the session when the question did not finish or no line is left; `Quiz.MovieQuiz.Start` is proved to follow it |
| Quiz.Reveals | movie_quiz.py:168-173 | one reveal for every round whose question came to its end, in order, and no more than there are rounds |
| Quiz.RoundsShape | movie_quiz.py:140-175 | questions are asked in order and at most once; every round except the last read its "Press enter" line; the session stops early only when a round did not read that line |
| Quiz.RoundsReadWithinInput | movie_quiz.py:146-175 | the rounds of a session read no more lines than were typed |
| Quiz.MovieQuiz.constructor | movie_quiz.py:84-87 | the quiz holds one new question per title, in the shuffled order, and the given `max_guesses` |
| Quiz.MovieQuiz.AskRound | movie_quiz.py:140-166 | asking question k changes that question only, as `PlayQuestion` says |
| Quiz.MovieQuiz.Start | movie_quiz.py:130-190 | the rounds are those `Rounds` gives; each question is left as its round leaves it; the reveals follow the rounds that came to their end; the summary is reached exactly when every question was asked and every "Press enter" line read, and it is that of the final guessed flags |

## Left out

- `ConsoleUtils.clear` and `is_win` (movie_quiz.py:27-33) call the operating system to clear the screen. They change no state.
- `ConsoleUtils.Format`, and every printed text and emoji, are cosmetic. The model records only which reveal and which summary is chosen.
- `ConsoleUtils.get_input` (movie_quiz.py:36-42) is terminal I/O. The model takes the lines it returns, already stripped. Its `KeyboardInterrupt` path, which prints a message and exits, is not modelled.
- `_load_movie_titles` (movie_quiz.py:100-104) reads a file. The constructor takes the list of titles as a parameter.
- The `questions`, `movies` and `max_guesses` properties (movie_quiz.py:89-98) are plain accessors. They are the `questions` and `maxGuesses` fields.
- The `__main__` entry point (movie_quiz.py:196-198) is left out.
- The distributions of `random.choice`, `random.sample` and `random.shuffle` are left out. The oracles allow every outcome, but uniformity cannot be stated.
- Movies.Movie.TitleLower and Rules.ClassifyMeaning map only ASCII letters, as `Text.Lower` and `Text.Upper` do. Python's full Unicode case mapping is not modelled.
- Scramble.ScrambleWordAsWritten gives the loop a bounded number of draws, `fuel`, so that the method terminates, and reports `None` when the loop is still running after them. Non-termination is stated as "still running after any number of draws".
- Generation.ScrambleTitle uses the corrected scrambler. With the code as written, a title that has a word without two different letters (such as "Toy Story 3" or "Rocky II") never yields an anagram, and every word of an anagram that is yielded differs from its title word before upper-casing. Both facts are proved of `Generation.ScrambleTitleAsWritten` instead.
- Generation.GenerateQuiz uses the corrected scrambler too. As written, `_generate_quiz`, and with it the `MovieQuiz` constructor, never returns for a title list with such a title. This is shown per title by `Generation.ScrambleTitleAsWritten`; a whole quiz built with the scrambler as written is not modelled.
- A question that ends with `EOFError` or `IndexError` ends the session. The traceback is not modelled.

## Findings

| source | as written | input that shows it | evidently intended | confidence | as-written member | corrected member |
|---|---|---|---|---|---|---|
| movie_quiz.py:122-128 | the counter `i` is never increased, so `while i < 10` loops until a draw differs from the word, and `return word` is unreachable | any word without two different letters, such as "II" in "Rocky II", "a", or the empty word: every draw equals the word and the loop never returns | at most ten draws, then the word itself | high; not executed | Scramble.ScrambleWordAsWritten | Scramble.ScrambleWord |

`Generation.ScrambleTitle` and everything built on it use the corrected `Scramble.ScrambleWord`. `Generation.ScrambleTitleAsWritten` builds on the loop as written.
