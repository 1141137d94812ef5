/** `Movie`: one quiz question, holding the title, its pool of anagrams, the anagrams
    already shown (`_spent`) and whether the title was guessed. */
module Movies {
  import opened Text

  /** `GuessResult`: the outcome of one guess; `Default` also stands for "no guess yet" and
      for "show another anagram". */
  datatype GuessResult = Default | Correct | Incorrect | Pass

  /** `[x for x in anagrams if x not in spent]`: the anagrams still unshown, in pool order.
      The test is by value, so every copy of a shown anagram is left out. */
  function Unspent(anagrams: seq<string>, spent: seq<string>): (pool: seq<string>)
    ensures forall x :: x in pool <==> x in anagrams && x !in spent
    ensures |pool| <= |anagrams|
  {
    if anagrams == [] then []
    else (if anagrams[0] in spent then [] else [anagrams[0]]) + Unspent(anagrams[1..], spent)
  }

  /** One more shown anagram removes all of its copies from the pool, and nothing else. */
  lemma {:induction false} SpendingRemovesAllCopies(anagrams: seq<string>, spent: seq<string>, a: string)
    ensures a !in Unspent(anagrams, spent + [a])
    ensures |Unspent(anagrams, spent + [a])| == |Unspent(anagrams, spent)| - multiset(Unspent(anagrams, spent))[a]
  {
    if anagrams != [] {
      SpendingRemovesAllCopies(anagrams[1..], spent, a);
      var x := anagrams[0];
      assert x in spent + [a] <==> x in spent || x == a;
    }
  }

  /** A pool whose every anagram is the same string is used up by one draw: for a title like
      "Up", whose only different rearrangement is "pU", all anagrams read "PU", and a second
      draw finds nothing left. */
  lemma UniformPoolLastsOneDraw(anagrams: seq<string>, a: string)
    requires anagrams != []
    requires forall k :: 0 <= k < |anagrams| ==> anagrams[k] == a
    ensures Unspent(anagrams, []) != []
    ensures Unspent(anagrams, [a]) == []
  {
    assert anagrams[0] in Unspent(anagrams, []);
  }

  class Movie {
    const title: string
    var anagrams: seq<string>
    var correctGuess: bool
    var spent: seq<string>

    /** Every shown anagram comes from the pool. */
    ghost predicate Valid()
      reads this
    {
      forall a :: a in spent ==> a in anagrams
    }

    /** `Movie(title, anagrams)`: not guessed yet, nothing shown. */
    constructor (title: string, anagrams: seq<string>)
      ensures Valid()
      ensures this.title == title && this.anagrams == anagrams
      ensures !correctGuess && spent == []
    {
      this.title := title;
      this.anagrams := anagrams;
      correctGuess := false;
      spent := [];
    }

    /** `title_lower`: the title, case aside, with no upper-case letter left. */
    function TitleLower(): (r: string)
      ensures |r| == |title|
      ensures forall i :: 0 <= i < |r| ==> LowerChar(r[i]) == LowerChar(title[i])
      ensures forall i :: 0 <= i < |r| ==> !('A' <= r[i] <= 'Z')
    {
      LowerIdempotent(title);
      Lower(title)
    }

    /** `random_anagram`: `random.choice` picks the unshown anagram at `pick` (modulo the
        number left), which is then recorded as shown. `random.choice` raises on an empty
        list, so an unshown anagram must remain. */
    method RandomAnagram(pick: nat) returns (anagram: string)
      requires Valid()
      requires Unspent(anagrams, spent) != []
      modifies this`spent
      ensures Valid()
      ensures anagram in anagrams && anagram !in old(spent)
      ensures anagram == Unspent(anagrams, old(spent))[pick % |Unspent(anagrams, old(spent))|]
      ensures spent == old(spent) + [anagram]
    {
      var pool := Unspent(anagrams, spent);
      anagram := pool[pick % |pool|];
      spent := spent + [anagram];
    }
  }
}
