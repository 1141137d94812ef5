/** The random reorderings the quiz asks Python's `random` module for:
    `random.sample(word, len(word))` and `random.shuffle(questions)`. Both yield some
    permutation of their input; which one is fixed here by an oracle, the sequence of
    positions picked, so that the model is deterministic once the oracle is given. */
module Shuffle {

  /** The element picked at each step: `picks[0]`, taken modulo the number of elements still
      left, goes first; the rest is reordered by `picks[1..]`. Missing picks choose the first
      element left, so every `picks` is a valid oracle, and every permutation has one. */
  function Shuffled<T>(s: seq<T>, picks: seq<nat>): (r: seq<T>)
    ensures |r| == |s|
    decreases |s|
  {
    if s == [] then []
    else
      var j := (if picks == [] then 0 else picks[0]) % |s|;
      [s[j]] + Shuffled(s[..j] + s[j + 1..], if picks == [] then [] else picks[1..])
  }

  /** A shuffle is a permutation: every element occurs as often as before. */
  lemma {:induction false} ShuffledPermutes<T>(s: seq<T>, picks: seq<nat>)
    ensures multiset(Shuffled(s, picks)) == multiset(s)
    decreases |s|
  {
    if s != [] {
      var j := (if picks == [] then 0 else picks[0]) % |s|;
      var rest := s[..j] + s[j + 1..];
      var tail := if picks == [] then [] else picks[1..];
      ShuffledPermutes(rest, tail);
      assert Shuffled(s, picks) == [s[j]] + Shuffled(rest, tail);
      TakeOut(s, j);
    }
  }

  /** One step of the shuffle: the picked element goes first. */
  lemma ShuffledStep<T>(s: seq<T>, picks: seq<nat>)
    requires s != []
    ensures var j := (if picks == [] then 0 else picks[0]) % |s|;
      Shuffled(s, picks) == [s[j]] + Shuffled(s[..j] + s[j + 1..], if picks == [] then [] else picks[1..])
  {
  }

  /** Every rearrangement of `s` is the shuffle of some oracle, so that a property proved
      for all `picks` holds of every outcome `random.sample` and `random.shuffle` can give. */
  lemma EveryPermutationReached<T>(s: seq<T>, p: seq<T>)
    requires multiset(p) == multiset(s)
    ensures exists picks :: Shuffled(s, picks) == p
  {
    var picks := PicksFor(s, p);
  }

  /** The oracle that rearranges `s` into `p`: at each step, the position in what is left
      of `s` of the next element of `p`. */
  lemma {:induction false} PicksFor<T>(s: seq<T>, p: seq<T>) returns (picks: seq<nat>)
    requires multiset(p) == multiset(s)
    ensures Shuffled(s, picks) == p
    decreases |s|
  {
    if s == [] {
      assert |p| == |multiset(p)| == 0;
      picks := [];
    } else {
      var j := MatchFirst(s, p);
      var tail := PicksFor(s[..j] + s[j + 1..], p[1..]);
      picks := [j] + tail;
      assert picks != [] && picks[0] == j && picks[1..] == tail;
      SmallModulus(j, |s|);
      ShuffledStep(s, picks);
      assert Shuffled(s, picks) == [s[j]] + Shuffled(s[..j] + s[j + 1..], tail);
      assert p == [p[0]] + p[1..];
    }
  }

  lemma SmallModulus(a: nat, n: nat)
    requires a < n
    ensures a % n == a
  {
  }

  /** The first element of a rearrangement of a non-empty `s` sits at some `j` in `s`, and
      what follows it rearranges `s` without that element. */
  lemma MatchFirst<T>(s: seq<T>, p: seq<T>) returns (j: nat)
    requires s != [] && multiset(p) == multiset(s)
    ensures j < |s| && s[j] == p[0] && p != []
    ensures multiset(p[1..]) == multiset(s[..j] + s[j + 1..])
  {
    assert |p| == |multiset(p)| == |multiset(s)| == |s|;
    assert p[0] in multiset(s);
    j :| 0 <= j < |s| && s[j] == p[0];
    TakeOut(s, j);
    assert p == [p[0]] + p[1..];
    assert multiset(p) == multiset{p[0]} + multiset(p[1..]);
    assert multiset(p[1..]) == multiset(p) - multiset{p[0]};
    assert multiset(s[..j] + s[j + 1..]) == multiset(s) - multiset{s[j]};
  }

  /** Taking the element at `j` out of `s` leaves the rest of its elements. */
  lemma TakeOut<T>(s: seq<T>, j: nat)
    requires j < |s|
    ensures multiset(s) == multiset{s[j]} + multiset(s[..j] + s[j + 1..])
  {
    assert s == s[..j] + [s[j]] + s[j + 1..];
  }

  /** Whatever is in a shuffled sequence was in the original, and the other way round. */
  lemma ShuffledMembers<T>(s: seq<T>, picks: seq<nat>, x: T)
    ensures x in Shuffled(s, picks) <==> x in s
  {
    ShuffledPermutes(s, picks);
    assert x in Shuffled(s, picks) <==> x in multiset(Shuffled(s, picks));
  }

  /** Shuffling keeps pairwise-distinct elements pairwise distinct. */
  lemma {:induction false} ShuffledDistinct<T>(s: seq<T>, picks: seq<nat>)
    requires Distinct(s)
    ensures Distinct(Shuffled(s, picks))
    decreases |s|
  {
    if s != [] {
      var j := (if picks == [] then 0 else picks[0]) % |s|;
      var rest := s[..j] + s[j + 1..];
      var tail := if picks == [] then [] else picks[1..];
      RemoveKeepsDistinct(s, j);
      ShuffledDistinct(rest, tail);
      var r := Shuffled(rest, tail);
      assert Shuffled(s, picks) == [s[j]] + r;
      forall x | x in r ensures x != s[j] {
        ShuffledMembers(rest, tail, x);
      }
      PrependKeepsDistinct(s[j], r);
    }
  }

  ghost predicate Distinct<T>(s: seq<T>)
  {
    forall i, j :: 0 <= i < j < |s| ==> s[i] != s[j]
  }

  lemma RemoveKeepsDistinct<T>(s: seq<T>, j: nat)
    requires Distinct(s) && j < |s|
    ensures Distinct(s[..j] + s[j + 1..]) && s[j] !in s[..j] + s[j + 1..]
  {
    var rest := s[..j] + s[j + 1..];
    forall a | 0 <= a < |rest| ensures rest[a] == s[if a < j then a else a + 1] {
    }
  }

  lemma PrependKeepsDistinct<T>(x: T, r: seq<T>)
    requires Distinct(r) && x !in r
    ensures Distinct([x] + r)
  {
    var q := [x] + r;
    forall a, b | 0 <= a < b < |q| ensures q[a] != q[b] {
      assert q[b] == r[b - 1];
      if a > 0 { assert q[a] == r[a - 1]; }
    }
  }

  lemma AppendKeepsDistinct<T>(s: seq<T>, x: T)
    requires Distinct(s) && x !in s
    ensures Distinct(s + [x])
  {
  }
}
