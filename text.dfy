/** The string operations the quiz relies on: Python's `str.lower()`, `str.upper()`,
    `str.split()` with no separator, and `' '.join(...)`. Case mapping covers ASCII
    letters only. */
module Text {

  /** The characters for which Python's `str.isspace()` holds. */
  predicate IsSpace(c: char)
  {
    c == ' ' || ('\t' <= c <= '\r') || ('\U{1C}' <= c <= '\U{1F}') ||
    c == '\U{85}' || c == '\U{A0}' || c == '\U{1680}' || ('\U{2000}' <= c <= '\U{200A}') ||
    c == '\U{2028}' || c == '\U{2029}' || c == '\U{202F}' || c == '\U{205F}' || c == '\U{3000}'
  }

  /** A word in the sense of `str.split()`: no whitespace inside. */
  predicate NoSpace(w: string)
  {
    forall i :: 0 <= i < |w| ==> !IsSpace(w[i])
  }

  function LowerChar(c: char): char
  {
    if 'A' <= c <= 'Z' then (c as int + 32) as char else c
  }

  function UpperChar(c: char): char
  {
    if 'a' <= c <= 'z' then (c as int - 32) as char else c
  }

  function Lower(s: string): string
  {
    seq(|s|, i requires 0 <= i < |s| => LowerChar(s[i]))
  }

  function Upper(s: string): string
  {
    seq(|s|, i requires 0 <= i < |s| => UpperChar(s[i]))
  }

  /** Lower-casing twice is lower-casing once, and the result holds no upper-case letter. */
  lemma LowerIdempotent(s: string)
    ensures Lower(Lower(s)) == Lower(s)
    ensures forall i :: 0 <= i < |s| ==> !('A' <= Lower(s)[i] <= 'Z')
  {
  }

  lemma UpperIdempotent(s: string)
    ensures Upper(Upper(s)) == Upper(s)
  {
  }

  lemma UpperAppend(a: string, b: string)
    ensures Upper(a + b) == Upper(a) + Upper(b)
  {
    assert forall i :: 0 <= i < |a + b| ==> Upper(a + b)[i] == (Upper(a) + Upper(b))[i];
  }

  /** Upper-casing two strings made of the same characters gives two strings made of the
      same characters: it acts letter by letter. */
  lemma {:induction false} UpperKeepsPermutation(s: string, t: string)
    requires multiset(s) == multiset(t)
    ensures multiset(Upper(s)) == multiset(Upper(t))
    decreases |s|
  {
    if s == [] {
      assert |t| == |multiset(t)| == 0;
    } else {
      var c := s[0];
      assert c in multiset(t);
      var j :| 0 <= j < |t| && t[j] == c;
      var rest := t[..j] + t[j + 1..];
      assert t == t[..j] + [c] + t[j + 1..];
      assert multiset(t) == multiset(t[..j]) + multiset{c} + multiset(t[j + 1..]);
      assert s == [c] + s[1..];
      assert multiset(s) == multiset{c} + multiset(s[1..]);
      assert multiset(rest) == multiset(t[..j]) + multiset(t[j + 1..]);
      assert multiset(rest) == multiset(t) - multiset{c};
      assert multiset(s[1..]) == multiset(s) - multiset{c};
      UpperKeepsPermutation(s[1..], rest);
      UpperAppend([c], s[1..]);
      UpperAppend(t[..j] + [c], t[j + 1..]);
      UpperAppend(t[..j], [c]);
      UpperAppend(t[..j], t[j + 1..]);
    }
  }

  /** An upper-cased word is still a non-empty word without whitespace. */
  lemma UpperKeepsWord(w: string)
    requires w != [] && NoSpace(w)
    ensures Upper(w) != [] && NoSpace(Upper(w))
  {
  }

  /** The length of the longest whitespace-free prefix of `s`. */
  function WordLen(s: string): (n: nat)
    ensures n <= |s|
    ensures forall i :: 0 <= i < n ==> !IsSpace(s[i])
    ensures n == |s| || IsSpace(s[n])
  {
    if s == [] || IsSpace(s[0]) then 0 else 1 + WordLen(s[1..])
  }

  /** `str.split()`: the maximal runs of non-whitespace characters, in order. */
  function Split(s: string): (words: seq<string>)
    ensures forall k :: 0 <= k < |words| ==> words[k] != [] && NoSpace(words[k])
    decreases |s|
  {
    if s == [] then []
    else if IsSpace(s[0]) then Split(s[1..])
    else
      var n := WordLen(s);
      [s[..n]] + Split(s[n..])
  }

  /** `' '.join(words)`. */
  function JoinSpace(words: seq<string>): string
  {
    if words == [] then []
    else if |words| == 1 then words[0]
    else words[0] + " " + JoinSpace(words[1..])
  }

  lemma {:induction false} WordLenOfWord(w: string, t: string)
    requires NoSpace(w)
    requires t == [] || IsSpace(t[0])
    ensures WordLen(w + t) == |w|
  {
    if w != [] {
      assert (w + t)[1..] == w[1..] + t;
      WordLenOfWord(w[1..], t);
    }
  }

  /** Splitting words joined by single spaces gives the words back, as long as each is a
      non-empty word without whitespace. */
  lemma {:induction false} SplitJoin(words: seq<string>)
    requires forall k :: 0 <= k < |words| ==> words[k] != [] && NoSpace(words[k])
    ensures Split(JoinSpace(words)) == words
  {
    if words == [] {
    } else if |words| == 1 {
      var w := words[0];
      WordLenOfWord(w, []);
      assert w + [] == w;
      assert w[..|w|] == w && w[|w|..] == [];
    } else {
      var w, rest := words[0], JoinSpace(words[1..]);
      var s := w + " " + rest;
      assert s == w + (" " + rest);
      WordLenOfWord(w, " " + rest);
      assert s[..|w|] == w;
      assert s[|w|..] == " " + rest;
      assert (" " + rest)[1..] == rest;
      SplitJoin(words[1..]);
      assert Split(s) == [w] + Split(" " + rest);
    }
  }

  /** Upper-casing a space-joined phrase upper-cases each word. */
  lemma {:induction false} UpperJoin(words: seq<string>)
    ensures Upper(JoinSpace(words)) == JoinSpace(seq(|words|, k requires 0 <= k < |words| => Upper(words[k])))
  {
    var ups := seq(|words|, k requires 0 <= k < |words| => Upper(words[k]));
    if |words| >= 2 {
      UpperJoin(words[1..]);
      assert ups[1..] == seq(|words[1..]|, k requires 0 <= k < |words[1..]| => Upper(words[1..][k]));
      UpperAppend(words[0] + " ", JoinSpace(words[1..]));
      UpperAppend(words[0], " ");
    }
  }
}
