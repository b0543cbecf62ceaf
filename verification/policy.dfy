/**
  The fixed rules a strong password must meet: a length between 6 and 20,
  at least one ASCII digit, one ASCII lowercase and one ASCII uppercase
  letter, and no three identical consecutive characters.
 */
module Policy {

  const MinLength: int := 6
  const MaxLength: int := 20

  /** The three character classes the rules require. */
  datatype CharClass = Digit | Lower | Upper

  /** ASCII-range classification; every other character belongs to no class. */
  predicate InClass(c: char, k: CharClass) {
    match k
    case Digit => '0' <= c <= '9'
    case Lower => 'a' <= c <= 'z'
    case Upper => 'A' <= c <= 'Z'
  }

  /** Some character among the first n of s is in class k. */
  predicate HasBefore(s: seq<char>, n: nat, k: CharClass)
    requires n <= |s|
  {
    exists i :: 0 <= i < n && InClass(s[i], k)
  }

  predicate Has(s: seq<char>, k: CharClass) {
    HasBefore(s, |s|, k)
  }

  /** The deficiency flag of class k after reading the first n characters: 1 while absent, 0 once seen. */
  function MissingBefore(s: seq<char>, n: nat, k: CharClass): nat
    requires n <= |s|
  {
    if HasBefore(s, n, k) then 0 else 1
  }

  function Missing(s: seq<char>, k: CharClass): nat {
    MissingBefore(s, |s|, k)
  }

  /** Number of required classes absent from s. */
  function NeedsSpecial(s: seq<char>): nat {
    Missing(s, Digit) + Missing(s, Lower) + Missing(s, Upper)
  }

  /** No three equal consecutive characters among the first n of s. */
  predicate NoTripleBefore(s: seq<char>, n: nat)
    requires n <= |s|
  {
    forall i :: 2 <= i < n ==> !(s[i - 2] == s[i] && s[i - 1] == s[i])
  }

  predicate NoTripleRepeat(s: seq<char>) {
    NoTripleBefore(s, |s|)
  }

  predicate IsStrong(s: seq<char>) {
    && MinLength <= |s| <= MaxLength
    && Has(s, Digit) && Has(s, Lower) && Has(s, Upper)
    && NoTripleRepeat(s)
  }

  /** The classes are pairwise disjoint, so a character clears at most one flag. */
  lemma ClassesDisjoint(c: char, k: CharClass, k': CharClass)
    requires InClass(c, k) && InClass(c, k')
    ensures k == k'
  {
  }

  /**
    Reading one more character clears exactly the flag of its own class:
    a character outside a class never clears its flag, and a cleared flag
    stays cleared.
   */
  lemma MissingStep(s: seq<char>, i: nat)
    requires i < |s|
    ensures forall k :: MissingBefore(s, i + 1, k) == if InClass(s[i], k) then 0 else MissingBefore(s, i, k)
  {
    forall k
      ensures MissingBefore(s, i + 1, k) == if InClass(s[i], k) then 0 else MissingBefore(s, i, k)
    {
      if HasBefore(s, i + 1, k) && !InClass(s[i], k) {
        var j :| 0 <= j < i + 1 && InClass(s[j], k);
        assert j < i;
      }
    }
  }

  /** Characters equal to one already read change no flag. */
  lemma MissingRepeat(s: seq<char>, j: nat, a: nat, b: nat)
    requires j < a <= b <= |s|
    requires forall i :: a <= i < b ==> s[i] == s[j]
    ensures forall k :: MissingBefore(s, b, k) == MissingBefore(s, a, k)
  {
    forall k
      ensures MissingBefore(s, b, k) == MissingBefore(s, a, k)
    {
      if HasBefore(s, b, k) {
        var w :| 0 <= w < b && InClass(s[w], k);
        if w >= a {
          assert InClass(s[j], k);
        }
      }
    }
  }

  /** NeedsSpecial stays in 0..3 and is 0 exactly when all three classes occur. */
  lemma NeedsSpecialRange(s: seq<char>)
    ensures NeedsSpecial(s) <= 3
    ensures NeedsSpecial(s) == 0 <==> Has(s, Digit) && Has(s, Lower) && Has(s, Upper)
  {
  }
}
