/*
 * Shared pieces used by several of the games.
 *
 * `Random` stands in for `Math.random()`: the games only ever use it as
 * `Math.floor(Math.random() * n)`, an index below `n`, so the model promises
 * exactly that and nothing about the distribution.  The body is a small
 * linear congruential generator so that the class has a real implementation.
 */
module Common {

  datatype Option<T> = None | Some(value: T)

  class Random {
    var seed: nat

    constructor (s: nat)
      ensures seed == s
    {
      seed := s;
    }

    /** Models `Math.floor(Math.random() * n)`. */
    method Below(n: nat) returns (j: nat)
      requires n > 0
      modifies this
      ensures j < n
    {
      seed := (seed * 1103515245 + 12345) % 2147483648;
      j := seed % n;
    }
  }

  /** Swapping two entries keeps the multiset of the sequence. */
  lemma {:induction false} SwapKeepsMultiset<T>(s: seq<T>, i: nat, j: nat)
    requires i < |s| && j < |s|
    ensures multiset(s[i := s[j]][j := s[i]]) == multiset(s)
  {
    if i != j {
      calc {
        multiset(s[i := s[j]][j := s[i]]);
        multiset(s[i := s[j]]) - multiset{s[j]} + multiset{s[i]};
        multiset(s) - multiset{s[i]} + multiset{s[j]} - multiset{s[j]} + multiset{s[i]};
        multiset(s);
      }
    }
  }

  /**
   * The Fisher-Yates shuffle written out in sudoku.js (shuffleArray),
   * crossword.js and memory.js: for i from the end down to 1, swap entry i
   * with a random entry at or before it.  The result is a rearrangement of
   * the input.
   */
  method Shuffle<T>(a: array<T>, rng: Random)
    modifies a, rng
    ensures multiset(a[..]) == multiset(old(a[..]))
  {
    var i := a.Length - 1;
    while i > 0
      invariant -1 <= i < a.Length
      invariant multiset(a[..]) == multiset(old(a[..]))
    {
      var j := rng.Below(i + 1);
      SwapKeepsMultiset(a[..], i, j);
      a[i], a[j] := a[j], a[i];
      i := i - 1;
    }
  }

  /** `Array.prototype.indexOf`: the first index holding `x`, or -1. */
  function IndexOf<T(==)>(s: seq<T>, x: T): (r: int)
    ensures -1 <= r < |s|
    ensures r == -1 <==> x !in s
    ensures r >= 0 ==> s[r] == x && x !in s[..r]
  {
    if |s| == 0 then -1
    else if s[0] == x then 0
    else var k := IndexOf(s[1..], x); if k == -1 then -1 else k + 1
  }

  /** No entry occurs twice. */
  predicate Distinct<T(==)>(s: seq<T>) {
    forall i, j :: 0 <= i < j < |s| ==> s[i] != s[j]
  }

  /** The sequence 0, 1, ..., n - 1 (`[...Array(n).keys()]`). */
  function Range(n: nat): (s: seq<int>)
    ensures |s| == n && forall i :: 0 <= i < n ==> s[i] == i
  {
    seq(n, i => i)
  }

  lemma {:induction false} CountAtMostOne<T>(s: seq<T>, x: T)
    requires Distinct(s)
    ensures multiset(s)[x] <= 1
  {
    if |s| > 0 {
      assert s == [s[0]] + s[1..];
      assert Distinct(s[1..]);
      CountAtMostOne(s[1..], x);
      if s[0] == x {
        assert x !in s[1..];
      }
    }
  }

  /** A rearrangement of a sequence without repeats has no repeats. */
  lemma PermutationKeepsDistinct<T>(a: seq<T>, b: seq<T>)
    requires multiset(a) == multiset(b) && Distinct(b)
    ensures Distinct(a)
  {
    forall i, j | 0 <= i < j < |a|
      ensures a[i] != a[j]
    {
      if a[i] == a[j] {
        assert a == a[..j] + a[j..];
        assert a[i] in a[..j] && a[j] in a[j..];
        assert multiset(a)[a[i]] == multiset(a[..j])[a[i]] + multiset(a[j..])[a[i]];
        CountAtMostOne(b, a[i]);
        assert false;
      }
    }
  }
}
