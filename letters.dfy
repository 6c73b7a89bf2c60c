/** Letters, key columns and the counting facts that make "a column is a
    permutation of A-Z" usable.

    A C `char` is a small integer, so characters are modelled as `int`:
    the letters 'A'..'Z' are 65..90, and the sentinel -1 that slippery.c
    writes into unfilled key slots is representable. */
module Letters {

  /** The code of 'A'. */
  const LetterA: int := 65

  /** Number of letters in the alphabet, and so the width of a key column. */
  const AlphabetSize: int := 26

  /** The empty-slot / consumed-entry sentinel of slippery.c. */
  const Unfilled: int := -1

  predicate IsLetter(x: int) {
    LetterA <= x < LetterA + AlphabetSize
  }

  /** The canonical alphabet "ABCDEFGHIJKLMNOPQRSTUVWXYZ". */
  function Alphabet(): (s: seq<int>)
    ensures |s| == AlphabetSize
    ensures forall i :: 0 <= i < AlphabetSize ==> IsLetter(s[i]) && s[i] - LetterA == i
  {
    seq(AlphabetSize, i => LetterA + i)
  }

  predicate AllLetters(s: seq<int>) {
    forall i :: 0 <= i < |s| ==> IsLetter(s[i])
  }

  predicate Distinct(s: seq<int>) {
    forall i, j :: 0 <= i < j < |s| ==> s[i] != s[j]
  }

  /** A key column: 26 letters, no letter twice. ColumnHasEveryLetter shows
      that such a column also holds every letter, i.e. it is a permutation
      of A-Z. */
  predicate IsColumn(s: seq<int>) {
    |s| == AlphabetSize && AllLetters(s) && Distinct(s)
  }

  /** The indices 0..n-1 as a set. */
  function Range(n: nat): (r: set<int>)
    ensures forall k :: k in r <==> 0 <= k < n
  {
    if n == 0 then {} else Range(n - 1) + {n - 1}
  }

  /** The values occurring in a sequence. */
  function Values(s: seq<int>): set<int> {
    set x | x in s
  }

  lemma {:induction false} RangeSize(n: nat)
    ensures |Range(n)| == n
  {
    if n > 0 {
      RangeSize(n - 1);
      assert Range(n) == Range(n - 1) + {n - 1};
    }
  }

  /** A subset at least as large as its superset is the whole superset. */
  lemma FullSubset(a: set<int>, b: set<int>)
    requires a <= b && |a| >= |b|
    ensures a == b
  {
    assert |b - a| == 0;
    assert forall y :: y in b ==> y in a || y in b - a;
  }

  /** A sequence without repetitions has as many values as entries. */
  lemma {:induction false} DistinctValues(s: seq<int>)
    requires Distinct(s)
    ensures |Values(s)| == |s|
  {
    if s != [] {
      var init := s[..|s| - 1];
      DistinctValues(init);
      assert Values(s) == Values(init) + {s[|s| - 1]};
    }
  }

  /** Pigeonhole: a column holds every letter, so it is a permutation of
      the alphabet and every ciphertext letter can be found in it. */
  lemma ColumnHasEveryLetter(s: seq<int>, x: int)
    requires IsColumn(s) && IsLetter(x)
    ensures x in s
  {
    var letters := Alphabet();
    DistinctValues(s);
    DistinctValues(letters);
    assert Values(s) <= Values(letters) by {
      forall y | y in Values(s) ensures y in Values(letters) {
        assert letters[y - LetterA] == y;
      }
    }
    FullSubset(Values(s), Values(letters));
    assert letters[x - LetterA] == x;
    assert x in Values(letters);
  }

  /** A column in the other common sense: each letter occurs exactly once. */
  lemma ColumnIsPermutation(s: seq<int>)
    requires IsColumn(s)
    ensures multiset(s) == multiset(Alphabet())
  {
    forall x ensures multiset(s)[x] == multiset(Alphabet())[x] {
      if IsLetter(x) {
        ColumnHasEveryLetter(s, x);
        OccursOnce(s, x);
        assert Alphabet()[x - LetterA] == x;
        OccursOnce(Alphabet(), x);
      } else {
        assert x !in s;
        assert x !in Alphabet();
      }
    }
  }

  lemma {:induction false} OccursOnce(s: seq<int>, x: int)
    requires Distinct(s) && x in s
    ensures multiset(s)[x] == 1
  {
    var init := s[..|s| - 1];
    assert s == init + [s[|s| - 1]];
    if s[|s| - 1] == x {
      assert x !in init;
    } else {
      OccursOnce(init, x);
    }
  }
}
