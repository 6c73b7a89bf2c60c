/** Letter counting and the index of coincidence (slippery.c,
    `index_of_coincidence` and `monogram_frequencies`). */
module Coincidence {
  import opened Letters
  import opened Wrappers

  /** How often each letter occurs in text, by alphabet rank. */
  function CountsOf(text: seq<int>): seq<int> {
    seq(AlphabetSize, k requires 0 <= k < AlphabetSize => multiset(text)[LetterA + k])
  }

  function Sum(xs: seq<int>): int {
    if xs == [] then 0 else Sum(xs[..|xs| - 1]) + xs[|xs| - 1]
  }

  /** The sum of x*(x-1) over the entries x: ordered pairs of equal letters. */
  function PairSum(xs: seq<int>): int {
    if xs == [] then 0 else PairSum(xs[..|xs| - 1]) + xs[|xs| - 1] * (xs[|xs| - 1] - 1)
  }

  /** The index of coincidence 26 * sum c(c-1) / (n(n-1)) of a text of n
      letters; None (the C program's NaN) when n < 2 and the divisor is 0. */
  function Ioc(text: seq<int>): Option<real> {
    var n := |text|;
    if n < 2 then None
    else Some((26 * PairSum(CountsOf(text))) as real / (n * (n - 1)) as real)
  }

  lemma {:induction false} SumUpdate(xs: seq<int>, k: int, v: int)
    requires 0 <= k < |xs|
    ensures Sum(xs[k := v]) == Sum(xs) - xs[k] + v
  {
    var last := |xs| - 1;
    if k < last {
      SumUpdate(xs[..last], k, v);
      assert xs[k := v][..last] == xs[..last][k := v];
    } else {
      assert xs[k := v][..last] == xs[..last];
    }
  }

  /** The letter counts of a text of letters add up to its length. */
  lemma {:induction false} CountsAddUp(text: seq<int>)
    requires AllLetters(text)
    ensures Sum(CountsOf(text)) == |text|
  {
    if text == [] {
      assert CountsOf(text) == seq(AlphabetSize, k => 0);
      ZeroSum(AlphabetSize);
    } else {
      var init := text[..|text| - 1];
      var x := text[|text| - 1];
      assert text == init + [x];
      CountsAddUp(init);
      assert CountsOf(text) == CountsOf(init)[x - LetterA := CountsOf(init)[x - LetterA] + 1];
      SumUpdate(CountsOf(init), x - LetterA, CountsOf(init)[x - LetterA] + 1);
    }
  }

  lemma {:induction false} ZeroSum(n: nat)
    ensures Sum(seq(n, k => 0)) == 0
  {
    if n > 0 {
      assert seq(n, k => 0)[..n - 1] == seq(n - 1, k => 0);
      ZeroSum(n - 1);
    }
  }

  /** `index_of_coincidence(text)`: count the letters, then form the sum
      of c(c-1) and the total. */
  method IndexOfCoincidence(text: seq<int>) returns (ioc: Option<real>)
    requires AllLetters(text)
    ensures ioc == Ioc(text)
  {
    var counts := new int[AlphabetSize];
    var i := 0;
    while i < AlphabetSize
      invariant 0 <= i <= AlphabetSize
      invariant forall k :: 0 <= k < i ==> counts[k] == 0
    {
      counts[i] := 0;
      i := i + 1;
    }
    var length := |text|;
    i := 0;
    while i < length
      invariant 0 <= i <= length
      invariant counts[..] == CountsOf(text[..i])
    {
      assert text[..i + 1] == text[..i] + [text[i]];
      counts[text[i] - LetterA] := counts[text[i] - LetterA] + 1;
      i := i + 1;
    }
    assert text[..i] == text;
    var numer, total := PairsAndTotal(counts);
    CountsAddUp(text);
    NoPairsDivisor(total);
    if total * (total - 1) == 0 {
      ioc := None;
    } else {
      ioc := Some((26 * numer) as real / (total * (total - 1)) as real);
    }
  }

  /** n(n-1), the divisor of the index of coincidence, is 0 exactly when
      n < 2. */
  lemma NoPairsDivisor(n: nat)
    ensures n * (n - 1) == 0 <==> n < 2
  {
    if n >= 2 {
      AtLeastOnce(n, n - 1);
    }
  }

  /** The last loop of `index_of_coincidence`: the sum of c(c-1) and the
      sum of c over the counts. */
  method PairsAndTotal(counts: array<int>) returns (numer: int, total: int)
    ensures numer == PairSum(counts[..]) && total == Sum(counts[..])
  {
    numer, total := 0, 0;
    var i := 0;
    while i < counts.Length
      invariant 0 <= i <= counts.Length
      invariant numer == PairSum(counts[..i]) && total == Sum(counts[..i])
    {
      assert counts[..i + 1][..i] == counts[..i];
      numer := numer + counts[i] * (counts[i] - 1);
      total := total + counts[i];
      i := i + 1;
    }
    assert counts[..i] == counts[..];
  }

  /** `monogram_frequencies(text, freqs)`, as counts: the C program scales
      every count by 1/total, which keeps their order. */
  method MonogramFrequencies(text: seq<int>, freqs: array<int>)
    requires AllLetters(text) && freqs.Length == AlphabetSize
    modifies freqs
    ensures freqs[..] == CountsOf(text)
  {
    var i := 0;
    while i < AlphabetSize
      invariant 0 <= i <= AlphabetSize
      invariant forall k :: 0 <= k < i ==> freqs[k] == 0
    {
      freqs[i] := 0;
      i := i + 1;
    }
    var length := |text|;
    i := 0;
    while i < length
      invariant 0 <= i <= length
      invariant freqs[..] == CountsOf(text[..i])
    {
      assert text[..i + 1] == text[..i] + [text[i]];
      freqs[text[i] - LetterA] := freqs[text[i] - LetterA] + 1;
      i := i + 1;
    }
    assert text[..i] == text;
  }

  lemma {:induction false} PairSumUpdate(xs: seq<int>, k: int, v: int)
    requires 0 <= k < |xs|
    ensures PairSum(xs[k := v]) == PairSum(xs) - xs[k] * (xs[k] - 1) + v * (v - 1)
  {
    var last := |xs| - 1;
    if k < last {
      PairSumUpdate(xs[..last], k, v);
      assert xs[k := v][..last] == xs[..last][k := v];
    } else {
      assert xs[k := v][..last] == xs[..last];
    }
  }

  /** Entries of 0 and 1 contribute no pairs. */
  lemma {:induction false} NoPairs(xs: seq<int>)
    requires forall k :: 0 <= k < |xs| ==> 0 <= xs[k] <= 1
    ensures PairSum(xs) == 0
  {
    if xs != [] {
      NoPairs(xs[..|xs| - 1]);
    }
  }

  /** A text made of one letter repeated n times counts n for that letter
      and 0 for every other value. */
  lemma {:induction false} RepeatedLetterCount(text: seq<int>, x: int, y: int)
    requires forall i :: 0 <= i < |text| ==> text[i] == x
    ensures multiset(text)[y] == if y == x then |text| else 0
  {
    if text != [] {
      var init := text[..|text| - 1];
      assert text == init + [x];
      RepeatedLetterCount(init, x, y);
    }
  }

  /** One letter repeated: every pair coincides and the index of
      coincidence is 26, its largest value. */
  lemma IocOfRepeatedLetter(text: seq<int>)
    requires |text| >= 2 && IsLetter(text[0])
    requires forall i :: 0 <= i < |text| ==> text[i] == text[0]
    ensures Ioc(text) == Some(26.0)
  {
    var n := |text|;
    var x := text[0];
    var zeros := seq(AlphabetSize, k => 0);
    forall k | 0 <= k < AlphabetSize ensures CountsOf(text)[k] == zeros[x - LetterA := n][k] {
      RepeatedLetterCount(text, x, LetterA + k);
    }
    assert CountsOf(text) == zeros[x - LetterA := n];
    NoPairs(zeros);
    PairSumUpdate(zeros, x - LetterA, n);
    var m := n * (n - 1);
    assert PairSum(CountsOf(text)) == m;
    assert m > 0;
    assert (26 * m) as real == 26.0 * m as real;
    RealQuotient(26.0, m as real);
    assert Ioc(text) == Some((26 * m) as real / m as real);
  }

  lemma RealQuotient(a: real, d: real)
    requires d > 0.0
    ensures (a * d) / d == a
  {
  }

  /** No letter repeated: no pair coincides and the index of coincidence
      is 0. */
  lemma IocOfDistinctLetters(text: seq<int>)
    requires |text| >= 2 && AllLetters(text) && Distinct(text)
    ensures Ioc(text) == Some(0.0)
  {
    var counts := CountsOf(text);
    forall k | 0 <= k < AlphabetSize ensures 0 <= counts[k] <= 1 {
      if LetterA + k in text {
        OccursOnce(text, LetterA + k);
      }
    }
    NoPairs(counts);
  }

  /** For counts that are not negative, the pairs of equal letters are
      at most all the ordered pairs. */
  lemma {:induction false} PairSumBounds(xs: seq<int>)
    requires forall k :: 0 <= k < |xs| ==> 0 <= xs[k]
    ensures 0 <= PairSum(xs) <= Sum(xs) * (Sum(xs) - 1)
    ensures 0 <= Sum(xs)
  {
    if xs != [] {
      var init := xs[..|xs| - 1];
      var x := xs[|xs| - 1];
      PairSumBounds(init);
      var s := Sum(init);
      assert x * (x - 1) >= 0 by {
        if x > 0 { assert x - 1 >= 0; }
      }
      assert (s + x) * (s + x - 1) == s * (s - 1) + 2 * s * x + x * (x - 1);
      assert 2 * s * x >= 0;
    }
  }

  /** The index of coincidence lies between 0 and 26. */
  lemma IocBounds(text: seq<int>)
    requires |text| >= 2 && AllLetters(text)
    ensures Ioc(text).Some? && 0.0 <= Ioc(text).value <= 26.0
  {
    var n := |text|;
    CountsAddUp(text);
    PairSumBounds(CountsOf(text));
    var numer := PairSum(CountsOf(text));
    assert n * (n - 1) >= n by {
      AtLeastOnce(n, n - 1);
    }
    RatioBound(numer, n * (n - 1));
  }

  /** A count taken m >= 1 times is at least the count. */
  lemma AtLeastOnce(q: int, m: int)
    requires 0 <= q && 1 <= m
    ensures q <= q * m
  {
    assert q * m == q + q * (m - 1);
  }

  /** 26 a / d lies between 0 and 26 when 0 <= a <= d. */
  lemma RatioBound(a: int, d: int)
    requires 0 <= a <= d && 0 < d
    ensures 0.0 <= (26 * a) as real / d as real <= 26.0
  {
    var x, y := (26 * a) as real, d as real;
    assert x <= 26.0 * y;
    RealQuotient(26.0, y);
  }
}
