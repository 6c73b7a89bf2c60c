/** The whole of `main` in slippery.c: find the period, set the initial
    key, then hill-climb for a number of rounds that grows with the square
    of the period and shrinks with the text length. */
module Solver {
  import opened Letters
  import opened Coincidence
  import opened Keys
  import opened Period
  import opened KeyInit
  import opened Climb

  /** MAXTEXTLEN: the size of the text buffers c, p, slice and bestp. */
  const MaxTextLen: int := 10000

  /** The constant factor of the climb's budget. */
  const BudgetFactor: int := 5000000

  const TwoTo31: int := 0x8000_0000
  const TwoTo32: int := 0x1_0000_0000

  /** A 32-bit `int` result: the value congruent to x modulo 2^32 in
      -2^31 .. 2^31 - 1 (two's complement wrap-around). */
  function Wrap32(x: int): (r: int)
    ensures -TwoTo31 <= r < TwoTo31
    ensures (x - r) % TwoTo32 == 0
    ensures -TwoTo31 <= x < TwoTo31 ==> r == x
  {
    (x + TwoTo31) % TwoTo32 - TwoTo31
  }

  /** C's integer division by a positive divisor: it truncates toward
      zero, so a negative quotient is rounded up. */
  function CDiv(a: int, b: int): (q: int)
    requires 0 < b
    ensures 0 <= a ==> q == a / b
    ensures a < 0 ==> q <= 0 && -q == (-a) / b
  {
    if 0 <= a then a / b else -((-a) / b)
  }

  /** The loop bound `5000000*period*period/length` of slippery.c:208 as
      written: every operand is an `int`, so both products are 32-bit. */
  function BudgetAsWritten(period: int, length: int): int
    requires 0 < length
  {
    CDiv(Wrap32(Wrap32(BudgetFactor * period) * period), length)
  }

  /** The bound as intended: the exact quotient, which for every period
      and text length the program accepts is positive and fits in the
      64-bit `long` of `bigcount`. */
  function Budget(period: int, length: int): (n: int)
    requires 0 < period <= MaxKeyLen && 0 < length < MaxTextLen
    ensures 0 < n < 0x8000_0000_0000_0000
  {
    BudgetBounds(period, length);
    BudgetFactor * period * period / length
  }

  lemma BudgetBounds(period: int, length: int)
    requires 0 < period <= MaxKeyLen && 0 < length < MaxTextLen
    ensures 0 < BudgetFactor * period * period / length < 0x8000_0000_0000_0000
  {
    var square := period * period;
    SquareBounds(period, MaxKeyLen);
    var n := BudgetFactor * square;
    assert BudgetFactor * period * period == n;
    assert length <= n;
    QuotientBounds(n, length);
  }

  lemma SquareBounds(period: int, limit: int)
    requires 0 < period <= limit
    ensures 1 <= period * period <= limit * limit
  {
    assert period * period <= limit * period;
    assert limit * period <= limit * limit;
  }

  lemma QuotientBounds(n: int, d: int)
    requires 0 < d <= n
    ensures 1 <= n / d <= n
  {
    var q := n / d;
    DivisionFacts(n, d);
    assert n % d < d;
    AtLeastOnce(q, d);
  }

  /** Up to period 20 the products fit in 32 bits, and the bound as
      written is the intended one. */
  lemma BudgetAgrees(period: int, length: int)
    requires 0 < period <= 20 && 0 < length < MaxTextLen
    ensures BudgetAsWritten(period, length) == Budget(period, length)
  {
    SquareBounds(period, 20);
    assert BudgetFactor * period * period == (BudgetFactor * period) * period;
    assert BudgetFactor * period * period <= BudgetFactor * 400;
  }

  /** At period 21 and a text of 1000 letters the second product
      overflows: the bound as written is negative, so the main loop's test
      `bigcount < bound` fails at once and no child is ever tried. */
  lemma BudgetOverflows()
    ensures BudgetAsWritten(21, 1000) == -2089967
    ensures !(0 < BudgetAsWritten(21, 1000))
    ensures Budget(21, 1000) == 2205000
  {
  }

  /** Every letter of a slice is a letter of the ciphertext. */
  lemma SliceLetters(c: seq<int>, period: int, i: int)
    requires AllLetters(c) && 0 <= i < period
    ensures AllLetters(Slice(c, period, i))
  {
  }

  /** `main` once a period has passed the test: the initial key from the
      last slice the search built, then the hill climb with that period's
      bound. The climb's bound is the exact quotient Budget rather than the
      32-bit value slippery.c:208 computes; the two agree up to period 20
      (BudgetAgrees). */
  method BreakPeriod(c: seq<int>, monograms: seq<int>, fit: seq<int> -> real,
                     layouts: seq<seq<int>>, swaps: seq<(int, int)>, period: int, slice: array<int>)
    returns (bestf: real, bestp: array<int>, bestk: array2<int>, bigcount: int, exhausted: bool,
             ghost initial: seq<seq<int>>, ghost steps: seq<Step>, ghost scores: seq<real>)
    requires AllLetters(c) && |c| < MaxTextLen
    requires |monograms| == AlphabetSize && NonNegative(monograms)
    requires ValidLayouts(layouts) && ValidSwaps(swaps)
    requires 1 <= period <= MaxKeyLen && PeriodAccepted(c, period) && HoldsLastSlice(c, period, slice)
    ensures 2 <= SliceLength(|c|, period)
    ensures |initial| == period && IsKey(initial)
    ensures forall i :: 0 <= i < period ==>
      RankOrdered(initial[i], monograms, CountsOf(Slice(c, period, period - 1)))
    ensures ClimbTrace(c, fit, period, layouts, swaps, initial, steps, scores)
    ensures BestTracked(KeyFitness(fit, c, initial), scores, bestf, bigcount)
    ensures KeyFitness(fit, c, initial) < bestf ==> BestRecorded(c, period, bestk, bestp, fit, bestf, steps, bigcount)
    ensures !exhausted ==> Budget(period, |c|) <= bigcount
    ensures !exhausted && period <= 20 ==> BudgetAsWritten(period, |c|) <= bigcount
    ensures !exhausted ==>
      steps != [] && steps[|steps| - 1].col == period - 1 && steps[|steps| - 1].run == Patience
    ensures SweepsBelow(KeyFitness(fit, c, initial), Budget(period, |c|), steps, scores)
    ensures exhausted ==> RanOut(layouts, swaps, steps)
  {
    AcceptedSlicesLongEnough(c, period);
    var n := SliceLength(|c|, period);
    var last := slice[..n];
    SliceLetters(c, period, period - 1);
    var pk := new int[MaxKeyLen, AlphabetSize];
    InitialKeys(pk, period, last, monograms);
    initial := Key(pk, period);
    var ck := new int[MaxKeyLen, AlphabetSize];
    var p := new int[MaxTextLen];
    bestp := new int[MaxTextLen];
    bestk := new int[MaxKeyLen, AlphabetSize];
    bestf, bigcount, exhausted, steps, scores :=
      HillClimb(c, period, pk, ck, bestk, p, bestp, fit, Budget(period, |c|), layouts, swaps);
    if period <= 20 {
      BudgetAgrees(period, |c|);
    }
  }

  /** `main` after reading the ciphertext: the period search, then, for
      the period found, the initial key and the hill climb (BreakPeriod).
      When no period up to MAXKEYLEN passes the test nothing else is done;
      the source would search on without end. */
  method Solve(c: seq<int>, monograms: seq<int>, fit: seq<int> -> real,
               layouts: seq<seq<int>>, swaps: seq<(int, int)>)
    returns (found: bool, period: int, bestf: real, bestp: array<int>, bestk: array2<int>,
             bigcount: int, exhausted: bool,
             ghost initial: seq<seq<int>>, ghost steps: seq<Step>, ghost scores: seq<real>)
    requires AllLetters(c) && |c| < MaxTextLen
    requires |monograms| == AlphabetSize && NonNegative(monograms)
    requires ValidLayouts(layouts) && ValidSwaps(swaps)
    ensures 1 <= period <= MaxKeyLen
    ensures found <==> PeriodAccepted(c, period)
    ensures forall q :: 1 <= q < period ==> !PeriodAccepted(c, q)
    ensures found ==> 2 <= SliceLength(|c|, period)
    ensures found ==> |initial| == period && IsKey(initial)
    ensures found ==> forall i :: 0 <= i < period ==>
      RankOrdered(initial[i], monograms, CountsOf(Slice(c, period, period - 1)))
    ensures found ==> ClimbTrace(c, fit, period, layouts, swaps, initial, steps, scores)
    ensures found ==> BestTracked(KeyFitness(fit, c, initial), scores, bestf, bigcount)
    ensures found && KeyFitness(fit, c, initial) < bestf ==>
      BestRecorded(c, period, bestk, bestp, fit, bestf, steps, bigcount)
    ensures found && !exhausted ==> Budget(period, |c|) <= bigcount
    ensures found && !exhausted && period <= 20 ==> BudgetAsWritten(period, |c|) <= bigcount
    ensures found && !exhausted ==>
      steps != [] && steps[|steps| - 1].col == period - 1 && steps[|steps| - 1].run == Patience
    ensures found ==> SweepsBelow(KeyFitness(fit, c, initial), Budget(period, |c|), steps, scores)
    ensures found && exhausted ==> RanOut(layouts, swaps, steps)
    ensures !found ==> period == MaxKeyLen && steps == [] && scores == []
  {
    var slice := new int[MaxTextLen];
    period, found := FindPeriod(c, slice);
    if found {
      bestf, bestp, bestk, bigcount, exhausted, initial, steps, scores :=
        BreakPeriod(c, monograms, fit, layouts, swaps, period, slice);
    } else {
      bestp := new int[MaxTextLen];
      bestk := new int[MaxKeyLen, AlphabetSize];
      bestf, bigcount, exhausted, initial, steps, scores := 0.0, 0, false, [], [], [];
    }
  }
}
