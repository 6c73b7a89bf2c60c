/** Period detection (slippery.c, the first loop of `main`): for period
    1, 2, ... cut the ciphertext into `period` interleaved slices, average
    their indices of coincidence, and stop at the first period whose
    average exceeds 1.65 and 1.2 times the previous period's average. */
module Period {
  import opened Letters
  import opened Wrappers
  import opened Coincidence
  import Keys

  /** IOCTHRESHOLD */
  const IocThreshold: real := 1.65
  /** IOCMULTTHRESH */
  const IocMultThresh: real := 1.2
  /** The initial value of `oldioc`, the "previous average" of period 1. */
  const InitialOldIoc: real := 99.0

  /** The ciphertext position read for letter j of slice i. */
  function SlicePos(period: int, i: int, j: int): int {
    period * j + i
  }

  /** Every read c[period*j+i] of the slicing loop is inside the text. */
  lemma SliceIndexInBounds(length: nat, period: int, i: int, j: int)
    requires 0 <= i < period && 0 <= j < length / period
    ensures 0 <= SlicePos(period, i, j) < length
  {
    var q := length / period;
    assert period * q <= length;
    assert j + 1 <= q;
    assert period * (j + 1) <= period * q;
  }

  lemma SliceIndicesInBounds(length: nat, period: int, i: int)
    requires 0 <= i < period
    ensures forall j :: 0 <= j < length / period ==> 0 <= SlicePos(period, i, j) < length
  {
    forall j | 0 <= j < length / period ensures 0 <= SlicePos(period, i, j) < length {
      SliceIndexInBounds(length, period, i, j);
    }
  }

  /** Slice i of the ciphertext for a period: the letters at positions
      i, i + period, i + 2 period, ..., length / period of them. */
  function Slice(c: seq<int>, period: int, i: int): (s: seq<int>)
    requires 0 <= i < period
    ensures |s| == |c| / period
    ensures forall j :: 0 <= j < |s| ==> 0 <= SlicePos(period, i, j) < |c| && s[j] == c[SlicePos(period, i, j)]
  {
    SliceIndicesInBounds(|c|, period, i);
    seq(|c| / period, j requires 0 <= j < |c| / period => c[SlicePos(period, i, j)])
  }

  /** A slice is no longer than the ciphertext. */
  lemma SliceLengthBound(length: nat, period: int)
    requires 0 < period
    ensures 0 <= length / period <= length
  {
    DivisionFacts(length, period);
    AtLeastOnce(length / period, period);
  }

  lemma DivisionFacts(length: nat, period: int)
    requires 0 < period
    ensures length == period * (length / period) + length % period
    ensures 0 <= length % period && 0 <= length / period
  {
  }

  /** length / period: the number of letters in every slice. */
  function SliceLength(length: nat, period: int): (n: int)
    requires 0 < period
    ensures 0 <= n <= length
  {
    SliceLengthBound(length, period);
    length / period
  }

  /** The innermost loop of the period search: copy slice i into the
      buffer and terminate it. */
  method BuildSlice(c: seq<int>, period: int, i: int, slice: array<int>)
    requires 0 <= i < period && |c| < slice.Length
    modifies slice
    ensures slice[..SliceLength(|c|, period)] == Slice(c, period, i) && slice[SliceLength(|c|, period)] == 0
    ensures forall m :: SliceLength(|c|, period) < m < slice.Length ==> slice[m] == old(slice[m])
  {
    ghost var s := Slice(c, period, i);
    var n := SliceLength(|c|, period);
    var j := 0;
    while j < n
      invariant 0 <= j <= n == |s|
      invariant forall m :: 0 <= m < j ==> slice[m] == s[m]
      invariant forall m :: n < m < slice.Length ==> slice[m] == old(slice[m])
    {
      slice[j] := c[SlicePos(period, i, j)];
      j := j + 1;
    }
    slice[j] := 0;
  }

  /** Double addition with NaN: NaN plus anything is NaN. */
  function Add(a: Option<real>, b: Option<real>): Option<real> {
    if a.Some? && b.Some? then Some(a.value + b.value) else None
  }

  /** The sum of the indices of coincidence of the first n slices. */
  function IocTotal(c: seq<int>, period: int, n: int): Option<real>
    requires 0 <= n <= period
  {
    if n == 0 then Some(0.0) else Add(IocTotal(c, period, n - 1), Ioc(Slice(c, period, n - 1)))
  }

  /** The averaged index of coincidence for a period. */
  function AverageIoc(c: seq<int>, period: int): Option<real>
    requires 0 < period
  {
    var total := IocTotal(c, period, period);
    if total.Some? then Some(total.value / period as real) else None
  }

  /** The average `oldioc` holds when period is tested. */
  function PreviousIoc(c: seq<int>, period: int): Option<real>
    requires 0 < period
  {
    if period == 1 then Some(InitialOldIoc) else AverageIoc(c, period - 1)
  }

  /** The test of slippery.c:170; a comparison with NaN is false. */
  predicate Accepts(ioc: Option<real>, oldioc: Option<real>) {
    ioc.Some? && ioc.value > IocThreshold && oldioc.Some? && ioc.value > IocMultThresh * oldioc.value
  }

  predicate PeriodAccepted(c: seq<int>, period: int)
    requires 0 < period
  {
    Accepts(AverageIoc(c, period), PreviousIoc(c, period))
  }

  lemma {:induction false} IocTotalBounds(c: seq<int>, period: int, n: int)
    requires 0 <= n <= period && 0 < period && SliceLength(|c|, period) >= 2 && AllLetters(c)
    ensures IocTotal(c, period, n).Some?
    ensures 0.0 <= IocTotal(c, period, n).value <= 26.0 * n as real
  {
    if n > 0 {
      IocTotalBounds(c, period, n - 1);
      IocBounds(Slice(c, period, n - 1));
    }
  }

  lemma {:induction false} IocTotalUndefined(c: seq<int>, period: int, n: int)
    requires 0 < n <= period && SliceLength(|c|, period) < 2
    ensures IocTotal(c, period, n) == None
  {
    if n > 1 {
      IocTotalUndefined(c, period, n - 1);
    }
  }

  /** The average is defined exactly when the slices hold two letters or
      more; it then lies between 0 and 26. */
  lemma AverageIocDefined(c: seq<int>, period: int)
    requires 0 < period && AllLetters(c)
    ensures AverageIoc(c, period).Some? <==> SliceLength(|c|, period) >= 2
    ensures AverageIoc(c, period).Some? ==> 0.0 <= AverageIoc(c, period).value <= 26.0
  {
    if SliceLength(|c|, period) >= 2 {
      IocTotalBounds(c, period, period);
      AverageBound(IocTotal(c, period, period).value, period as real);
    } else {
      IocTotalUndefined(c, period, period);
    }
  }

  lemma AverageBound(t: real, p: real)
    requires p >= 1.0 && 0.0 <= t <= 26.0 * p
    ensures 0.0 <= t / p <= 26.0
  {
  }

  /** An accepted period has slices of two letters or more. */
  lemma AcceptedSlicesLongEnough(c: seq<int>, period: int)
    requires 0 < period && AllLetters(c) && PeriodAccepted(c, period)
    ensures SliceLength(|c|, period) >= 2
  {
    AverageIocDefined(c, period);
  }

  /** Because `oldioc` starts at 99, period 1 would need an average above
      118.8, and the index of coincidence never exceeds 26: period 1 is
      never accepted. */
  lemma FirstPeriodNeverAccepted(c: seq<int>)
    requires AllLetters(c)
    ensures !PeriodAccepted(c, 1)
  {
    AverageIocDefined(c, 1);
  }

  /** No period from 1 to n passes the test. */
  predicate NoneAccepted(c: seq<int>, n: int) {
    n <= 0 || (NoneAccepted(c, n - 1) && !PeriodAccepted(c, n))
  }

  lemma {:induction false} NoneAcceptedBelow(c: seq<int>, n: int, q: int)
    requires NoneAccepted(c, n) && 1 <= q <= n
    ensures !PeriodAccepted(c, q)
  {
    if q < n {
      NoneAcceptedBelow(c, n - 1, q);
    }
  }

  /** The buffer holds slice period-1 of the ciphertext, terminated. */
  ghost predicate HoldsLastSlice(c: seq<int>, period: int, slice: array<int>)
    reads slice
    requires 0 < period
  {
    |c| < slice.Length &&
    slice[..SliceLength(|c|, period)] == Slice(c, period, period - 1) && slice[SliceLength(|c|, period)] == 0
  }

  /** Slice i of one round: build it in the buffer and add its index of
      coincidence to the running total. */
  method AddSliceIoc(c: seq<int>, period: int, i: int, slice: array<int>, total: Option<real>)
    returns (total': Option<real>)
    requires AllLetters(c) && 0 <= i < period && |c| < slice.Length
    modifies slice
    ensures total' == Add(total, Ioc(Slice(c, period, i)))
    ensures slice[..SliceLength(|c|, period)] == Slice(c, period, i) && slice[SliceLength(|c|, period)] == 0
    ensures forall m :: SliceLength(|c|, period) < m < slice.Length ==> slice[m] == old(slice[m])
  {
    BuildSlice(c, period, i, slice);
    var sliceIoc := IndexOfCoincidence(slice[..SliceLength(|c|, period)]);
    total' := Add(total, sliceIoc);
  }

  /** One round of the period search: build every slice of the period,
      sum their indices of coincidence and divide by the period. The
      buffer is left holding the last slice. */
  method AveragedIoc(c: seq<int>, period: int, slice: array<int>) returns (ioc: Option<real>)
    requires AllLetters(c) && 0 < period && |c| < slice.Length
    modifies slice
    ensures ioc == AverageIoc(c, period) && HoldsLastSlice(c, period, slice)
  {
    ioc := Some(0.0);
    var i := 0;
    while i < period
      invariant 0 <= i <= period
      invariant ioc == IocTotal(c, period, i)
      invariant 0 < i ==> slice[..SliceLength(|c|, period)] == Slice(c, period, i - 1) && slice[SliceLength(|c|, period)] == 0
    {
      ioc := AddSliceIoc(c, period, i, slice, ioc);
      i := i + 1;
    }
    ioc := if ioc.Some? then Some(ioc.value / period as real) else None;
  }

  lemma NoneAcceptedStep(c: seq<int>, n: int)
    requires NoneAccepted(c, n - 1) && (1 <= n ==> !PeriodAccepted(c, n))
    ensures NoneAccepted(c, n)
  {
  }

  /** No period below the one the search stopped at passed the test. */
  lemma NoneBefore(c: seq<int>, period: int)
    requires 1 <= period && NoneAccepted(c, period - 1)
    ensures forall q :: 1 <= q < period ==> !PeriodAccepted(c, q)
  {
    forall q | 1 <= q < period ensures !PeriodAccepted(c, q) {
      NoneAcceptedBelow(c, period - 1, q);
    }
  }

  /** One round of the search (slippery.c:160-172) for period, given
      the previous round's average: the new average, and whether the period
      passes the test. */
  method TestPeriod(c: seq<int>, period: int, oldioc: Option<real>, slice: array<int>)
    returns (ioc: Option<real>, found: bool)
    requires AllLetters(c) && 0 < period && |c| < slice.Length && oldioc == PreviousIoc(c, period)
    modifies slice
    ensures ioc == AverageIoc(c, period) && (found <==> PeriodAccepted(c, period))
    ensures HoldsLastSlice(c, period, slice)
  {
    ioc := AveragedIoc(c, period, slice);
    found := Accepts(ioc, oldioc);
  }

  /** The period search with the bound MAXKEYLEN that the source lacks.
      `slice` is the text buffer of `main`; at the end it holds the last
      slice built, which the key initializer uses. found is false when no
      period up to MAXKEYLEN passes the test. */
  method FindPeriod(c: seq<int>, slice: array<int>) returns (period: int, found: bool)
    requires AllLetters(c) && |c| < slice.Length
    modifies slice
    ensures 1 <= period <= Keys.MaxKeyLen
    ensures found ==> PeriodAccepted(c, period)
    ensures forall q :: 1 <= q < period ==> !PeriodAccepted(c, q)
    ensures !found ==> period == Keys.MaxKeyLen && !PeriodAccepted(c, period)
    ensures HoldsLastSlice(c, period, slice)
  {
    period := 0;
    found := false;
    var oldioc := Some(InitialOldIoc);
    while !found && period < Keys.MaxKeyLen
      invariant 0 <= period <= Keys.MaxKeyLen
      invariant period == 0 ==> oldioc == Some(InitialOldIoc) && !found
      invariant 1 <= period ==> oldioc == AverageIoc(c, period)
      invariant NoneAccepted(c, period - 1)
      invariant 1 <= period ==> (found <==> PeriodAccepted(c, period)) && HoldsLastSlice(c, period, slice)
    {
      NoneAcceptedStep(c, period);
      period := period + 1;
      oldioc, found := TestPeriod(c, period, oldioc, slice);
    }
    NoneBefore(c, period);
  }
}
