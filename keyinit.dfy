/** The initial key of slippery.c (the second loop of `main`): for every
    column, pair letters by frequency rank. The most frequent letter of
    the slice goes to the slot of the most frequent reference letter, the
    second to the second, and so on; a consumed entry is overwritten with
    -1, below every remaining frequency. Frequencies are modelled as
    letter counts (the C program scales them by 1/total, which keeps their
    order), and the reference table as 26 values that are not negative. */
module KeyInit {
  import opened Letters
  import opened Coincidence
  import opened Keys

  predicate NonNegative(s: seq<int>) {
    forall k :: 0 <= k < |s| ==> 0 <= s[k]
  }

  /** Entry x of table t is consumed before entry y by the scans of
      slippery.c:187-198: it is larger, or equal and earlier (the strict `>`
      keeps the first maximum). */
  predicate Before(t: seq<int>, x: int, y: int) {
    0 <= x < |t| && 0 <= y < |t| && (t[x] > t[y] || (t[x] == t[y] && x < y))
  }

  /** The rank pairing of a column: the slots, taken in the order the
      reference table is consumed, hold the letters in the order the
      frequency table is consumed. */
  predicate RankOrdered(col: seq<int>, reference: seq<int>, freqs: seq<int>)
    requires IsColumn(col) && |reference| == AlphabetSize && |freqs| == AlphabetSize
  {
    forall a, b :: 0 <= a < AlphabetSize && 0 <= b < AlphabetSize && Before(reference, a, b) ==>
      Before(freqs, col[a] - LetterA, col[b] - LetterA)
  }

  /** Among the slots of d below n, the one a scan of t consumes first,
      if there is one. */
  lemma {:induction false} FirstIn(t: seq<int>, d: set<int>, n: nat) returns (found: bool, a: int)
    requires |t| == AlphabetSize && n <= AlphabetSize
    ensures found ==> 0 <= a < n && a in d && forall b :: 0 <= b < n && b in d && b != a ==> Before(t, a, b)
    ensures !found ==> forall b :: 0 <= b < n ==> b !in d
  {
    if n == 0 {
      found, a := false, 0;
    } else {
      var f, m := FirstIn(t, d, n - 1);
      if n - 1 in d && (!f || Before(t, n - 1, m)) {
        found, a := true, n - 1;
      } else {
        found, a := f, m;
      }
    }
  }

  /** The step of the uniqueness argument: if two rank-ordered columns
      agree on every slot the reference scan reaches before slot a, they
      agree on slot a too. */
  lemma AgreeAt(col: seq<int>, col': seq<int>, reference: seq<int>, freqs: seq<int>, a: int)
    ensures (IsColumn(col) && IsColumn(col') && |reference| == AlphabetSize && |freqs| == AlphabetSize &&
             RankOrdered(col, reference, freqs) && RankOrdered(col', reference, freqs) &&
             0 <= a < AlphabetSize &&
             forall b :: 0 <= b < AlphabetSize && Before(reference, b, a) ==> col[b] == col'[b]) ==>
            col[a] == col'[a]
  {
    if IsColumn(col) && IsColumn(col') && |reference| == AlphabetSize && |freqs| == AlphabetSize &&
       RankOrdered(col, reference, freqs) && RankOrdered(col', reference, freqs) &&
       0 <= a < AlphabetSize &&
       forall b :: 0 <= b < AlphabetSize && Before(reference, b, a) ==> col[b] == col'[b]
    {
      ColumnHasEveryLetter(col', col[a]);
      ColumnHasEveryLetter(col, col'[a]);
      var b := IndexOf(col[a], col');
      var b' := IndexOf(col'[a], col);
      // Neither letter sits in a slot the scan reaches before a ...
      assert !Before(reference, b, a) && !Before(reference, b', a);
      // ... so each sits in slot a or after it, where the pairing orders it.
      PairedAfter(col, col', reference, freqs, a, b);
      PairedAfter(col', col, reference, freqs, a, b');
    }
  }

  /** The letter of col at slot a sits in col' at a slot b the reference
      scan does not reach before a: either b is a itself, or col' pairs its
      own letter at a before that letter. */
  lemma PairedAfter(col: seq<int>, col': seq<int>, reference: seq<int>, freqs: seq<int>, a: int, b: int)
    requires IsColumn(col) && IsColumn(col') && |reference| == AlphabetSize && |freqs| == AlphabetSize
    requires RankOrdered(col', reference, freqs)
    requires 0 <= a < AlphabetSize && 0 <= b < AlphabetSize && col'[b] == col[a] && !Before(reference, b, a)
    ensures Before(freqs, col'[a] - LetterA, col[a] - LetterA) || !Before(reference, a, b)
  {
  }

  /** The rank pairing fixes the column: two permutations of A-Z that are
      both rank-ordered against the same tables are equal. */
  lemma RankOrderedUnique(col: seq<int>, col': seq<int>, reference: seq<int>, freqs: seq<int>)
    requires IsColumn(col) && IsColumn(col') && |reference| == AlphabetSize && |freqs| == AlphabetSize
    requires RankOrdered(col, reference, freqs) && RankOrdered(col', reference, freqs)
    ensures col == col'
  {
    var d := set a | 0 <= a < AlphabetSize && col[a] != col'[a];
    var found, a := FirstIn(reference, d, AlphabetSize);
    AgreeAt(col, col', reference, freqs, a);
    if found {
      assert false;
    }
    forall k | 0 <= k < AlphabetSize ensures col[k] == col'[k] {
      assert k !in d;
    }
  }

  /** The scan of slippery.c:187-198 over one table: the index of the
      first entry that is larger than -1 and than every earlier entry. */
  method FirstMax(a: array<int>) returns (index: int)
    requires a.Length == AlphabetSize
    ensures IsFirstMax(a[..], index)
  {
    var max := Unfilled;
    index := 0;
    var k := 0;
    while k < AlphabetSize
      invariant 0 <= k <= AlphabetSize && 0 <= index < AlphabetSize
      invariant max == Unfilled || (index < k && max == a[index])
      invariant max == Unfilled ==> index == 0
      invariant Unfilled <= max
      invariant forall m :: 0 <= m < k ==> a[m] <= max
      invariant forall m :: 0 <= m < index ==> a[m] < max
    {
      if a[k] > max {
        index := k;
        max := a[k];
      }
      k := k + 1;
    }
  }

  /** What FirstMax promises about the index it returns. */
  predicate IsFirstMax(a: seq<int>, index: int) {
    0 <= index < |a| &&
    (forall k :: 0 <= k < |a| ==> a[k] <= a[index] || a[k] <= Unfilled) &&
    (forall k :: 0 <= k < index ==> a[k] < a[index]) &&
    ((exists k :: 0 <= k < |a| && a[k] > Unfilled) ==> a[index] > Unfilled)
  }

  /** The number of consumed (-1) entries of a table. */
  function Consumed(t: seq<int>): (n: nat)
    ensures n <= |t|
  {
    if t == [] then 0 else Consumed(t[..|t| - 1]) + (if t[|t| - 1] == Unfilled then 1 else 0)
  }

  lemma {:induction false} ConsumeOne(t: seq<int>, k: int)
    requires 0 <= k < |t| && t[k] != Unfilled
    ensures Consumed(t[k := Unfilled]) == Consumed(t) + 1
  {
    var last := |t| - 1;
    if k == last {
      assert t[k := Unfilled][..last] == t[..last];
    } else {
      assert t[k := Unfilled][..last] == t[..last][k := Unfilled];
      ConsumeOne(t[..last], k);
    }
  }

  lemma {:induction false} NoneConsumed(t: seq<int>)
    requires NonNegative(t)
    ensures Consumed(t) == 0
  {
    if t != [] {
      NoneConsumed(t[..|t| - 1]);
    }
  }

  /** A table with fewer consumed entries than its length still has one. */
  lemma {:induction false} SomeLeft(t: seq<int>) returns (k: int)
    requires Consumed(t) < |t|
    ensures 0 <= k < |t| && t[k] != Unfilled
  {
    var last := |t| - 1;
    if t[last] != Unfilled {
      k := last;
    } else {
      k := SomeLeft(t[..last]);
    }
  }

  /** A table whose entries are all counted as consumed is all -1. */
  lemma {:induction false} AllConsumed(t: seq<int>)
    requires Consumed(t) == |t|
    ensures forall k :: 0 <= k < |t| ==> t[k] == Unfilled
  {
    if t != [] {
      AllConsumed(t[..|t| - 1]);
      assert forall k :: 0 <= k < |t| - 1 ==> t[k] == t[..|t| - 1][k];
    }
  }

  /** Every entry of a table is either consumed or still its original. */
  predicate Remaining(t: seq<int>, t0: seq<int>) {
    |t| == AlphabetSize && |t0| == AlphabetSize && NonNegative(t0) &&
    forall k :: 0 <= k < AlphabetSize ==> t[k] == Unfilled || t[k] == t0[k]
  }

  /** Consumed entries come before the remaining ones. */
  predicate TakenFirst(t: seq<int>, t0: seq<int>)
    requires Remaining(t, t0)
  {
    forall a, b :: 0 <= a < AlphabetSize && 0 <= b < AlphabetSize && t[a] == Unfilled && t[b] != Unfilled ==>
      Before(t0, a, b)
  }

  /** A slot of the column is filled exactly when its reference entry is
      consumed, and it holds a letter whose frequency entry is consumed. */
  predicate Filled(col: seq<int>, R: seq<int>, F: seq<int>)
    requires |R| == AlphabetSize && |F| == AlphabetSize
  {
    |col| == AlphabetSize &&
    forall k :: 0 <= k < AlphabetSize ==>
      if R[k] == Unfilled then IsLetter(col[k]) && F[col[k] - LetterA] == Unfilled else col[k] == Unfilled
  }

  /** No letter fills two slots. */
  predicate FilledDistinct(col: seq<int>) {
    forall a, b :: 0 <= a < |col| && 0 <= b < |col| && a != b && IsLetter(col[a]) ==> col[a] != col[b]
  }

  /** The filled slots follow the reference order. */
  predicate Paired(col: seq<int>, r0: seq<int>, f0: seq<int>)
    requires |col| == AlphabetSize && |r0| == AlphabetSize && |f0| == AlphabetSize
  {
    forall a, b :: (0 <= a < AlphabetSize && 0 <= b < AlphabetSize &&
                    IsLetter(col[a]) && IsLetter(col[b]) && Before(r0, a, b)) ==>
      Before(f0, col[a] - LetterA, col[b] - LetterA)
  }

  /** The state of the rank-matching loop over the current tables F and R,
      the column col and the original tables f0 and r0. */
  predicate MatchInv(F: seq<int>, R: seq<int>, col: seq<int>, f0: seq<int>, r0: seq<int>) {
    Remaining(F, f0) && Remaining(R, r0) && TakenFirst(F, f0) && TakenFirst(R, r0) &&
    Filled(col, R, F) && FilledDistinct(col) && Paired(col, r0, f0) && Consumed(F) == Consumed(R)
  }

  /** The scan lands on an entry that is not consumed and is at least as
      large as every remaining one; consuming it keeps the table's state. */
  lemma PickFresh(t: seq<int>, t0: seq<int>, index: int)
    requires Remaining(t, t0) && TakenFirst(t, t0) && Consumed(t) < AlphabetSize && IsFirstMax(t, index)
    ensures t[index] != Unfilled && t[index] == t0[index]
    ensures forall b :: 0 <= b < AlphabetSize && t[b] != Unfilled && b != index ==> Before(t0, index, b)
    ensures Remaining(t[index := Unfilled], t0) && TakenFirst(t[index := Unfilled], t0)
    ensures Consumed(t[index := Unfilled]) == Consumed(t) + 1
  {
    var k := SomeLeft(t);
    assert t[k] > Unfilled;
    ConsumeOne(t, index);
  }

  lemma FillStep(col: seq<int>, R: seq<int>, F: seq<int>, indexr: int, indexf: int)
    requires |R| == AlphabetSize && |F| == AlphabetSize && Filled(col, R, F) && FilledDistinct(col)
    requires 0 <= indexr < AlphabetSize && 0 <= indexf < AlphabetSize
    requires R[indexr] != Unfilled && F[indexf] != Unfilled
    ensures Filled(col[indexr := LetterA + indexf], R[indexr := Unfilled], F[indexf := Unfilled])
    ensures FilledDistinct(col[indexr := LetterA + indexf])
  {
    var col' := col[indexr := LetterA + indexf];
    forall a, b | 0 <= a < AlphabetSize && 0 <= b < AlphabetSize && a != b && IsLetter(col'[a])
      ensures col'[a] != col'[b]
    {
      if a == indexr && IsLetter(col[b]) {
        assert F[col[b] - LetterA] == Unfilled;
      } else if b == indexr {
        assert F[col[a] - LetterA] == Unfilled;
      }
    }
  }

  lemma PairStep(col: seq<int>, R: seq<int>, F: seq<int>, f0: seq<int>, r0: seq<int>, indexr: int, indexf: int)
    requires MatchInv(F, R, col, f0, r0)
    requires 0 <= indexr < AlphabetSize && 0 <= indexf < AlphabetSize
    requires R[indexr] != Unfilled && F[indexf] != Unfilled
    ensures Paired(col[indexr := LetterA + indexf], r0, f0)
  {
    var col' := col[indexr := LetterA + indexf];
    forall a, b | 0 <= a < AlphabetSize && 0 <= b < AlphabetSize &&
      IsLetter(col'[a]) && IsLetter(col'[b]) && Before(r0, a, b)
      ensures Before(f0, col'[a] - LetterA, col'[b] - LetterA)
    {
      if a != indexr && b == indexr {
        FilledBefore(col, R, F, f0, r0, a, indexr, indexf);
      } else if a == indexr && b != indexr {
        FilledBefore(col, R, F, f0, r0, b, indexr, indexf);
      }
    }
  }

  /** A slot filled earlier was consumed from the reference table before
      slot indexr, and its letter from the frequency table before letter
      indexf, both still unconsumed. */
  lemma FilledBefore(col: seq<int>, R: seq<int>, F: seq<int>, f0: seq<int>, r0: seq<int>, a: int, indexr: int, indexf: int)
    requires MatchInv(F, R, col, f0, r0)
    requires 0 <= a < AlphabetSize && 0 <= indexr < AlphabetSize && 0 <= indexf < AlphabetSize
    requires R[indexr] != Unfilled && F[indexf] != Unfilled && IsLetter(col[a])
    ensures Before(r0, a, indexr) && Before(f0, col[a] - LetterA, indexf)
  {
    assert R[a] == Unfilled;
  }

  /** One step of the rank matching keeps the loop state. */
  lemma MatchStep(F: seq<int>, R: seq<int>, col: seq<int>, f0: seq<int>, r0: seq<int>, indexf: int, indexr: int)
    requires MatchInv(F, R, col, f0, r0) && Consumed(R) < AlphabetSize
    requires IsFirstMax(F, indexf) && IsFirstMax(R, indexr)
    ensures MatchInv(F[indexf := Unfilled], R[indexr := Unfilled], col[indexr := LetterA + indexf], f0, r0)
    ensures Consumed(R[indexr := Unfilled]) == Consumed(R) + 1
  {
    PickFresh(F, f0, indexf);
    PickFresh(R, r0, indexr);
    FillStep(col, R, F, indexr, indexf);
    PairStep(col, R, F, f0, r0, indexr, indexf);
  }

  /** When every slot is consumed, the column is a permutation of A-Z in
      reference-rank order, and the frequency table is used up too. */
  lemma MatchDone(F: seq<int>, R: seq<int>, col: seq<int>, f0: seq<int>, r0: seq<int>)
    requires MatchInv(F, R, col, f0, r0) && Consumed(R) == AlphabetSize
    ensures IsColumn(col) && RankOrdered(col, r0, f0)
    ensures Consumed(F) == AlphabetSize
  {
    AllConsumed(R);
    assert AllLetters(col);
  }

  /** The rank-matching loop (slippery.c:186-202) for column `row` of the
      parent key, whose slots are all unfilled. The column ends as a
      permutation of A-Z whose slots follow the reference order, and every
      table entry is consumed. */
  method RankMatch(freqs: array<int>, reference: array<int>, pk: array2<int>, row: int)
    requires freqs.Length == AlphabetSize && reference.Length == AlphabetSize && freqs != reference
    requires NonNegative(freqs[..]) && NonNegative(reference[..])
    requires IsKeyArray(pk) && 0 <= row < MaxKeyLen
    requires forall k :: 0 <= k < AlphabetSize ==> pk[row, k] == Unfilled
    modifies freqs, reference, pk
    ensures IsColumn(Row(pk, row)) && RankOrdered(Row(pk, row), old(reference[..]), old(freqs[..]))
    ensures forall k :: 0 <= k < AlphabetSize ==> freqs[k] == Unfilled && reference[k] == Unfilled
    ensures forall r, m :: 0 <= r < MaxKeyLen && r != row && 0 <= m < AlphabetSize ==> pk[r, m] == old(pk[r, m])
  {
    ghost var f0 := freqs[..];
    ghost var r0 := reference[..];
    NoneConsumed(f0);
    NoneConsumed(r0);
    var j := 0;
    while j < AlphabetSize
      invariant 0 <= j <= AlphabetSize && Consumed(reference[..]) == j
      invariant MatchInv(freqs[..], reference[..], Row(pk, row), f0, r0)
      invariant forall r, m :: 0 <= r < MaxKeyLen && r != row && 0 <= m < AlphabetSize ==> pk[r, m] == old(pk[r, m])
    {
      ghost var F, R, col := freqs[..], reference[..], Row(pk, row);
      var indexf := FirstMax(freqs);
      var indexr := FirstMax(reference);
      MatchStep(F, R, col, f0, r0, indexf, indexr);
      pk[row, indexr] := Alphabet()[indexf];
      freqs[indexf] := Unfilled;
      reference[indexr] := Unfilled;
      assert Row(pk, row) == col[indexr := LetterA + indexf];
      assert freqs[..] == F[indexf := Unfilled] && reference[..] == R[indexr := Unfilled];
      j := j + 1;
    }
    MatchDone(freqs[..], reference[..], Row(pk, row), f0, r0);
    TablesUsedUp(freqs, reference);
  }

  lemma TablesUsedUp(freqs: array<int>, reference: array<int>)
    requires freqs.Length == AlphabetSize && reference.Length == AlphabetSize
    requires Consumed(freqs[..]) == AlphabetSize && Consumed(reference[..]) == AlphabetSize
    ensures forall k :: 0 <= k < AlphabetSize ==> freqs[k] == Unfilled && reference[k] == Unfilled
  {
    AllConsumed(freqs[..]);
    AllConsumed(reference[..]);
  }

  /** slippery.c:182-185: empty column `row` and reload the reference
      frequencies. */
  method ClearColumn(pk: array2<int>, row: int, reference: array<int>, monograms: seq<int>)
    requires IsKeyArray(pk) && 0 <= row < MaxKeyLen
    requires reference.Length == AlphabetSize && |monograms| == AlphabetSize
    modifies pk, reference
    ensures forall m :: 0 <= m < AlphabetSize ==> pk[row, m] == Unfilled
    ensures reference[..] == monograms
    ensures forall r, m :: 0 <= r < MaxKeyLen && r != row && 0 <= m < AlphabetSize ==> pk[r, m] == old(pk[r, m])
  {
    var j := 0;
    while j < AlphabetSize
      invariant 0 <= j <= AlphabetSize
      invariant forall m :: 0 <= m < j ==> pk[row, m] == Unfilled && reference[m] == monograms[m]
      invariant forall r, m :: 0 <= r < MaxKeyLen && r != row && 0 <= m < AlphabetSize ==> pk[r, m] == old(pk[r, m])
    {
      pk[row, j] := Unfilled;
      reference[j] := monograms[j];
      j := j + 1;
    }
  }

  /** The initial parent key: every column 0..period-1 is rank-matched
      against the counts of the same slice, the last one the period search
      built. */
  method InitialKeys(pk: array2<int>, period: int, slice: seq<int>, monograms: seq<int>)
    requires IsKeyArray(pk) && 0 < period <= MaxKeyLen
    requires AllLetters(slice) && |monograms| == AlphabetSize && NonNegative(monograms)
    modifies pk
    ensures IsKey(Key(pk, period))
    ensures forall i :: 0 <= i < period ==> RankOrdered(Key(pk, period)[i], monograms, CountsOf(slice))
    ensures forall i :: 0 <= i < period ==> Key(pk, period)[i] == Key(pk, period)[0]
    ensures forall r, m :: period <= r < MaxKeyLen && 0 <= m < AlphabetSize ==> pk[r, m] == old(pk[r, m])
  {
    var freqs := new int[AlphabetSize];
    var reference := new int[AlphabetSize];
    var i := 0;
    while i < period
      invariant 0 <= i <= period
      invariant forall r :: 0 <= r < i ==> IsColumn(Row(pk, r)) && RankOrdered(Row(pk, r), monograms, CountsOf(slice))
      invariant forall r, m :: i <= r < MaxKeyLen && 0 <= m < AlphabetSize ==> pk[r, m] == old(pk[r, m])
    {
      ghost var done := Key(pk, i);
      MonogramFrequencies(slice, freqs);
      ClearColumn(pk, i, reference, monograms);
      RankMatch(freqs, reference, pk, i);
      forall r | 0 <= r < i ensures Row(pk, r) == done[r] {
        assert forall m :: 0 <= m < AlphabetSize ==> Row(pk, r)[m] == done[r][m];
      }
      i := i + 1;
    }
    forall i | 0 <= i < period ensures Row(pk, i) == Row(pk, 0) {
      RankOrderedUnique(Row(pk, i), Row(pk, 0), monograms, CountsOf(slice));
    }
  }
}
