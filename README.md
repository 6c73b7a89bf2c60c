# slippery: a verified model of a hill-climbing solver for periodic polyalphabetic ciphers

slippery.c breaks a periodic polyalphabetic substitution cipher from the
ciphertext alone. The cipher's key is `period` independent substitution
alphabets (key columns); ciphertext letter i was enciphered with column
`i % period`. The program works in three stages.

1. **Period detection.** For period 1, 2, ... the text is cut into `period`
   interleaved slices. The indices of coincidence (IoC) of the slices are
   averaged. The first period is accepted whose average exceeds both 1.65
   and 1.2 times the previous period's average.
2. **Key initialisation.** Each column is seeded by frequency rank. The most
   frequent letter of the slice goes to the slot of the most frequent
   reference (English) letter, the second to the second, and so on.
3. **Hill climbing.** For each column in turn:
   - The column is re-randomised.
   - Children are tried: the parent key with two letters of that column
     swapped. A child replaces the parent when its fitness is strictly
     higher.
   - Each child that beats the best fitness so far is kept as the best
     key and plaintext.
   - The column is abandoned after 1000 children in a row fail to beat the
     parent.

   The bound `5000000*period*period/length` is tested only between complete
   sweeps over all columns. `bigcount` counts the children since the best
   fitness last rose. The climb ends at the first sweep end where
   `bigcount` is at least the bound. A C `int` computes that bound, and it
   wraps for period 21 and up (see Findings).

The model is imperative where the C code is:
- Key arrays (`char[MAXKEYLEN][26]`) are `array2<int>`.
- Text buffers are `array<int>`.
- Each C function and each loop of `main` is a method with loop invariants.

Every method is proved against a pure specification:
- `IndexOf` for `position`.
- `Decryption` and `Encryption` for `decrypt`.
- `Ioc` and `CountsOf` for `index_of_coincidence` and `monogram_frequencies`.
- `Slice`, `AverageIoc` and `PeriodAccepted` for the period search.
- `RankOrdered` for the key initialiser.
- `BestTracked` for the climb's counters.

Lemmas prove what those specifications promise.

Modelling conventions:
- A C `char` is an `int`. Letters are 65..90, and the sentinel -1 written
  into unfilled key slots and consumed table entries is representable.
  This assumes `char` is signed, as it is on the usual x86 targets. With an
  unsigned `char`, `s[i] = -1` stores 255: the test `s[j] != -1` of
  `randomize` (slippery.c:109,112) then never fails, so `randomize` never
  returns, and storing `-1.` into `pk[i][j]` (slippery.c:183) converts a
  value out of range.
- Floating-point values are `real`. The NaN that an IoC of fewer than two
  letters produces (0/0) is `None` of `Option<real>`. Sums involving it are
  `None`, and every comparison with it is false, as in C.
- `random()` is replaced by caller-supplied streams. For `randomize`, the
  stream gives the slot each letter finally lands in (a layout: 26 distinct
  slots). For `random_swap`, it gives the two distinct indices finally
  drawn. The climb stops early, reporting `exhausted`, when a stream runs
  out.
- The fitness function (tetragram statistics) is a parameter
  `fit: seq<int> -> real`.

Points where the model follows the code:
- Every column is initialised from the counts of the same slice: the last
  one the period search built (`Slice(c, period, period - 1)`), exactly as
  `monogram_frequencies(slice, freqs[i])` does at slippery.c:181. A
  per-column slice would be the statistically natural choice.
- `bestk` and `bestp` are written only when some child beats the initial
  key's fitness. When none does, the program prints buffers it never
  wrote. The model states the best key and plaintext only under
  `KeyFitness(initial) < bestf`, where the code guarantees them. An
  always-valid best result cannot be derived from the code.

## Model

| member | source | states |
|---|---|---|
| `Letters.ColumnHasEveryLetter` | slippery.c:69-70 | a column of 26 distinct letters holds every letter, so `position` never returns -1 and `alphabet[-1]` is never read |
| `Letters.ColumnIsPermutation` | slippery.c:105-117 | such a column is a permutation of A-Z: every letter occurs exactly once |
| `Keys.IndexOf` | slippery.c:53-61 | the result is the least index holding x, and it is -1 exactly when x does not occur |
| `Keys.Position` | slippery.c:53-61 | `position(c, s)` returns `IndexOf(c, row)`, i.e. the first index of c in the key row, or -1 |
| `Keys.Decryption` | slippery.c:64-72 | the decryption of a decipherable text is a text of letters of the same length |
| `Keys.ColumnsDecipher` | slippery.c:69-70 | under a key whose columns are permutations, every ciphertext letter is found in its column |
| `Keys.DecryptThenEncrypt` | slippery.c:64-72 | re-enciphering the decryption with the same key gives back the ciphertext |
| `Keys.EncryptThenDecrypt` | slippery.c:64-72 | decrypting an encryption under a key of permutations gives back the plaintext |
| `Keys.Decrypt` | slippery.c:64-72 | `decrypt` writes the decryption of c under the first keylen rows into p, followed by a NUL, and leaves p beyond the NUL untouched |
| `Keys.SwapKeepsColumn` | slippery.c:91-102 | swapping two entries keeps a column a permutation with the same letters |
| `Keys.RandomSwap` | slippery.c:91-102 | `random_swap` exchanges entries i and j of the row (i != j) and changes no other row |
| `Keys.SlotOwner` | slippery.c:110-115 | 26 distinct slot choices fill every slot: each slot is chosen by some letter |
| `Keys.Randomize` | slippery.c:105-117 | `randomize` leaves the row a permutation of A-Z with letter m in its chosen slot, no -1 left, other rows unchanged |
| `Keys.CopyKeys` | slippery.c:120-128 | `copy_keys` makes rows 0..keylen-1 of target equal to source and leaves the other rows untouched |
| `Coincidence.CountsAddUp` | slippery.c:27-31 | the letter counts of a text add up to its length, so `total` equals the text length |
| `Coincidence.PairsAndTotal` | slippery.c:29-32 | the last loop computes `numer` as the sum of c(c-1) and `total` as the sum of the counts |
| `Coincidence.NoPairsDivisor` | slippery.c:33 | the divisor total*(total-1) is zero exactly when the text has fewer than two letters |
| `Coincidence.IndexOfCoincidence` | slippery.c:21-34 | `index_of_coincidence` returns 26*sum c(c-1)/(n(n-1)) of the letter counts, and NaN (None) when n < 2 |
| `Coincidence.IocOfRepeatedLetter` | slippery.c:21-34 | a text of one repeated letter (n >= 2) has IoC 26 |
| `Coincidence.IocOfDistinctLetters` | slippery.c:21-34 | a text of pairwise distinct letters (n >= 2) has IoC 0 |
| `Coincidence.PairSumBounds` | slippery.c:29-32 | for counts summing to n, 0 <= sum c(c-1) <= n(n-1) |
| `Coincidence.IocBounds` | slippery.c:33 | the IoC of two letters or more is defined and lies between 0 and 26 |
| `Coincidence.MonogramFrequencies` | slippery.c:75-88 | `monogram_frequencies` fills the table with the count of each letter of the text |
| `Period.SliceIndexInBounds` | slippery.c:163-164 | every read `c[period*j+i]` with i < period and j < length/period is inside the text |
| `Period.SliceLength` | slippery.c:163 | a slice (length/period letters) is never longer than the text |
| `Period.Slice` | slippery.c:162-166 | slice i has length/period letters, letter j being `c[period*j+i]`, every position in bounds |
| `Period.BuildSlice` | slippery.c:163-166 | the inner loop writes slice i and its NUL into the buffer and leaves the buffer beyond the NUL untouched |
| `Period.AverageIocDefined` | slippery.c:161-169 | a period's averaged IoC is defined exactly when its slices have two letters or more, and then lies in [0, 26] |
| `Period.AcceptedSlicesLongEnough` | slippery.c:170 | an accepted period has slices of at least two letters |
| `Period.FirstPeriodNeverAccepted` | slippery.c:170 | since `oldioc` starts at 99 and the IoC is at most 26, period 1 is never accepted |
| `Period.NoneAcceptedBelow` | slippery.c:159-173 | when the search has rejected periods 1..n in turn, each of them fails the acceptance test |
| `Period.NoneBefore` | slippery.c:159-173 | every period below the one the search stopped at failed the test |
| `Period.AddSliceIoc` | slippery.c:163-167 | one slice is built and its IoC added to the running sum (NaN absorbing); the buffer beyond the slice's NUL is untouched |
| `Period.AveragedIoc` | slippery.c:161-169 | one round returns the average of the slices' IoCs and leaves the last slice in the buffer |
| `Period.TestPeriod` | slippery.c:160-172 | one round reports the period accepted exactly when the average exceeds 1.65 and 1.2 times the previous average |
| `Period.FindPeriod` | slippery.c:159-173 | the search returns the first period passing the acceptance test; all smaller periods fail it; the buffer holds its last slice |
| `KeyInit.FirstMax` | slippery.c:187-198 | the scan returns the first index whose entry exceeds -1 and every earlier entry, and that entry is maximal |
| `KeyInit.PickFresh` | slippery.c:187-201 | while entries remain, the scan picks an unconsumed entry at least as large as every remaining one |
| `KeyInit.FillStep` | slippery.c:199-201 | placing the picked letter in the picked slot keeps filled slots distinct letters whose frequency entries are consumed |
| `KeyInit.PairStep` | slippery.c:199-201 | the new pair keeps slot order and letter-frequency order aligned: every slot filled earlier was consumed from both tables before the new pair (`FilledBefore`) |
| `KeyInit.FilledBefore` | slippery.c:187-201 | a slot filled earlier was taken from the reference table before the slot now picked, and its letter from the frequency table before the letter now picked |
| `KeyInit.MatchStep` | slippery.c:186-202 | one step of the rank matching preserves the loop state and consumes one more entry |
| `KeyInit.MatchDone` | slippery.c:186-202 | after 26 steps the column is a permutation of A-Z in rank order (`RankOrdered`) and the frequency table is used up too |
| `KeyInit.RankOrderedUnique` | slippery.c:186-202 | two permutations of A-Z rank-ordered against the same two tables are equal, so the rank order fixes the column, ties included |
| `KeyInit.AgreeAt` | slippery.c:186-202 | two rank-ordered permutations that agree on every slot the reference scan takes before slot a agree on slot a too |
| `KeyInit.PairedAfter` | slippery.c:186-202 | a letter of one rank-ordered column that sits in the other at a slot not taken before a sits at a itself, or is paired after the other column's letter at a |
| `KeyInit.RankMatch` | slippery.c:186-202 | the matching loop leaves the column a permutation of A-Z in rank order: when the scan takes reference slot a before slot b (a larger entry, or an equal one earlier, as the strict `>` decides), it took a's letter before b's from the frequency table by the same rule; both tables end consumed to -1; other rows untouched |
| `KeyInit.ClearColumn` | slippery.c:182-185 | the column is emptied to -1 and the reference table reloaded |
| `KeyInit.InitialKeys` | slippery.c:180-203 | every column 0..period-1 becomes the permutation of A-Z rank-ordered against the reference table and the counts of the one slice, so all the columns are equal; other rows untouched |
| `Climb.ChildIsKey` | slippery.c:215-216 | a child (one column with two letters swapped) of a key is a key with the same letters in every column |
| `Climb.BestStep` | slippery.c:226-233 | a child beating bestf becomes the best and resets bigcount; otherwise bigcount grows by one; either way bestf stays the maximum of all scores, and bigcount counts the scores since the first one that reached it, every earlier score being strictly lower |
| `Climb.TrackTracked` | slippery.c:226-233 | the counters computed score by score (`Track`: a strictly higher score becomes the best and resets the count, any other adds one) satisfy `BestTracked` |
| `Climb.TrackedIsTrack` | slippery.c:226-233 | `BestTracked` fixes the counters: any best and bigcount it holds for are those `Track` computes, so bigcount at every point is a function of the scores so far |
| `Climb.BestAttained` | slippery.c:226-233 | the best fitness is reached by the initial key or by some child |
| `Climb.BestNeverDecreases` | slippery.c:226-233 | the best fitness never decreases as more children are scored |
| `Climb.ParentNeverWorse` | slippery.c:219-225 | within a pass, every parent in effect is at least as fit as the parent the pass started from, and the parent after each child is at least as fit as the one before |
| `Climb.ColumnAdvance` | slippery.c:214-225 | one turn of the inner loop keeps the state of the pass: the trace grows by the child tried, the parent in effect is its survivor, and `count` restarts at 0 when the child beats the parent or else grows by one, the last `count` children all having the current parent and no higher fitness; the step records `count` after it, and no earlier step of the pass reached 1000 |
| `Climb.OpensAppend` | slippery.c:209-225 | appending a pass whose first step opens it, after a pass that ended with 1000 failures in a row, keeps the rule that a step opens a pass exactly when the step before ended one with 1000 failures |
| `Climb.ExtendTrace` | slippery.c:209-216 | a pass on the next column, started from the parent in effect with that column laid out afresh by the next layout, extends the trace of the whole climb |
| `Climb.PassExtends` | slippery.c:209-234 | a pass that ends after 1000 failures in a row, or when the swap draws run out, moves the climb to the next column and the next layout |
| `Climb.BestAdvance` | slippery.c:226-233 | one child's score keeps bestf and bigcount tracking the scores, and when bestf beats the initial fitness the best key is the child of the step `bigcount` steps back, with its decryption |
| `Climb.CopyText` | slippery.c:230 | `strcpy(bestp, p)` copies the plaintext and its NUL and leaves the rest of bestp untouched |
| `Climb.Breed` | slippery.c:215-218 | ck becomes the parent with slots a and b of column col swapped, p its decryption and NUL, and the result that child's fitness |
| `Climb.TryChild` | slippery.c:215-233 | the child is the parent with column j swapped; it replaces the parent (resetting count) only when fitc > fitp and the best key and plaintext, with its NUL, (resetting bigcount) only when fitc > bestf |
| `Climb.InnerTurn` | slippery.c:215-233 | one turn tries the child made with the next swap draw, extends the trace of the pass with it, and keeps the best fitness, bigcount, bestk and bestp in step with the scores |
| `Climb.ClimbColumn` | slippery.c:213-234 | the inner loop tries one child per swap draw, each a child of the parent then in effect, which is the survivor of the child before; fitp stays the parent's fitness and never drops; only column col changes; `count` after each child is recorded, and unless the draws run out the loop stops at the first child after which 1000 children in a row, all made from the current parent, failed to beat it, no earlier child having reached 1000 |
| `Climb.ClimbPass` | slippery.c:210-234 | one column pass lays the column out with the next layout, runs the inner loop from there, and extends the climb's trace and best key: the new steps are all on column j, only the first opens a pass, and unless a stream runs out the last ended it with 1000 failures in a row |
| `Climb.PassSteps` | slippery.c:209-225 | the steps of a pass on column j, appended to the climb's, are all on column j, and only the first of them opens a pass |
| `Climb.SweepExtends` | slippery.c:209-235 | one more pass on column j keeps a sweep going on from the climb before it, opening no pass on column 0 after its first step |
| `Climb.Sweep` | slippery.c:209-235 | one run of the `for` makes a pass on every column in turn, one layout each: unless a stream of draws runs out it uses exactly `period` layouts and ends on column period-1; it extends the climb's trace and opens no pass on column 0 after its first step |
| `Climb.SweepsBelowMeans` | slippery.c:208 | the recursive `SweepsBelow` says that at every step opening a pass on column 0 after the first, the bigcount computed from the scores before it (`Track`) was below the budget |
| `Climb.SweepStarts` | slippery.c:208 | a sweep entered with bigcount below the budget, from a climb whose every sweep started below it, leaves a climb whose every sweep started below the budget |
| `Climb.SweepTurn` | slippery.c:208-235 | one turn of the main loop, entered as the `while` test demands with bigcount below the budget, extends the climb and keeps every sweep start below the budget |
| `Climb.RandomizeParent` | slippery.c:210-211 | re-randomising column j puts letter m at slot `slots[m]`, keeps the parent a decipherable key, and leaves the other columns alone |
| `Climb.HillClimb` | slippery.c:205-235 | the trace records every child tried: child i is made with swap draw i from the parent then in effect, which the pass's layout or the previous child's survivor fixes; a step opens a pass exactly when the pass before ended with 1000 failures in a row; bestf is the maximum of the initial fitness and every child's; bigcount counts children since it last rose; when bestf beats the initial key, bestk and bestp hold the traced child that reached it and its decryption with its NUL; every sweep after the first started with bigcount below the budget; unless a stream runs out, the climb ends with bigcount at least the budget, its last step on column period-1 ending its pass |
| `Climb.ScoreParent` | slippery.c:205-206 | the parent's fitness before the climb is the fitness of its decryption |
| `Climb.ClimbStarts` | slippery.c:205-208 | before the first sweep the climb stands at column 0 with no steps, the initial key as parent and its fitness as the best |
| `Climb.MainLoop` | slippery.c:208-235 | sweeping while bigcount is below the budget keeps the climb's trace and best key and every sweep start below the budget; unless a stream runs out it stops with bigcount at least the budget, after a complete sweep |
| `Solver.Wrap32` | slippery.c:208 | a 32-bit `int` result is the value congruent to the exact one modulo 2^32 in the signed range |
| `Solver.Budget` | slippery.c:208 | the intended budget 5000000*period^2/length is positive and fits in a 64-bit long |
| `Solver.BudgetAgrees` | slippery.c:208 | up to period 20 the 32-bit computation equals the intended budget |
| `Solver.BudgetOverflows` | slippery.c:208 | at period 21 and 1000 letters the 32-bit budget is -2089967, so the main loop never runs |
| `Solver.Solve` | slippery.c:153-235 | the first accepted period, all smaller periods rejected; when one is found, what `Solver.BreakPeriod` states; when none is found, the search ran up to MAXKEYLEN (period 100 failed too) and no climb was made |
| `Solver.BreakPeriod` | slippery.c:176-235 | a rank-ordered initial key from the last slice and the climb's trace from it; a step opens a pass exactly after 1000 failures in a row; the best fitness is the maximum reached, with the traced child and its plaintext (NUL-terminated) when it beats the initial key; every sweep started with bigcount below the budget; unless a stream runs out, the climb ends after a complete sweep with bigcount at least the budget, which up to period 20 is also the bound as written |

## Left out

- Input and output: `strcpy(c, argv[1])` is the parameter `c`, and the final `printf`s (slippery.c:237-246) are not modelled. The ciphertext is required to be upper-case letters shorter than MAXTEXTLEN, as the buffers and `counts[text[i]-'A']` demand.
- `srandom(time(0))` and `random()`: randomness is the caller's streams. The rejection loops of `randomize` and `random_swap` appear only through their accepted draws.
- `fitness` (slippery.c:37-50) and the tetragram and monogram tables are not part of this model. Fitness is an arbitrary function on texts; the reference monogram table is any 26 non-negative integers, since only its order matters to the key initialiser.
- Floating point is exact `real` arithmetic without rounding. NaN is modelled only where the IoC produces it; `fitness` of a text shorter than four letters (0/0) is not.
- Coincidence.MonogramFrequencies: the final scaling by `1./total` is left out, so the table holds counts rather than frequencies. The scaling keeps the order of the entries, which is all the key initialiser uses. The NaN table of an empty text is not modelled (the initialiser only sees slices of two letters or more).
- KeyInit.InitialKeys: the source keeps one frequency row per column (`freqs[MAXKEYLEN][26]`). The model refills one 26-entry table per column with the same values. The single loop that scans both tables at once is modelled as two scans with the same result.
- Keys.Position: `position` takes `strlen` of a key row that has no terminating NUL and may read into the next row. The model scans exactly the row's 26 entries; the results agree whenever the letter occurs in the row, which `Letters.ColumnHasEveryLetter` guarantees for every key in use.
- Period.FindPeriod: the source's period search has no upper bound and runs forever when no period passes the test. The model stops at MAXKEYLEN (100) and reports that none was found, and `Solver.Solve` then does nothing further.
- Solver.Solve: the climb runs with the corrected bound `Solver.Budget`, not the 32-bit bound slippery.c:208 computes. The two agree up to period 20 (`Solver.BudgetAgrees`), and only there do `Solver.BreakPeriod` and Solve state the bound as written. From period 21 on the source's bound can wrap (see Findings).
- Climb.HillClimb: the climb also stops, with `exhausted`, when a stream of random draws runs out. It then says nothing about the budget or the last step.
- `count` and `bigcount` are C `long`s and are modelled as unbounded integers; they stay far below 2^63 for any budget the program can compute.

## Findings

| source | as written | input that shows it | evidently intended | confidence | as-written member | corrected member |
|---|---|---|---|---|---|---|
| slippery.c:208 | `5000000*period*period/length` is computed in 32-bit `int`, and the second product overflows for period >= 21 | period 21, 1000 letters: 2205000000 wraps to -2089967296, the bound is -2089967, `bigcount < bound` is false at once, no child is tried and uninitialised `bestp`/`bestk` are printed | the exact quotient (2205000 here), e.g. computed in `long` like `bigcount` | high; not executed | `Solver.BudgetOverflows` | `Solver.Budget` |
