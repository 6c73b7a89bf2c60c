/** The hill climb of slippery.c (the main loop of `main`). For every
    column of the key in turn, the parent key gets a fresh random column,
    then children (the parent with two letters of that column swapped) are
    tried until 1000 children in a row fail to beat the parent. A child that
    beats the parent replaces it; a child that beats the best fitness so far
    is recorded as the best key and plaintext. The bound `budget` is
    tested only between complete sweeps over all columns: the climb ends at
    the first sweep end where the count of children since the best fitness
    last rose (`bigcount`) is at least `budget`.

    The fitness function (tetragram statistics in the source) is the
    parameter `fit`; the random draws are the finite streams `layouts` (one
    slot layout per `randomize`) and `swaps` (one index pair per
    `random_swap`). When a stream runs out the climb stops early and says
    so with `exhausted`. */
module Climb {
  import opened Letters
  import opened Keys

  /** The decryption of a ciphertext of letters under a key, which is
      always defined. */
  ghost function Plaintext(c: seq<int>, key: seq<seq<int>>): (p: seq<int>)
    requires |key| > 0 && IsKey(key) && AllLetters(c)
    ensures |p| == |c| && AllLetters(p)
  {
    ColumnsDecipher(c, key);
    Decryption(c, key)
  }

  /** The fitness the program computes for a key: the fitness of the
      decryption of the ciphertext under it. */
  ghost function KeyFitness(fit: seq<int> -> real, c: seq<int>, key: seq<seq<int>>): real
    requires |key| > 0 && IsKey(key) && AllLetters(c)
  {
    fit(Plaintext(c, key))
  }

  /** The child of a key: column col with the letters at slots a and b
      exchanged. */
  function Child(key: seq<seq<int>>, col: int, a: int, b: int): (child: seq<seq<int>>)
    requires 0 <= col < |key| && 0 <= a < |key[col]| && 0 <= b < |key[col]|
    ensures |child| == |key|
  {
    key[col := Swapped(key[col], a, b)]
  }

  /** A child of a key is a key, holding the same letters in every column. */
  lemma ChildIsKey(key: seq<seq<int>>, col: int, a: int, b: int)
    requires IsKey(key) && 0 <= col < |key| && 0 <= a < AlphabetSize && 0 <= b < AlphabetSize
    ensures IsKey(Child(key, col, a, b))
    ensures forall r :: 0 <= r < |key| ==> multiset(Child(key, col, a, b)[r]) == multiset(key[r])
  {
    SwapKeepsColumn(key[col], a, b);
  }

  /** What the counters of the climb mean. `best` is the largest of the
      initial fitness f0 and every child score so far, and `stale` (the
      source's `bigcount`) is the number of children since best last rose:
      none of them beat it, and the child just before them set it, beating
      f0 and every child before it (or, when no child ever raised it, best
      is still f0). */
  ghost predicate BestTracked(f0: real, scores: seq<real>, best: real, stale: int) {
    f0 <= best &&
    (forall i :: 0 <= i < |scores| ==> scores[i] <= best) &&
    0 <= stale <= |scores| &&
    (forall i :: |scores| - stale <= i < |scores| ==> scores[i] <= best) &&
    (if stale == |scores| then best == f0 else scores[|scores| - stale - 1] == best) &&
    (stale < |scores| ==> f0 < best && forall i :: 0 <= i < |scores| - stale - 1 ==> scores[i] < best)
  }

  /** The counters `bestf` and `bigcount` as lines 226-233 update them,
      one score at a time from the initial fitness f0. */
  function Track(f0: real, scores: seq<real>): (real, int) {
    if scores == [] then (f0, 0)
    else
      var (best, stale) := Track(f0, scores[..|scores| - 1]);
      if scores[|scores| - 1] > best then (scores[|scores| - 1], 0) else (best, stale + 1)
  }

  /** One child's score updates best and stale as lines 226-233 do. */
  lemma BestStep(f0: real, scores: seq<real>, best: real, stale: int, x: real)
    requires BestTracked(f0, scores, best, stale)
    ensures x > best ==> BestTracked(f0, scores + [x], x, 0)
    ensures !(x > best) ==> BestTracked(f0, scores + [x], best, stale + 1)
  {
    var s := scores + [x];
    assert forall i :: 0 <= i < |scores| ==> s[i] == scores[i];
  }

  /** The counters run over the scores mean what BestTracked says. */
  lemma {:induction false} TrackTracked(f0: real, scores: seq<real>)
    ensures BestTracked(f0, scores, Track(f0, scores).0, Track(f0, scores).1)
  {
    if scores != [] {
      var pre, x := scores[..|scores| - 1], scores[|scores| - 1];
      TrackTracked(f0, pre);
      BestStep(f0, pre, Track(f0, pre).0, Track(f0, pre).1, x);
      assert pre + [x] == scores;
    }
  }

  /** BestTracked fixes the counters: they are the ones Track computes. */
  lemma TrackedIsTrack(f0: real, scores: seq<real>, best: real, stale: int)
    requires BestTracked(f0, scores, best, stale)
    ensures best == Track(f0, scores).0 && stale == Track(f0, scores).1
  {
    var (best', stale') := Track(f0, scores);
    TrackTracked(f0, scores);
    BestAttained(f0, scores, best, stale);
    BestAttained(f0, scores, best', stale');
    assert best == best';
    assert stale == stale';
  }

  /** The best fitness is attained: by the initial key or by some child. */
  lemma BestAttained(f0: real, scores: seq<real>, best: real, stale: int)
    requires BestTracked(f0, scores, best, stale)
    ensures best == f0 || exists i :: 0 <= i < |scores| && scores[i] == best
  {
    if stale < |scores| {
      assert scores[|scores| - stale - 1] == best;
    }
  }

  /** The best fitness never decreases as the climb goes on. */
  lemma BestNeverDecreases(f0: real, scores: seq<real>, best: real, stale: int,
                           more: seq<real>, best': real, stale': int)
    requires BestTracked(f0, scores, best, stale) && BestTracked(f0, scores + more, best', stale')
    ensures best <= best'
  {
    BestAttained(f0, scores, best, stale);
    if best != f0 {
      var i :| 0 <= i < |scores| && scores[i] == best;
      assert (scores + more)[i] == best;
    }
  }

  /** One child tried by the climb: the parent key in effect, the column
      being climbed, the two slots swapped, the child, the number of the
      column pass (the layout that re-randomised the column), whether it
      is the first child of its pass, the fitness of parent and child as
      the climb computed them, and the source's `count` after the child:
      how many children in a row have failed to beat their parent. */
  datatype Step = Step(parent: seq<seq<int>>, col: int, a: int, b: int, child: seq<seq<int>>,
                       pass: int, opens: bool, fitParent: real, fitChild: real, run: int)

  /** The child of a step is its parent with two slots of column col
      swapped, and both are keys of `period` columns. */
  ghost predicate Tried(period: int, s: Step) {
    0 <= s.col < period && |s.parent| == period && IsKey(s.parent) &&
    0 <= s.a < AlphabetSize && 0 <= s.b < AlphabetSize &&
    s.child == Child(s.parent, s.col, s.a, s.b) && IsKey(s.child)
  }

  /** The fitnesses a step records are those of its parent and child. */
  ghost predicate Rated(c: seq<int>, fit: seq<int> -> real, period: int, s: Step) {
    AllLetters(c) && Tried(period, s) &&
    s.fitParent == KeyFitness(fit, c, s.parent) && s.fitChild == KeyFitness(fit, c, s.child)
  }

  /** The parent in effect after a step: the child when its fitness is
      strictly higher than the parent's, else the parent. */
  function Survivor(s: Step): (key: seq<seq<int>>)
    ensures key == s.child || key == s.parent
  {
    if s.fitChild > s.fitParent then s.child else s.parent
  }

  /** The source's `count` after step s, from its value `before` the
      step: a child that beats its parent resets it (slippery.c:222), any
      other adds one failure (slippery.c:225), counting from 0 when s
      opens its pass (slippery.c:213). */
  function NextRun(before: int, s: Step): int {
    if s.fitChild > s.fitParent then 0 else if s.opens then 1 else before + 1
  }

  /** The parent in effect after the steps, starting from `start`. */
  function Current(start: seq<seq<int>>, steps: seq<Step>): seq<seq<int>> {
    if steps == [] then start else Survivor(steps[|steps| - 1])
  }

  /** The column the climb turns to after column col. */
  function NextColumn(col: int, period: int): int {
    if col + 1 == period then 0 else col + 1
  }

  /** Two keys that agree on every column but col. */
  predicate SameOutside(key: seq<seq<int>>, key': seq<seq<int>>, col: int) {
    |key| == |key'| && forall r :: 0 <= r < |key| && r != col ==> key[r] == key'[r]
  }

  /** Step s opens a pass: column col of its parent was just laid out by
      layout number `pass`, and the parent otherwise is the key `before`
      that was in effect. */
  ghost predicate FirstOfPass(layouts: seq<seq<int>>, s: Step, before: seq<seq<int>>, col: int, pass: int) {
    s.opens && s.col == col && s.pass == pass && 0 <= pass < |layouts| &&
    0 <= col < |s.parent| && LaidOut(s.parent[col], layouts[pass]) && SameOutside(s.parent, before, col) &&
    s.run == NextRun(0, s)
  }

  /** Step s continues the pass of step prev: same column, its parent is
      the survivor of prev, and its count of failures goes on from prev's. */
  predicate Continues(prev: Step, s: Step) {
    !s.opens && s.col == prev.col && s.pass == prev.pass && s.parent == Survivor(prev) &&
    s.run == NextRun(prev.run, s)
  }

  /** Step s comes after step prev in the climb: it continues prev's pass,
      or opens the next pass on the next column. */
  ghost predicate Follows(period: int, layouts: seq<seq<int>>, prev: Step, s: Step) {
    Continues(prev, s) ||
    FirstOfPass(layouts, s, Survivor(prev), NextColumn(prev.col, period), prev.pass + 1)
  }

  /** Every step is a rated child of its parent, made with pair i of
      `pairs`, and score i is the child's fitness. */
  ghost predicate Scored(c: seq<int>, fit: seq<int> -> real, period: int, pairs: seq<(int, int)>,
                         steps: seq<Step>, scores: seq<real>)
  {
    |steps| == |scores| && |steps| <= |pairs| &&
    (forall i :: 0 <= i < |steps| ==> Rated(c, fit, period, steps[i])) &&
    forall i :: 0 <= i < |steps| ==>
      steps[i].a == pairs[i].0 && steps[i].b == pairs[i].1 && scores[i] == steps[i].fitChild
  }

  /** The children one pass of the inner loop tried on column col, from
      parent `start`: each is a child of the parent then in effect, made
      with the next pair of `pairs` and scored by its fitness, and each
      parent is the survivor of the step before. */
  ghost predicate ColumnTrace(c: seq<int>, fit: seq<int> -> real, period: int, col: int, pass: int,
                              pairs: seq<(int, int)>, start: seq<seq<int>>, steps: seq<Step>, scores: seq<real>)
  {
    |steps| == |pairs| && Scored(c, fit, period, pairs, steps, scores) &&
    (forall i :: 0 <= i < |steps| ==> steps[i].col == col && steps[i].pass == pass) &&
    (steps != [] ==> steps[0].opens && steps[0].parent == start && steps[0].run == NextRun(0, steps[0])) &&
    forall i :: 0 < i < |steps| ==> Continues(steps[i - 1], steps[i])
  }

  /** The children the whole climb tried, from the initial key: child i
      is made with swap draw i and scored by its fitness. The first child
      of a pass is a child of a parent whose column was just laid out by
      the pass's layout, the columns being taken in turn from column 0;
      every other child is a child of the survivor of the step before. A
      pass ends exactly when Patience children in a row have failed. */
  ghost predicate ClimbTrace(c: seq<int>, fit: seq<int> -> real, period: int, layouts: seq<seq<int>>,
                             swaps: seq<(int, int)>, initial: seq<seq<int>>, steps: seq<Step>, scores: seq<real>)
  {
    |initial| == period && Scored(c, fit, period, swaps, steps, scores) &&
    (steps != [] ==> FirstOfPass(layouts, steps[0], initial, 0, 0)) &&
    (forall i :: 0 < i < |steps| ==> Follows(period, layouts, steps[i - 1], steps[i])) &&
    forall i :: 0 < i < |steps| ==> (steps[i].opens <==> steps[i - 1].run == Patience)
  }

  /** One more child extends the trace of a pass. */
  lemma ColumnTraceStep(c: seq<int>, fit: seq<int> -> real, period: int, col: int, pass: int,
                        pairs: seq<(int, int)>, start: seq<seq<int>>, steps: seq<Step>, scores: seq<real>,
                        s: Step, x: real, before: int)
    requires ColumnTrace(c, fit, period, col, pass, pairs, start, steps, scores)
    requires Rated(c, fit, period, s) && s.col == col && s.pass == pass && s.opens == (steps == [])
    requires s.parent == Current(start, steps) && x == s.fitChild
    requires before == (if steps == [] then 0 else steps[|steps| - 1].run) && s.run == NextRun(before, s)
    ensures ColumnTrace(c, fit, period, col, pass, pairs + [(s.a, s.b)], start, steps + [s], scores + [x])
  {
    var steps', pairs', scores' := steps + [s], pairs + [(s.a, s.b)], scores + [x];
    assert forall i :: 0 <= i < |steps| ==> steps'[i] == steps[i] && pairs'[i] == pairs[i] && scores'[i] == scores[i];
    forall i | 0 < i < |steps'| ensures Continues(steps'[i - 1], steps'[i]) {
      if i == |steps| {
        assert steps'[i - 1] == steps[|steps| - 1];
      }
    }
  }

  /** Within a pass the parent never gets worse: the fitness of the parent
      in effect after n children is at least that of the parent the pass
      started from. */
  lemma {:induction false} ParentNeverWorse(c: seq<int>, fit: seq<int> -> real, period: int, col: int, pass: int,
                                            pairs: seq<(int, int)>, start: seq<seq<int>>, steps: seq<Step>,
                                            scores: seq<real>, n: int)
    requires ColumnTrace(c, fit, period, col, pass, pairs, start, steps, scores) && 0 < n <= |steps|
    ensures IsKey(start) && |start| == period > 0
    ensures KeyFitness(fit, c, start) <= steps[n - 1].fitParent <= KeyFitness(fit, c, Survivor(steps[n - 1]))
  {
    assert Rated(c, fit, period, steps[0]) && Rated(c, fit, period, steps[n - 1]);
    if n > 1 {
      ParentNeverWorse(c, fit, period, col, pass, pairs, start, steps, scores, n - 1);
      assert Continues(steps[n - 2], steps[n - 1]);
    }
  }

  /** The last element of a concatenation with a non-empty tail. */
  lemma LastOfAppend<T>(xs: seq<T>, ys: seq<T>)
    requires ys != []
    ensures (xs + ys)[|xs + ys| - 1] == ys[|ys| - 1]
  {
  }

  /** The state of the inner loop on column col after `steps`, started
      from parent `start`: the trace of the pass so far, the parent `key`
      now in effect, which differs from start only in column col, and the
      last `count` children, which all had key as parent and were no
      fitter than it. `count` is the count of failures in a row, and it
      never reached Patience before the last step. */
  ghost predicate PassState(c: seq<int>, fit: seq<int> -> real, period: int, col: int, pass: int,
                            pairs: seq<(int, int)>, start: seq<seq<int>>, steps: seq<Step>, scores: seq<real>,
                            key: seq<seq<int>>, count: int)
  {
    AllLetters(c) && ColumnTrace(c, fit, period, col, pass, pairs, start, steps, scores) &&
    key == Current(start, steps) && SameOutside(key, start, col) &&
    |key| == period && IsKey(key) && 0 <= count <= |steps| &&
    (forall i :: |steps| - count <= i < |steps| ==>
       steps[i].parent == key && steps[i].fitChild <= steps[i].fitParent) &&
    count == (if steps == [] then 0 else steps[|steps| - 1].run) &&
    forall i :: 0 <= i < |steps| - 1 ==> steps[i].run < Patience
  }

  /** One more child of the inner loop, as InnerTurn takes it: the trace
      of the pass grows by the step, its survivor is the parent in effect,
      and the count of children in a row that failed restarts or grows. */
  lemma ColumnAdvance(c: seq<int>, fit: seq<int> -> real, period: int, col: int, pass: int,
                      pairs: seq<(int, int)>, start: seq<seq<int>>, steps: seq<Step>, scores: seq<real>,
                      key: seq<seq<int>>, count: int, s: Step, count': int,
                      pairs': seq<(int, int)>, steps': seq<Step>, scores': seq<real>)
    requires PassState(c, fit, period, col, pass, pairs, start, steps, scores, key, count)
    requires Rated(c, fit, period, s) && s.parent == key && s.col == col && s.pass == pass && s.opens == (steps == [])
    requires count' == (if s.fitChild > s.fitParent then 0 else count + 1) && count < Patience
    requires s.run == count'
    requires pairs' == pairs + [(s.a, s.b)] && steps' == steps + [s] && scores' == scores + [s.fitChild]
    ensures PassState(c, fit, period, col, pass, pairs', start, steps', scores', Survivor(s), count')
  {
    ColumnTraceStep(c, fit, period, col, pass, pairs, start, steps, scores, s, s.fitChild, count);
    assert SameOutside(s.child, key, col);
    assert forall i :: 0 <= i < |steps| ==> steps'[i] == steps[i];
  }

  /** The scored steps of two stretches of draws, one after the other. */
  lemma ScoredAppend(c: seq<int>, fit: seq<int> -> real, period: int, swaps: seq<(int, int)>,
                     steps: seq<Step>, scores: seq<real>, more: seq<Step>, moreScores: seq<real>)
    requires Scored(c, fit, period, swaps, steps, scores)
    requires |steps| + |more| <= |swaps| && |more| == |moreScores|
    requires Scored(c, fit, period, swaps[|steps|..|steps| + |more|], more, moreScores)
    ensures Scored(c, fit, period, swaps, steps + more, scores + moreScores)
  {
    var all, allScores, n := steps + more, scores + moreScores, |steps|;
    forall i | 0 <= i < |all|
      ensures Rated(c, fit, period, all[i]) && all[i].a == swaps[i].0 && all[i].b == swaps[i].1
      ensures allScores[i] == all[i].fitChild
    {
      if i < n {
        assert all[i] == steps[i] && allScores[i] == scores[i];
      } else {
        assert all[i] == more[i - n] && allScores[i] == moreScores[i - n];
        assert swaps[n..n + |more|][i - n] == swaps[i];
      }
    }
  }

  /** The steps of a pass, appended to steps they follow, keep every
      step following the one before. */
  lemma FollowsAppend(period: int, layouts: seq<seq<int>>, steps: seq<Step>, more: seq<Step>, all: seq<Step>)
    requires all == steps + more
    requires forall i :: 0 < i < |steps| ==> Follows(period, layouts, steps[i - 1], steps[i])
    requires forall i :: 0 < i < |more| ==> Continues(more[i - 1], more[i])
    requires steps != [] && more != [] ==> Follows(period, layouts, steps[|steps| - 1], more[0])
    ensures forall i :: 0 < i < |all| ==> Follows(period, layouts, all[i - 1], all[i])
  {
    var n := |steps|;
    assert forall i :: 0 <= i < |all| ==> all[i] == if i < n then steps[i] else more[i - n];
    forall i | 0 < i < |all| ensures Follows(period, layouts, all[i - 1], all[i]) {
      if i < n {
        assert all[i - 1] == steps[i - 1] && all[i] == steps[i];
      } else if i == n {
        assert all[i - 1] == steps[n - 1] && all[i] == more[0];
      } else {
        var k := i - n;
        assert all[i - 1] == more[k - 1] && all[i] == more[k];
      }
    }
  }

  /** The steps of a pass that ends only at its last step, appended to
      steps that end a pass, open a pass exactly after Patience failures
      in a row. */
  lemma OpensAppend(steps: seq<Step>, more: seq<Step>, all: seq<Step>)
    requires all == steps + more
    requires forall i :: 0 < i < |steps| ==> (steps[i].opens <==> steps[i - 1].run == Patience)
    requires more != [] ==> more[0].opens && (steps != [] ==> steps[|steps| - 1].run == Patience)
    requires forall i :: 0 < i < |more| ==> !more[i].opens
    requires forall i :: 0 <= i < |more| - 1 ==> more[i].run < Patience
    ensures forall i :: 0 < i < |all| ==> (all[i].opens <==> all[i - 1].run == Patience)
  {
    var n := |steps|;
    forall i | 0 < i < |all| ensures all[i].opens <==> all[i - 1].run == Patience {
      if i < n {
        assert all[i] == steps[i] && all[i - 1] == steps[i - 1];
      } else if i == n {
        assert all[i] == more[0] && all[i - 1] == steps[n - 1];
      } else {
        assert all[i] == more[i - n] && all[i - 1] == more[i - n - 1];
      }
    }
  }

  /** The first step of a pass opens it: its parent is the pass's start,
      whose column col the pass's layout laid out. */
  lemma PassOpens(c: seq<int>, fit: seq<int> -> real, period: int, layouts: seq<seq<int>>, col: int, pass: int,
                  pairs: seq<(int, int)>, start: seq<seq<int>>, more: seq<Step>, moreScores: seq<real>,
                  before: seq<seq<int>>)
    requires ColumnTrace(c, fit, period, col, pass, pairs, start, more, moreScores) && more != []
    requires 0 <= col < |start| && 0 <= pass < |layouts| && LaidOut(start[col], layouts[pass])
    requires SameOutside(start, before, col)
    ensures FirstOfPass(layouts, more[0], before, col, pass)
  {
  }

  /** A pass appended to the trace of the climb so far extends it, when
      its starting parent is the parent in effect with column col laid out
      afresh, col the next column and pass the next pass. */
  lemma ExtendTrace(c: seq<int>, fit: seq<int> -> real, period: int, layouts: seq<seq<int>>,
                    swaps: seq<(int, int)>, initial: seq<seq<int>>, steps: seq<Step>, scores: seq<real>,
                    col: int, pass: int, start: seq<seq<int>>, more: seq<Step>, moreScores: seq<real>)
    requires AllLetters(c) && ClimbTrace(c, fit, period, layouts, swaps, initial, steps, scores)
    requires |steps| + |more| <= |swaps|
    requires ColumnTrace(c, fit, period, col, pass, swaps[|steps|..|steps| + |more|], start, more, moreScores)
    requires 0 <= col < |start| && 0 <= pass < |layouts| && LaidOut(start[col], layouts[pass])
    requires SameOutside(start, Current(initial, steps), col)
    requires col == (if steps == [] then 0 else NextColumn(steps[|steps| - 1].col, period))
    requires pass == (if steps == [] then 0 else steps[|steps| - 1].pass + 1)
    requires steps != [] && more != [] ==> steps[|steps| - 1].run == Patience
    requires forall i :: 0 <= i < |more| - 1 ==> more[i].run < Patience
    ensures ClimbTrace(c, fit, period, layouts, swaps, initial, steps + more, scores + moreScores)
    ensures more != [] ==> Current(initial, steps + more) == Current(start, more)
  {
    var all, n := steps + more, |steps|;
    if more != [] {
      PassOpens(c, fit, period, layouts, col, pass, swaps[n..n + |more|], start, more, moreScores,
                Current(initial, steps));
    }
    ScoredAppend(c, fit, period, swaps, steps, scores, more, moreScores);
    FollowsAppend(period, layouts, steps, more, all);
    forall i | 0 < i < |more| ensures !more[i].opens {
      assert Continues(more[i - 1], more[i]);
    }
    OpensAppend(steps, more, all);
    if more != [] {
      assert all[|all| - 1] == more[|more| - 1];
      assert all[0] == if n == 0 then more[0] else steps[0];
    } else {
      assert all == steps;
    }
  }

  /** The shared preconditions of the climb: the buffers and key arrays
      of `main`, all distinct, a ciphertext of letters that fits them, and a
      parent key that is a key. */
  ghost predicate Buffers(c: seq<int>, period: int, pk: array2<int>, ck: array2<int>, bestk: array2<int>,
                          p: array<int>, bestp: array<int>)
    reads pk, ck, bestk
  {
    IsKeyArray(pk) && IsKeyArray(ck) && IsKeyArray(bestk) &&
    pk != ck && pk != bestk && ck != bestk && p != bestp &&
    0 < period <= MaxKeyLen && AllLetters(c) && |c| < p.Length && |c| < bestp.Length &&
    IsKey(Key(pk, period))
  }

  /** `strcpy(bestp, p)` for a plaintext of n letters and its NUL. */
  method CopyText(src: array<int>, dst: array<int>, n: int)
    requires 0 <= n < src.Length && n < dst.Length && src != dst
    requires AllLetters(src[..n]) && src[n] == 0
    modifies dst
    ensures dst[..n + 1] == src[..n + 1]
    ensures forall m :: n < m < dst.Length ==> dst[m] == old(dst[m])
  {
    var i := 0;
    while src[i] != 0
      invariant 0 <= i <= n
      invariant forall m :: 0 <= m < i ==> dst[m] == src[m]
      invariant forall m :: n < m < dst.Length ==> dst[m] == old(dst[m])
      decreases n - i
    {
      assert src[..n][i] == src[i];
      dst[i] := src[i];
      i := i + 1;
    }
    dst[i] := 0;
  }

  /** Lines 215-218: copy the parent into ck, swap slots a and b of
      column col there, decrypt under the child and score the plaintext. */
  method Breed(c: seq<int>, period: int, col: int, a: int, b: int,
               pk: array2<int>, ck: array2<int>, p: array<int>, fit: seq<int> -> real)
    returns (fitc: real)
    requires IsKeyArray(pk) && IsKeyArray(ck) && pk != ck && 0 < period <= MaxKeyLen
    requires AllLetters(c) && |c| < p.Length && IsKey(Key(pk, period))
    requires 0 <= col < period && 0 <= a < AlphabetSize && 0 <= b < AlphabetSize && a != b
    modifies ck, p
    ensures Key(ck, period) == Child(Key(pk, period), col, a, b) && IsKey(Key(ck, period))
    ensures p[..|c|] == Plaintext(c, Key(ck, period)) && p[|c|] == 0
    ensures fitc == KeyFitness(fit, c, Key(ck, period))
  {
    ghost var parent := Key(pk, period);
    ghost var child := Child(parent, col, a, b);
    CopyKeys(pk, ck, period);
    RandomSwap(ck, col, a, b);
    forall r | 0 <= r < period ensures Key(ck, period)[r] == child[r] {
      assert forall m :: 0 <= m < AlphabetSize ==> Row(ck, r)[m] == child[r][m];
    }
    assert Key(ck, period) == child;
    ChildIsKey(parent, col, a, b);
    ColumnsDecipher(c, child);
    Decrypt(c, p, ck, period);
    fitc := fit(p[..|c|]);
  }

  /** One pass of the inner loop (slippery.c:215-233): build the child
      with column col swapped at a and b in ck, score its decryption, let it
      replace the parent if it beats fitp and the best key if it beats
      bestf. */
  method TryChild(c: seq<int>, period: int, col: int, a: int, b: int,
                  pk: array2<int>, ck: array2<int>, bestk: array2<int>, p: array<int>, bestp: array<int>,
                  fit: seq<int> -> real, fitp: real, bestf: real, count: int, bigcount: int)
    returns (fitc: real, fitp': real, bestf': real, count': int, bigcount': int)
    requires Buffers(c, period, pk, ck, bestk, p, bestp)
    requires 0 <= col < period && 0 <= a < AlphabetSize && 0 <= b < AlphabetSize && a != b
    modifies pk, ck, bestk, p, bestp
    ensures Buffers(c, period, pk, ck, bestk, p, bestp)
    ensures Key(ck, period) == Child(old(Key(pk, period)), col, a, b) && IsKey(Key(ck, period))
    ensures fitc == KeyFitness(fit, c, Key(ck, period))
    ensures fitc > fitp ==> Key(pk, period) == Key(ck, period) && fitp' == fitc && count' == 0
    ensures !(fitc > fitp) ==> Key(pk, period) == old(Key(pk, period)) && fitp' == fitp && count' == count + 1
    ensures fitc > bestf ==>
      Key(bestk, period) == Key(ck, period) && bestp[..|c|] == Plaintext(c, Key(ck, period)) &&
      bestp[|c|] == 0 && bestf' == fitc && bigcount' == 0
    ensures !(fitc > bestf) ==>
      Key(bestk, period) == old(Key(bestk, period)) && bestp[..] == old(bestp[..]) &&
      bestf' == bestf && bigcount' == bigcount + 1
  {
    fitc := Breed(c, period, col, a, b, pk, ck, p, fit);
    if fitc > fitp {
      CopyKeys(ck, pk, period);
      fitp' := fitc;
      count' := 0;
    } else {
      fitp' := fitp;
      count' := count + 1;
    }
    if fitc > bestf {
      CopyKeys(ck, bestk, period);
      bestf' := fitc;
      bigcount' := 0;
      CopyText(p, bestp, |c|);
      assert bestp[..|c|] == bestp[..|c| + 1][..|c|] && bestp[|c|] == bestp[..|c| + 1][|c|];
    } else {
      bestf' := bestf;
      bigcount' := bigcount + 1;
    }
  }

  /** The inner loop's limit of children in a row that fail to beat the
      parent. */
  const Patience: int := 1000

  /** A stream of index pairs for `random_swap`: two different slots. */
  predicate ValidSwaps(swaps: seq<(int, int)>) {
    forall k :: 0 <= k < |swaps| ==>
      0 <= swaps[k].0 < AlphabetSize && 0 <= swaps[k].1 < AlphabetSize && swaps[k].0 != swaps[k].1
  }

  /** A stream of slot layouts for `randomize`. */
  predicate ValidLayouts(layouts: seq<seq<int>>) {
    forall k :: 0 <= k < |layouts| ==> IsLayout(layouts[k])
  }

  /** bestKey and bestText are the best key and its decryption: the child
      that the step `stale` steps before the end of the trace tried, whose
      fitness is best. */
  ghost predicate BestHeld(c: seq<int>, period: int, fit: seq<int> -> real, best: real, steps: seq<Step>,
                           stale: int, bestKey: seq<seq<int>>, bestText: seq<int>)
  {
    AllLetters(c) && 0 <= stale < |steps| && bestKey == steps[|steps| - stale - 1].child &&
    |bestKey| == period > 0 && IsKey(bestKey) && bestText == Plaintext(c, bestKey) &&
    best == KeyFitness(fit, c, bestKey)
  }

  /** bestk and bestp hold the best key and its decryption, as BestHeld
      says, the decryption followed by the NUL `strcpy` copies. */
  ghost predicate BestRecorded(c: seq<int>, period: int, bestk: array2<int>, bestp: array<int>,
                               fit: seq<int> -> real, best: real, steps: seq<Step>, stale: int)
    reads bestk, bestp
  {
    IsKeyArray(bestk) && 0 < period <= MaxKeyLen && |c| < bestp.Length &&
    BestHeld(c, period, fit, best, steps, stale, Key(bestk, period), bestp[..|c|]) && bestp[|c|] == 0
  }

  /** One child's score and key update the best key as lines 226-233 do. */
  lemma BestAdvance(c: seq<int>, period: int, fit: seq<int> -> real, f0: real,
                    scores: seq<real>, steps: seq<Step>, best: real, stale: int,
                    bestKey: seq<seq<int>>, bestText: seq<int>, s: Step, x: real,
                    best': real, stale': int, bestKey': seq<seq<int>>, bestText': seq<int>)
    requires AllLetters(c) && |steps| == |scores| && BestTracked(f0, scores, best, stale)
    requires f0 < best ==> BestHeld(c, period, fit, best, steps, stale, bestKey, bestText)
    requires Tried(period, s) && period > 0 && x == KeyFitness(fit, c, s.child)
    requires x > best ==> best' == x && stale' == 0 && bestKey' == s.child && bestText' == Plaintext(c, s.child)
    requires !(x > best) ==> best' == best && stale' == stale + 1 && bestKey' == bestKey && bestText' == bestText
    ensures BestTracked(f0, scores + [x], best', stale')
    ensures f0 < best' ==> BestHeld(c, period, fit, best', steps + [s], stale', bestKey', bestText')
  {
    BestStep(f0, scores, best, stale, x);
    if !(x > best) && f0 < best {
      assert (steps + [s])[|steps| - stale - 1] == steps[|steps| - stale - 1];
    }
  }

  /** Why a climb stopped early: the swap draws are used up, or the last
      pass used the last layout (or there was none). */
  ghost predicate RanOut(layouts: seq<seq<int>>, swaps: seq<(int, int)>, steps: seq<Step>) {
    |steps| == |swaps| ||
    (steps == [] && |layouts| == 0) ||
    (steps != [] && steps[|steps| - 1].pass == |layouts| - 1)
  }

  /** The best key so far, as the climb keeps it: best and stale track
      the scores, and once best beats the initial fitness f0, bestk and
      bestp hold the child that reached it and its decryption. */
  ghost predicate BestKept(c: seq<int>, period: int, bestk: array2<int>, bestp: array<int>,
                           fit: seq<int> -> real, f0: real, scores: seq<real>, steps: seq<Step>,
                           best: real, stale: int)
    reads bestk, bestp
  {
    |steps| == |scores| && BestTracked(f0, scores, best, stale) &&
    (f0 < best ==> BestRecorded(c, period, bestk, bestp, fit, best, steps, stale))
  }

  /** Where the climb stands after `steps`, having used nl layouts and
      standing before column j of a sweep: the trace so far and, unless a
      stream of draws ran out, the parent key in effect and the column and
      pass of the last step; when one ran out, which. */
  ghost predicate Progress(c: seq<int>, fit: seq<int> -> real, period: int, layouts: seq<seq<int>>,
                           swaps: seq<(int, int)>, initial: seq<seq<int>>, steps: seq<Step>, scores: seq<real>,
                           key: seq<seq<int>>, nl: int, j: int, exhausted: bool)
  {
    AllLetters(c) && ClimbTrace(c, fit, period, layouts, swaps, initial, steps, scores) &&
    0 <= nl <= |layouts| && |steps| <= |swaps| && 0 <= j <= period &&
    (exhausted ==> RanOut(layouts, swaps, steps)) &&
    (!exhausted ==> key == Current(initial, steps)) &&
    (!exhausted && steps == [] ==> nl == 0 && j == 0) &&
    (!exhausted && steps != [] ==>
      steps[|steps| - 1].col == (if j == 0 then period - 1 else j - 1) && steps[|steps| - 1].pass == nl - 1 &&
      steps[|steps| - 1].run == Patience)
  }

  /** steps' and scores' go on from steps and scores. */
  ghost predicate Extends(steps: seq<Step>, scores: seq<real>, steps': seq<Step>, scores': seq<real>) {
    |steps| <= |steps'| && |scores| <= |scores'| && steps'[..|steps|] == steps && scores'[..|scores|] == scores
  }

  /** Every sweep after the first started, as the main loop's test at
      slippery.c:208 demands, with bigcount below the budget: at each step
      that opens a pass on column 0, the counters over the scores before
      it. */
  ghost predicate SweepsBelow(f0: real, budget: int, steps: seq<Step>, scores: seq<real>)
    decreases |steps|
  {
    |steps| == |scores| &&
    (|steps| > 1 ==>
       SweepsBelow(f0, budget, steps[..|steps| - 1], scores[..|scores| - 1]) &&
       (steps[|steps| - 1].opens && steps[|steps| - 1].col == 0 ==> Track(f0, scores[..|scores| - 1]).1 < budget))
  }

  /** What SweepsBelow says, step by step. */
  lemma {:induction false} SweepsBelowMeans(f0: real, budget: int, steps: seq<Step>, scores: seq<real>)
    requires SweepsBelow(f0, budget, steps, scores)
    ensures forall i :: 0 < i < |steps| && steps[i].opens && steps[i].col == 0 ==> Track(f0, scores[..i]).1 < budget
    decreases |steps|
  {
    if |steps| > 1 {
      var n := |steps| - 1;
      var pre, preScores := steps[..n], scores[..n];
      SweepsBelowMeans(f0, budget, pre, preScores);
      forall i | 0 < i < |steps| && steps[i].opens && steps[i].col == 0 ensures Track(f0, scores[..i]).1 < budget {
        if i < n {
          assert pre[i] == steps[i] && preScores[..i] == scores[..i];
        }
      }
    }
  }

  /** The main loop's test before a sweep (slippery.c:208): a sweep that
      goes on from a climb whose bigcount is below the budget starts a new
      pass on column 0 only at its first step, so every sweep of the
      longer climb started with bigcount below the budget too. */
  lemma {:induction false} SweepStarts(f0: real, budget: int, steps: seq<Step>, scores: seq<real>,
                                       best: real, stale: int, steps': seq<Step>, scores': seq<real>, j: int)
    requires |steps| == |scores| && BestTracked(f0, scores, best, stale) && stale < budget
    requires SweepsBelow(f0, budget, steps, scores)
    requires SweepFrom(steps, scores, steps', scores', j) && |steps'| == |scores'|
    ensures SweepsBelow(f0, budget, steps', scores')
    decreases |steps'|
  {
    if |steps'| == |steps| {
      assert steps' == steps && scores' == scores;
    } else {
      var n := |steps'| - 1;
      var pre, preScores := steps'[..n], scores'[..n];
      assert pre[..|steps|] == steps && preScores[..|scores|] == scores;
      SweepStarts(f0, budget, steps, scores, best, stale, pre, preScores, j);
      if n == |steps| && 0 < n {
        assert preScores == scores;
        TrackedIsTrack(f0, scores, best, stale);
      }
    }
  }

  /** The steps of a pass on column j, appended to the climb's, are on
      column j, and only the first opens a pass. */
  lemma PassSteps(steps: seq<Step>, more: seq<Step>, all: seq<Step>, j: int)
    requires all == steps + more
    requires forall i :: 0 <= i < |more| ==> more[i].col == j
    requires more != [] ==> more[0].opens
    requires forall i :: 0 < i < |more| ==> Continues(more[i - 1], more[i])
    ensures forall i :: |steps| <= i < |all| ==> all[i].col == j && (all[i].opens <==> i == |steps|)
  {
    forall i | |steps| <= i < |all| ensures all[i].col == j && (all[i].opens <==> i == |steps|) {
      assert all[i] == more[i - |steps|];
      if i > |steps| {
        assert Continues(more[i - |steps| - 1], more[i - |steps|]);
      }
    }
  }

  /** A pass on column j with layout number `pass`, run from the parent
      `start` (the parent in effect, `key`, with column j laid out afresh),
      moves the climb on to the next column and layout. */
  lemma PassExtends(c: seq<int>, fit: seq<int> -> real, period: int, layouts: seq<seq<int>>,
                    swaps: seq<(int, int)>, initial: seq<seq<int>>, steps: seq<Step>, scores: seq<real>,
                    key: seq<seq<int>>, pass: int, j: int, start: seq<seq<int>>,
                    more: seq<Step>, moreScores: seq<real>, key': seq<seq<int>>, failures: int, exhausted: bool,
                    ns: int, ns': int)
    requires Progress(c, fit, period, layouts, swaps, initial, steps, scores, key, pass, j, false)
    requires j < period && pass < |layouts| && |start| == period
    requires SameOutside(start, key, j) && LaidOut(start[j], layouts[pass])
    requires ns == |steps| <= ns' <= |swaps|
    requires PassState(c, fit, period, j, pass, swaps[ns..ns'], start, more, moreScores, key', failures)
    requires exhausted ==> ns' == |swaps|
    requires !exhausted ==> failures == Patience
    ensures Progress(c, fit, period, layouts, swaps, initial, steps + more, scores + moreScores, key', pass + 1, j + 1,
                     exhausted)
  {
    ExtendTrace(c, fit, period, layouts, swaps, initial, steps, scores, j, pass, start, more, moreScores);
    if !exhausted {
      LastOfAppend(steps, more);
    }
  }

  /** One turn of the inner loop (slippery.c:215-233) with swap draw ns:
      the child it tries extends the trace of the pass, whose state it
      keeps, and best and bigcount keep their meaning over its score. */
  method InnerTurn(c: seq<int>, period: int, col: int,
                   pk: array2<int>, ck: array2<int>, bestk: array2<int>, p: array<int>, bestp: array<int>,
                   fit: seq<int> -> real, fitp: real, bestf: real, bigcount: int, count: int,
                   swaps: seq<(int, int)>, ns0: int, ns: int,
                   ghost f0: real, ghost scores: seq<real>, ghost history: seq<Step>, ghost pass: int,
                   ghost start: seq<seq<int>>, ghost steps: seq<Step>, ghost children: seq<real>)
    returns (fitp': real, bestf': real, bigcount': int, count': int,
             ghost steps': seq<Step>, ghost children': seq<real>)
    requires Buffers(c, period, pk, ck, bestk, p, bestp) && 0 <= col < period
    requires ValidSwaps(swaps) && 0 <= ns0 <= ns < |swaps|
    requires PassState(c, fit, period, col, pass, swaps[ns0..ns], start, steps, children, Key(pk, period), count)
    requires count < Patience
    requires fitp == KeyFitness(fit, c, Key(pk, period))
    requires BestKept(c, period, bestk, bestp, fit, f0, scores + children, history + steps, bestf, bigcount)
    modifies pk, ck, bestk, p, bestp
    ensures Buffers(c, period, pk, ck, bestk, p, bestp)
    ensures PassState(c, fit, period, col, pass, swaps[ns0..ns + 1], start, steps', children', Key(pk, period), count')
    ensures fitp' == KeyFitness(fit, c, Key(pk, period)) && fitp <= fitp'
    ensures BestKept(c, period, bestk, bestp, fit, f0, scores + children', history + steps', bestf', bigcount')
    ensures count' <= count + 1
  {
    var a, b := swaps[ns].0, swaps[ns].1;
    ghost var before, bestKey, bestText := Key(pk, period), Key(bestk, period), bestp[..|c|];
    ghost var allBest := bestp[..];
    var fitc;
    fitc, fitp', bestf', count', bigcount' := TryChild(c, period, col, a, b, pk, ck, bestk, p, bestp,
                                                      fit, fitp, bestf, count, bigcount);
    ghost var s := Step(before, col, a, b, Key(ck, period), pass, steps == [], fitp, fitc, count');
    if !(fitc > bestf) {
      assert bestp[..|c|] == allBest[..|c|] && bestp[|c|] == allBest[|c|];
    }
    BestAdvance(c, period, fit, f0, scores + children, history + steps, bestf, bigcount, bestKey, bestText, s, fitc,
                bestf', bigcount', Key(bestk, period), bestp[..|c|]);
    children', steps' := children + [fitc], steps + [s];
    assert swaps[ns0..ns + 1] == swaps[ns0..ns] + [(a, b)];
    ColumnAdvance(c, fit, period, col, pass, swaps[ns0..ns], start, steps, children, before, count, s, count',
                  swaps[ns0..ns + 1], steps', children');
    assert scores + children' == (scores + children) + [fitc];
    assert history + steps' == (history + steps) + [s];
  }

  /** The inner loop (slippery.c:213-234) for column col, pass number
      `pass` of the climb: children are tried, one swap draw each, until
      Patience children in a row fail to beat the parent. The trace of the
      pass records every child tried and its parent; fitp stays the
      parent's fitness and only rises, the parent only changes in column
      col, and best and bigcount keep their meaning over the scores so far
      followed by this pass's. */
  method ClimbColumn(c: seq<int>, period: int, col: int,
                     pk: array2<int>, ck: array2<int>, bestk: array2<int>, p: array<int>, bestp: array<int>,
                     fit: seq<int> -> real, fitp: real, bestf: real, bigcount: int,
                     swaps: seq<(int, int)>, ns: int,
                     ghost f0: real, ghost scores: seq<real>, ghost history: seq<Step>, ghost pass: int)
    returns (fitp': real, bestf': real, bigcount': int, ns': int, exhausted: bool,
             ghost steps: seq<Step>, ghost children: seq<real>, ghost failures: int)
    requires Buffers(c, period, pk, ck, bestk, p, bestp) && 0 <= col < period
    requires fitp == KeyFitness(fit, c, Key(pk, period))
    requires BestKept(c, period, bestk, bestp, fit, f0, scores, history, bestf, bigcount)
    requires ValidSwaps(swaps) && 0 <= ns <= |swaps|
    modifies pk, ck, bestk, p, bestp
    ensures Buffers(c, period, pk, ck, bestk, p, bestp)
    ensures ns <= ns' <= |swaps|
    ensures PassState(c, fit, period, col, pass, swaps[ns..ns'], old(Key(pk, period)), steps, children,
                      Key(pk, period), failures)
    ensures fitp' == KeyFitness(fit, c, Key(pk, period)) && fitp <= fitp'
    ensures BestKept(c, period, bestk, bestp, fit, f0, scores + children, history + steps, bestf', bigcount')
    ensures exhausted ==> ns' == |swaps|
    ensures !exhausted ==> failures == Patience
  {
    ghost var parent := Key(pk, period);
    fitp', bestf', bigcount', ns' := fitp, bestf, bigcount, ns;
    steps, children := [], [];
    var count := 0;
    while count < Patience && ns' < |swaps|
      invariant Buffers(c, period, pk, ck, bestk, p, bestp)
      invariant ns <= ns' <= |swaps|
      invariant PassState(c, fit, period, col, pass, swaps[ns..ns'], parent, steps, children, Key(pk, period), count)
      invariant fitp' == KeyFitness(fit, c, Key(pk, period)) && fitp <= fitp'
      invariant BestKept(c, period, bestk, bestp, fit, f0, scores + children, history + steps, bestf', bigcount')
      invariant count <= Patience
      decreases |swaps| - ns'
    {
      fitp', bestf', bigcount', count, steps, children :=
        InnerTurn(c, period, col, pk, ck, bestk, p, bestp, fit, fitp', bestf', bigcount', count, swaps, ns, ns',
                  f0, scores, history, pass, parent, steps, children);
      ns' := ns' + 1;
    }
    exhausted := count < Patience;
    failures := count;
  }

  /** One turn of the main loop's `for` (slippery.c:210-234) on column j
      with layout number `pass`: lay the column out afresh, score the
      parent, and run the inner loop. The pass's steps extend the trace of
      the climb, and best and bigcount keep their meaning over its scores. */
  method ClimbPass(c: seq<int>, period: int, j: int,
                   pk: array2<int>, ck: array2<int>, bestk: array2<int>, p: array<int>, bestp: array<int>,
                   fit: seq<int> -> real, bestf: real, bigcount: int,
                   layouts: seq<seq<int>>, pass: int, swaps: seq<(int, int)>, ns: int,
                   ghost initial: seq<seq<int>>, ghost f0: real, ghost steps: seq<Step>, ghost scores: seq<real>)
    returns (bestf': real, bigcount': int, ns': int, exhausted: bool,
             ghost steps': seq<Step>, ghost scores': seq<real>)
    requires Buffers(c, period, pk, ck, bestk, p, bestp) && ValidLayouts(layouts) && ValidSwaps(swaps)
    requires Progress(c, fit, period, layouts, swaps, initial, steps, scores, Key(pk, period), pass, j, false)
    requires j < period && pass < |layouts| && ns == |steps|
    requires BestKept(c, period, bestk, bestp, fit, f0, scores, steps, bestf, bigcount)
    modifies pk, ck, bestk, p, bestp
    ensures Buffers(c, period, pk, ck, bestk, p, bestp)
    ensures Progress(c, fit, period, layouts, swaps, initial, steps', scores', Key(pk, period), pass + 1, j + 1, exhausted)
    ensures ns' == |steps'|
    ensures BestKept(c, period, bestk, bestp, fit, f0, scores', steps', bestf', bigcount')
    ensures Extends(steps, scores, steps', scores')
    ensures forall i :: |steps| <= i < |steps'| ==> steps'[i].col == j && (steps'[i].opens <==> i == |steps|)
  {
    ghost var key := Key(pk, period);
    RandomizeParent(c, period, j, pk, layouts[pass]);
    ghost var start := Key(pk, period);
    Decrypt(c, p, pk, period);
    var fitp := fit(p[..|c|]);
    ghost var more, moreScores, failures;
    fitp, bestf', bigcount', ns', exhausted, more, moreScores, failures :=
      ClimbColumn(c, period, j, pk, ck, bestk, p, bestp, fit, fitp, bestf, bigcount, swaps, ns,
                  f0, scores, steps, pass);
    PassExtends(c, fit, period, layouts, swaps, initial, steps, scores, key, pass, j, start,
                more, moreScores, Key(pk, period), failures, exhausted, ns, ns');
    steps', scores' := steps + more, scores + moreScores;
    PassSteps(steps, more, steps', j);
    assert steps'[..|steps|] == steps && scores'[..|scores|] == scores;
  }

  /** When the layouts are used up, the climb has run out of draws. */
  lemma LayoutsOut(c: seq<int>, fit: seq<int> -> real, period: int, layouts: seq<seq<int>>,
                   swaps: seq<(int, int)>, initial: seq<seq<int>>, steps: seq<Step>, scores: seq<real>,
                   key: seq<seq<int>>, nl: int, j: int)
    requires Progress(c, fit, period, layouts, swaps, initial, steps, scores, key, nl, j, false) && nl == |layouts|
    ensures Progress(c, fit, period, layouts, swaps, initial, steps, scores, key, nl, j, true)
  {
  }

  /** A sweep that goes on from `steps`, before column j: after its first
      step it opens no pass on column 0, and before column 0 it has no
      step yet. */
  ghost predicate SweepFrom(steps: seq<Step>, scores: seq<real>, steps': seq<Step>, scores': seq<real>, j: int) {
    Extends(steps, scores, steps', scores') && (j == 0 ==> |steps'| == |steps|) &&
    forall i :: |steps| < i < |steps'| && steps'[i].opens ==> steps'[i].col != 0
  }

  /** One more pass on column j keeps a sweep going on from `steps` with
      no pass opened on column 0 after its first step. */
  lemma SweepExtends(steps: seq<Step>, scores: seq<real>, mid: seq<Step>, midScores: seq<real>,
                     steps': seq<Step>, scores': seq<real>, j: int)
    requires 0 <= j && SweepFrom(steps, scores, mid, midScores, j) && Extends(mid, midScores, steps', scores')
    requires forall i :: |mid| <= i < |steps'| ==> steps'[i].col == j && (steps'[i].opens <==> i == |mid|)
    ensures SweepFrom(steps, scores, steps', scores', j + 1)
  {
    assert steps'[..|steps|] == mid[..|steps|] && scores'[..|scores|] == midScores[..|scores|];
    forall i | |steps| < i < |steps'| && steps'[i].opens ensures steps'[i].col != 0 {
      if i < |mid| {
        assert steps'[i] == mid[i];
      }
    }
  }

  /** One run of the main loop's `for` (slippery.c:209-235): a pass on
      every column in turn, from layout number nl on, unless a stream of
      draws runs out first. */
  method Sweep(c: seq<int>, period: int,
               pk: array2<int>, ck: array2<int>, bestk: array2<int>, p: array<int>, bestp: array<int>,
               fit: seq<int> -> real, bestf: real, bigcount: int,
               layouts: seq<seq<int>>, nl: int, swaps: seq<(int, int)>, ns: int,
               ghost initial: seq<seq<int>>, ghost f0: real, ghost steps: seq<Step>, ghost scores: seq<real>)
    returns (bestf': real, bigcount': int, nl': int, ns': int, exhausted: bool,
             ghost steps': seq<Step>, ghost scores': seq<real>)
    requires Buffers(c, period, pk, ck, bestk, p, bestp) && ValidLayouts(layouts) && ValidSwaps(swaps)
    requires Progress(c, fit, period, layouts, swaps, initial, steps, scores, Key(pk, period), nl, 0, false)
    requires ns == |steps|
    requires BestKept(c, period, bestk, bestp, fit, f0, scores, steps, bestf, bigcount)
    modifies pk, ck, bestk, p, bestp
    ensures Buffers(c, period, pk, ck, bestk, p, bestp)
    ensures Progress(c, fit, period, layouts, swaps, initial, steps', scores', Key(pk, period), nl', 0, exhausted)
    ensures ns' == |steps'|
    ensures BestKept(c, period, bestk, bestp, fit, f0, scores', steps', bestf', bigcount')
    ensures nl <= nl' && (!exhausted ==> nl' == nl + period)
    ensures SweepFrom(steps, scores, steps', scores', period)
  {
    bestf', bigcount', nl', ns', exhausted, steps', scores' := bestf, bigcount, nl, ns, false, steps, scores;
    var j := 0;
    while j < period && !exhausted
      invariant Buffers(c, period, pk, ck, bestk, p, bestp)
      invariant Progress(c, fit, period, layouts, swaps, initial, steps', scores', Key(pk, period), nl', j, exhausted)
      invariant ns' == |steps'|
      invariant BestKept(c, period, bestk, bestp, fit, f0, scores', steps', bestf', bigcount')
      invariant nl <= nl' && (!exhausted ==> nl' == nl + j)
      invariant SweepFrom(steps, scores, steps', scores', j)
      decreases period - j, if exhausted then 0 else 1
    {
      if nl' == |layouts| {
        LayoutsOut(c, fit, period, layouts, swaps, initial, steps', scores', Key(pk, period), nl', j);
        exhausted := true;
      } else {
        ghost var before, beforeScores := steps', scores';
        bestf', bigcount', ns', exhausted, steps', scores' :=
          ClimbPass(c, period, j, pk, ck, bestk, p, bestp, fit, bestf', bigcount', layouts, nl', swaps, ns',
                    initial, f0, steps', scores');
        SweepExtends(steps, scores, before, beforeScores, steps', scores', j);
        nl' := nl' + 1;
        j := j + 1;
      }
    }
  }

  /** One turn of the main loop (slippery.c:208-235): a sweep entered,
      as the loop's test demands, with bigcount below the budget, so that
      every sweep of the longer climb started below the budget. */
  method SweepTurn(c: seq<int>, period: int,
                   pk: array2<int>, ck: array2<int>, bestk: array2<int>, p: array<int>, bestp: array<int>,
                   fit: seq<int> -> real, bestf: real, bigcount: int,
                   layouts: seq<seq<int>>, nl: int, swaps: seq<(int, int)>, ns: int, ghost budget: int,
                   ghost initial: seq<seq<int>>, ghost f0: real, ghost steps: seq<Step>, ghost scores: seq<real>)
    returns (bestf': real, bigcount': int, nl': int, ns': int, exhausted: bool,
             ghost steps': seq<Step>, ghost scores': seq<real>)
    requires Buffers(c, period, pk, ck, bestk, p, bestp) && ValidLayouts(layouts) && ValidSwaps(swaps)
    requires Progress(c, fit, period, layouts, swaps, initial, steps, scores, Key(pk, period), nl, 0, false)
    requires ns == |steps|
    requires BestKept(c, period, bestk, bestp, fit, f0, scores, steps, bestf, bigcount)
    requires SweepsBelow(f0, budget, steps, scores) && bigcount < budget
    modifies pk, ck, bestk, p, bestp
    ensures Buffers(c, period, pk, ck, bestk, p, bestp)
    ensures Progress(c, fit, period, layouts, swaps, initial, steps', scores', Key(pk, period), nl', 0, exhausted)
    ensures ns' == |steps'|
    ensures BestKept(c, period, bestk, bestp, fit, f0, scores', steps', bestf', bigcount')
    ensures nl <= nl' && (!exhausted ==> nl' == nl + period)
    ensures SweepsBelow(f0, budget, steps', scores')
  {
    bestf', bigcount', nl', ns', exhausted, steps', scores' :=
      Sweep(c, period, pk, ck, bestk, p, bestp, fit, bestf, bigcount, layouts, nl, swaps, ns,
            initial, f0, steps, scores);
    SweepStarts(f0, budget, steps, scores, bestf, bigcount, steps', scores', period);
  }

  /** The fitness of the parent before the climb (slippery.c:205-206):
      decrypt with it and score the plaintext. */
  method ScoreParent(c: seq<int>, period: int,
                     pk: array2<int>, ck: array2<int>, bestk: array2<int>, p: array<int>, bestp: array<int>,
                     fit: seq<int> -> real)
    returns (f: real)
    requires Buffers(c, period, pk, ck, bestk, p, bestp)
    modifies p
    ensures Buffers(c, period, pk, ck, bestk, p, bestp)
    ensures f == KeyFitness(fit, c, Key(pk, period))
  {
    ColumnsDecipher(c, Key(pk, period));
    Decrypt(c, p, pk, period);
    f := fit(p[..|c|]);
  }

  /** The climb before its first sweep: no steps, the initial key as
      parent, its fitness as the best. */
  lemma ClimbStarts(c: seq<int>, fit: seq<int> -> real, period: int, layouts: seq<seq<int>>,
                    swaps: seq<(int, int)>, initial: seq<seq<int>>, bestk: array2<int>, bestp: array<int>,
                    f0: real, budget: int)
    requires AllLetters(c) && |initial| == period
    ensures Progress(c, fit, period, layouts, swaps, initial, [], [], initial, 0, 0, false)
    ensures BestKept(c, period, bestk, bestp, fit, f0, [], [], f0, 0)
    ensures SweepsBelow(f0, budget, [], [])
  {
  }

  /** The main loop (slippery.c:205-235): score the initial parent, then
      sweep the columns, each with a fresh random column and the inner
      loop, as long as bigcount is below `budget` at the end of a sweep.
      The trace records every child tried; the best fitness is the largest
      of the initial key's and every child's, and when it exceeds the
      initial key's, bestk and bestp hold the child that reached it and
      its decryption. */
  method HillClimb(c: seq<int>, period: int,
                   pk: array2<int>, ck: array2<int>, bestk: array2<int>, p: array<int>, bestp: array<int>,
                   fit: seq<int> -> real, budget: int, layouts: seq<seq<int>>, swaps: seq<(int, int)>)
    returns (bestf: real, bigcount: int, exhausted: bool, ghost steps: seq<Step>, ghost scores: seq<real>)
    requires Buffers(c, period, pk, ck, bestk, p, bestp)
    requires ValidLayouts(layouts) && ValidSwaps(swaps)
    modifies pk, ck, bestk, p, bestp
    ensures Buffers(c, period, pk, ck, bestk, p, bestp)
    ensures ClimbTrace(c, fit, period, layouts, swaps, old(Key(pk, period)), steps, scores)
    ensures BestTracked(KeyFitness(fit, c, old(Key(pk, period))), scores, bestf, bigcount)
    ensures KeyFitness(fit, c, old(Key(pk, period))) < bestf ==>
      BestRecorded(c, period, bestk, bestp, fit, bestf, steps, bigcount)
    ensures !exhausted ==> budget <= bigcount
    ensures !exhausted && 0 < budget ==>
      steps != [] && steps[|steps| - 1].col == period - 1 && steps[|steps| - 1].run == Patience
    ensures SweepsBelow(KeyFitness(fit, c, old(Key(pk, period))), budget, steps, scores)
    ensures exhausted ==> RanOut(layouts, swaps, steps)
    ensures budget <= 0 ==> !exhausted && steps == []
  {
    ghost var initial := Key(pk, period);
    ghost var f0 := KeyFitness(fit, c, initial);
    var f := ScoreParent(c, period, pk, ck, bestk, p, bestp, fit);
    ClimbStarts(c, fit, period, layouts, swaps, initial, bestk, bestp, f0, budget);
    var nl;
    bestf, bigcount, nl, exhausted, steps, scores :=
      MainLoop(c, period, pk, ck, bestk, p, bestp, fit, f, budget, layouts, swaps, initial);
    assert ClimbTrace(c, fit, period, layouts, swaps, initial, steps, scores);
    assert BestTracked(f0, scores, bestf, bigcount);
  }

  /** The loop of slippery.c:208-235 from the parent's own score f on: a
      sweep at a time, as long as bigcount is below `budget`. It ends with
      bigcount at least the budget or a stream of draws run out. */
  method MainLoop(c: seq<int>, period: int,
                  pk: array2<int>, ck: array2<int>, bestk: array2<int>, p: array<int>, bestp: array<int>,
                  fit: seq<int> -> real, f: real, budget: int, layouts: seq<seq<int>>, swaps: seq<(int, int)>,
                  ghost initial: seq<seq<int>>)
    returns (bestf: real, bigcount: int, nl: int, exhausted: bool, ghost steps: seq<Step>, ghost scores: seq<real>)
    requires Buffers(c, period, pk, ck, bestk, p, bestp)
    requires ValidLayouts(layouts) && ValidSwaps(swaps)
    requires Progress(c, fit, period, layouts, swaps, initial, [], [], Key(pk, period), 0, 0, false)
    requires BestKept(c, period, bestk, bestp, fit, f, [], [], f, 0)
    modifies pk, ck, bestk, p, bestp
    ensures Buffers(c, period, pk, ck, bestk, p, bestp)
    ensures Progress(c, fit, period, layouts, swaps, initial, steps, scores, Key(pk, period), nl, 0, exhausted)
    ensures BestKept(c, period, bestk, bestp, fit, f, scores, steps, bestf, bigcount)
    ensures SweepsBelow(f, budget, steps, scores)
    ensures bigcount <= |steps|
    ensures !exhausted ==> budget <= bigcount
    ensures budget <= 0 ==> !exhausted && steps == []
  {
    ghost var f0 := f;
    bestf := f;
    bigcount := 0;
    steps, scores := [], [];
    exhausted := false;
    nl := 0;
    var ns := 0;
    while bigcount < budget && !exhausted
      invariant Buffers(c, period, pk, ck, bestk, p, bestp)
      invariant Progress(c, fit, period, layouts, swaps, initial, steps, scores, Key(pk, period), nl, 0, exhausted)
      invariant ns == |steps|
      invariant BestKept(c, period, bestk, bestp, fit, f0, scores, steps, bestf, bigcount)
      invariant budget <= 0 ==> !exhausted && steps == []
      invariant SweepsBelow(f0, budget, steps, scores)
      invariant bigcount <= |steps|
      decreases |layouts| - nl, if exhausted then 0 else 1
    {
      bestf, bigcount, nl, ns, exhausted, steps, scores :=
        SweepTurn(c, period, pk, ck, bestk, p, bestp, fit, bestf, bigcount, layouts, nl, swaps, ns, budget,
                  initial, f0, steps, scores);
    }
  }

  /** `randomize(pk[j])` within the climb: column j of the parent is laid
      out as `slots` says, the other columns stay, and the parent stays a
      key that can be decrypted. */
  method RandomizeParent(c: seq<int>, period: int, j: int, pk: array2<int>, slots: seq<int>)
    requires IsKeyArray(pk) && 0 < period <= MaxKeyLen && 0 <= j < period && AllLetters(c)
    requires IsKey(Key(pk, period)) && IsLayout(slots)
    modifies pk
    ensures IsKey(Key(pk, period)) && Shaped(Key(pk, period)) && Decipherable(c, Key(pk, period))
    ensures forall r :: 0 <= r < period && r != j ==> Key(pk, period)[r] == old(Key(pk, period))[r]
    ensures Row(pk, j) == Key(pk, period)[j] && IsColumn(Row(pk, j))
    ensures LaidOut(Key(pk, period)[j], slots)
  {
    ghost var before := Key(pk, period);
    Randomize(pk, j, slots);
    forall r | 0 <= r < period && r != j ensures Key(pk, period)[r] == before[r] {
      assert forall m :: 0 <= m < AlphabetSize ==> Row(pk, r)[m] == before[r][m];
    }
    ColumnsDecipher(c, Key(pk, period));
  }
}
