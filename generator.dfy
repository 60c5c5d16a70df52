/** Matrix initialisation and sequence generation (`initialize_markov_chain`,
    `generate_sequence`, `generate_sequences`). The random sources are
    replaced by draws the caller supplies: `noise` for `np.random.rand(N, N)`
    and one draw in [0, 1) per `random.random()` call. */
module Generator {
  import opened Matrix
  import opened Selection
  import opened Transitions

  /** Every draw lies in [0, 1), the range of `random.random()`. */
  predicate Draws(d: seq<real>)
  {
    forall k | 0 <= k < |d| :: 0.0 <= d[k] < 1.0
  }

  /** One batch of draws per sequence, N - 1 draws each. */
  predicate BatchDraws(draws: seq<seq<real>>, n: nat)
  {
    forall q | 0 <= q < |draws| :: |draws[q]| == n - 1 && Draws(draws[q])
  }

  /** An n-by-n noise matrix with entries in [0, 1), as `np.random.rand` returns. */
  predicate Noise(noise: seq<seq<real>>, n: nat)
  {
    |noise| == n &&
    (forall i | 0 <= i < n :: |noise[i]| == n) &&
    (forall i, j | 0 <= i < n && 0 <= j < n :: 0.0 <= noise[i][j] < 1.0)
  }

  /** The matrix `initialize_markov_chain` returns for the given noise. */
  function Initialized(noise: seq<seq<real>>): (g: Grid)
    requires Noise(noise, |noise|)
    ensures Square(g) && |g| == |noise|
  {
    seq(|noise|, i requires 0 <= i < |noise| =>
      seq(|noise|, j requires 0 <= j < |noise| => if i == j then 0.0 else noise[i][j]))
  }

  /** The initial matrix is N by N with a zero diagonal and every other cell
      taken from the noise, so in [0, 1). When the off-diagonal noise is
      positive, the matrix is well formed and every cell has integer part 0,
      so every off-diagonal cell lies strictly above its integer part. */
  lemma InitializedShape(noise: seq<seq<real>>)
    requires Noise(noise, |noise|)
    ensures forall i | 0 <= i < |noise| :: Initialized(noise)[i][i] == 0.0
    ensures forall i, j | 0 <= i < |noise| && 0 <= j < |noise| && i != j :: Initialized(noise)[i][j] == noise[i][j]
    ensures forall i, j | 0 <= i < |noise| && 0 <= j < |noise| :: 0.0 <= Initialized(noise)[i][j] < 1.0
    ensures (forall i, j | 0 <= i < |noise| && 0 <= j < |noise| && i != j :: noise[i][j] > 0.0) ==>
              WellFormed(Initialized(noise)) &&
              forall i, j | 0 <= i < |noise| && 0 <= j < |noise| :: Initialized(noise)[i][j].Floor == 0
  {
  }

  /** Lines 57-60: fill an N-by-N matrix with the noise, then zero its diagonal. */
  method InitializeMarkovChain(n: nat, noise: seq<seq<real>>) returns (m: array2<real>)
    requires Noise(noise, n)
    ensures fresh(m) && m.Length0 == n && m.Length1 == n
    ensures Contents(m) == Initialized(noise)
  {
    m := new real[n, n]((i, j) requires 0 <= i < n && 0 <= j < n => noise[i][j]);
    for i := 0 to n
      invariant forall a, b | 0 <= a < n && 0 <= b < n ::
        m[a, b] == if a == b && a < i then 0.0 else noise[a][b]
    {
      m[i, i] := 0.0;
    }
    SameCells(Contents(m), Initialized(noise));
  }

  /** Lines 68-73: the seed cell (r, c) gives the first two symbols, and
      the cell is cooled down with the draw r0. Where no cell is nonzero
      `np.min` raises; the model leaves the state as it is there, and
      `SeedStepPicksSeed` shows a well-formed matrix never gets there. */
  ghost function SeedStep(g: Grid, r0: real): (res: (seq<nat>, Grid))
    ensures |res.0| == 2 && |res.1| == |g|
  {
    if Square(g) && exists r: nat, c: nat :: IsSeed(g, r, c) then
      var r: nat, c: nat :| IsSeed(g, r, c);
      ([r, c], Cooled(g, r, c, r0))
    else ([0, 0], g)
  }

  /** Lines 76-79: the next symbol is the first column holding the smallest
      nonzero value of row prev, and that cell is cooled down with the draw
      r0. Where the row has no nonzero cell the model leaves the state as it
      is; `NextStepPicksRowMinimum` shows a well-formed matrix never gets there. */
  ghost function NextStep(g: Grid, prev: nat, r0: real): (res: (nat, Grid))
    ensures |res.1| == |g|
  {
    if Square(g) && prev < |g| && exists c: nat :: IsFirstMin(g[prev], c) then
      var c: nat :| IsFirstMin(g[prev], c);
      (c, Cooled(g, prev, c, r0))
    else (prev, g)
  }

  /** On a well-formed matrix the seed step emits the seed cell (the one
      `SeedAmong` finds), which is off the diagonal, cools exactly that cell
      down and leaves the matrix well formed. */
  lemma SeedStepPicksSeed(g: Grid, r0: real)
    requires WellFormed(g) && |g| >= 2 && 0.0 <= r0 < 1.0
    ensures var res := SeedStep(g, r0);
            IsSeed(g, res.0[0], res.0[1]) && res.0[0] != res.0[1] &&
            res.0[0] < |g| && res.0[1] < |g| &&
            res.1 == Cooled(g, res.0[0], res.0[1], r0) &&
            WellFormed(res.1) && |res.1| == |g|
  {
    SeedIsOffDiagonal(g);
    var w := SeedAmong(g, |g|).value;
    assert IsSeed(g, w.0, w.1);
    var res := SeedStep(g, r0);
    SeedUnique(g, res.0[0], res.0[1], w.0, w.1);
    CooldownKeepsWellFormed(g, res.0[0], res.0[1], r0);
  }

  /** On a well-formed matrix the row step emits the first column holding
      the smallest nonzero value of the row (the one `FirstMinIndex` finds),
      never the row itself, cools exactly that cell down and leaves the
      matrix well formed. */
  lemma NextStepPicksRowMinimum(g: Grid, prev: nat, r0: real)
    requires WellFormed(g) && |g| >= 2 && prev < |g| && 0.0 <= r0 < 1.0
    ensures var res := NextStep(g, prev, r0);
            IsFirstMin(g[prev], res.0) && res.0 != prev && res.0 < |g| &&
            res.1 == Cooled(g, prev, res.0, r0) &&
            WellFormed(res.1) && |res.1| == |g|
  {
    RowPickIsOffDiagonal(g, prev);
    var w := FirstMinIndex(g[prev]).value;
    assert IsFirstMin(g[prev], w);
    var res := NextStep(g, prev, r0);
    FirstMinUnique(g[prev], res.0, w);
    CooldownKeepsWellFormed(g, prev, res.0, r0);
  }

  /** The symbols and the matrix after `generate_sequence` has consumed the
      first k draws of d: the seed step, then one row pick per further draw,
      each on the matrix the previous steps left. */
  ghost function Build(g: Grid, d: seq<real>, k: nat): (res: (seq<nat>, Grid))
    requires 1 <= k <= |d|
    ensures |res.0| == k + 1
    decreases k
  {
    if k == 1 then SeedStep(g, d[0])
    else
      var prior := Build(g, d, k - 1);
      var next := NextStep(prior.1, prior.0[k - 1], d[k - 1]);
      (prior.0 + [next.0], next.1)
  }

  /** One more draw appends the column of one row step to the symbols and
      replaces the matrix by the one that step leaves. */
  lemma BuildStep(g: Grid, d: seq<real>, k: nat)
    requires 2 <= k <= |d|
    ensures var prior := Build(g, d, k - 1);
            var next := NextStep(prior.1, prior.0[k - 1], d[k - 1]);
            Build(g, d, k).0 == prior.0 + [next.0] && Build(g, d, k).1 == next.1
  {
  }

  /** Lines 65-80 keep the generator's invariant: on a well-formed matrix
      every step leaves the matrix well formed and of the same size, and
      the symbol just emitted is a row index other than the one before it. */
  lemma {:induction false} BuildKeepsWellFormed(g: Grid, d: seq<real>, k: nat)
    requires WellFormed(g) && |g| >= 2 && 1 <= k <= |d| && Draws(d)
    ensures WellFormed(Build(g, d, k).1) && |Build(g, d, k).1| == |g|
    ensures Build(g, d, k).0[k] < |g|
    ensures k >= 2 ==> Build(g, d, k).0[k - 1] != Build(g, d, k).0[k]
    decreases k
  {
    if k == 1 {
      SeedStepPicksSeed(g, d[0]);
    } else {
      BuildKeepsWellFormed(g, d, k - 1);
      BuildStep(g, d, k);
      var prior := Build(g, d, k - 1);
      NextStepPicksRowMinimum(prior.1, prior.0[k - 1], d[k - 1]);
    }
  }

  /** Lines 65-80 on a well-formed matrix: one symbol more than draws
      consumed (N symbols from N - 1 draws), every symbol a row index, no
      symbol following itself. */
  lemma {:induction false} BuildShape(g: Grid, d: seq<real>, k: nat)
    requires WellFormed(g) && |g| >= 2 && 1 <= k <= |d| && Draws(d)
    ensures InRange(Build(g, d, k).0, |g|) && NoImmediateRepeat(Build(g, d, k).0)
    decreases k
  {
    if k == 1 {
      SeedStepPicksSeed(g, d[0]);
    } else {
      BuildShape(g, d, k - 1);
      BuildKeepsWellFormed(g, d, k);
      BuildPrefix(g, d, k - 1, k);
      var prior := Build(g, d, k - 1).0;
      var s := Build(g, d, k).0;
      assert forall i | 0 <= i < k :: s[i] == prior[i];
      assert InRange(s, |g|) by {
        forall i | 0 <= i < |s| ensures s[i] < |g| {
          if i < k { assert s[i] == prior[i]; }
        }
      }
      assert NoImmediateRepeat(s) by {
        forall i | 1 <= i < |s| ensures s[i - 1] != s[i] {
          if i < k { assert s[i - 1] == prior[i - 1] && s[i] == prior[i]; }
        }
      }
    }
  }

  /** Building is incremental: the symbols emitted after j draws are a prefix
      of those emitted after k >= j draws. */
  lemma {:induction false} BuildPrefix(g: Grid, d: seq<real>, j: nat, k: nat)
    requires 1 <= j <= k <= |d|
    ensures Build(g, d, j).0 == Build(g, d, k).0[..j + 1]
    decreases k
  {
    if j < k {
      BuildPrefix(g, d, j, k - 1);
      BuildStep(g, d, k);
      var prior := Build(g, d, k - 1).0;
      assert Build(g, d, k).0[..j + 1] == prior[..j + 1];
    } else {
      assert Build(g, d, k).0[..k + 1] == Build(g, d, k).0;
    }
  }

  /** Lines 68-70: whatever the number of draws, the first two symbols are
      the seed cell of the matrix generation started from. */
  lemma BuildStartsAtSeed(g: Grid, d: seq<real>, k: nat)
    requires WellFormed(g) && |g| >= 2 && 1 <= k <= |d| && Draws(d)
    ensures IsSeed(g, Build(g, d, k).0[0], Build(g, d, k).0[1])
  {
    BuildPrefix(g, d, 1, k);
    SeedStepPicksSeed(g, d[0]);
    assert Build(g, d, k).0[..2] == SeedStep(g, d[0]).0;
  }

  /** Each extension step (lines 76-79): the symbol emitted for draw k is
      the first column holding the smallest nonzero value of the row of the
      previous symbol, in the matrix as the first k draws left it; in
      particular it differs from the previous symbol. */
  lemma StepPicksRowMinimum(g: Grid, d: seq<real>, k: nat)
    requires WellFormed(g) && |g| >= 2 && 1 <= k < |d| && Draws(d)
    ensures var before := Build(g, d, k);
            var s := Build(g, d, k + 1).0;
            s[k] == before.0[k] && s[k] < |before.1| && IsFirstMin(before.1[s[k]], s[k + 1]) && s[k + 1] != s[k]
  {
    BuildKeepsWellFormed(g, d, k);
    BuildStep(g, d, k + 1);
    var before := Build(g, d, k);
    NextStepPicksRowMinimum(before.1, before.0[k], d[k]);
  }

  /** Lines 68-73: find the seed cell, emit its row and column, and cool
      the cell down with the draw r0. */
  method PickSeed(m: array2<real>, r0: real) returns (r: nat, c: nat)
    requires m.Length0 == m.Length1 >= 2 && WellFormed(Contents(m))
    requires 0.0 <= r0 < 1.0
    modifies m
    ensures ([r, c], Contents(m)) == SeedStep(old(Contents(m)), r0)
  {
    ghost var g := Contents(m);
    assert m[0, 1] != 0.0;
    var v := MinNonzero(m);
    r, c := FirstEqual(m, v);
    SeedStepPicksSeed(g, r0);
    SeedUnique(g, r, c, SeedStep(g, r0).0[0], SeedStep(g, r0).0[1]);
    m[r, c] := Ceil(m[r, c]) as real + r0;
    SameCells(Contents(m), Cooled(g, r, c, r0));
  }

  /** Lines 76-79: pick the next symbol from row prev and cool the used cell
      down with the draw r0. */
  method PickNext(m: array2<real>, prev: nat, r0: real) returns (col: nat)
    requires m.Length0 == m.Length1 >= 2 && WellFormed(Contents(m)) && prev < m.Length0
    requires 0.0 <= r0 < 1.0
    modifies m
    ensures (col, Contents(m)) == NextStep(old(Contents(m)), prev, r0)
  {
    ghost var g := Contents(m);
    RowPickIsOffDiagonal(g, prev);
    assert m[prev, FirstMinIndex(g[prev]).value] != 0.0;
    var w := RowMinNonzero(m, prev);
    col := RowFirstEqual(m, prev, w);
    NextStepPicksRowMinimum(g, prev, r0);
    FirstMinUnique(g[prev], col, NextStep(g, prev, r0).0);
    m[prev, col] := Ceil(m[prev, col]) as real + r0;
    SameCells(Contents(m), Cooled(g, prev, col, r0));
  }

  /** Lines 65-80: emit N symbols, mutating the matrix in place. */
  method GenerateSequence(n: nat, m: array2<real>, d: seq<real>) returns (s: seq<nat>)
    requires m.Length0 == n && m.Length1 == n && n >= 2
    requires WellFormed(Contents(m))
    requires |d| == n - 1 && Draws(d)
    modifies m
    ensures (s, Contents(m)) == Build(old(Contents(m)), d, |d|)
    ensures |s| == n && InRange(s, n) && NoImmediateRepeat(s) && WellFormed(Contents(m))
  {
    ghost var g0 := Contents(m);
    var r, c := PickSeed(m, d[0]);
    s := [r, c];
    for i := 2 to n
      invariant (s, Contents(m)) == Build(g0, d, i - 1)
    {
      BuildStep(g0, d, i);
      BuildKeepsWellFormed(g0, d, i - 1);
      assert s[i - 1] < n;
      var col := PickNext(m, s[i - 1], d[i - 1]);
      s := s + [col];
    }
    BuildShape(g0, d, n - 1);
    BuildKeepsWellFormed(g0, d, n - 1);
  }

  /** Every batch holds at least one draw, so each generation has a seed. */
  predicate Batches(draws: seq<seq<real>>)
  {
    forall q | 0 <= q < |draws| :: 1 <= |draws[q]|
  }

  /** The sequences and the matrix after `generate_sequences` has used the
      first p batches of draws: each sequence is built on the matrix exactly
      as the previous ones left it. */
  ghost function GenerateAll(g: Grid, draws: seq<seq<real>>, p: nat): (res: (seq<seq<nat>>, Grid))
    requires p <= |draws| && Batches(draws)
    ensures |res.0| == p
    decreases p
  {
    if p == 0 then ([], g)
    else
      var prior := GenerateAll(g, draws, p - 1);
      var next := Build(prior.1, draws[p - 1], |draws[p - 1]|);
      (prior.0 + [next.0], next.1)
  }

  /** One more batch appends the sequence one generation builds on the
      matrix the earlier batches left, and replaces the matrix by the one it
      leaves. */
  lemma GenerateAllStep(g: Grid, draws: seq<seq<real>>, p: nat)
    requires p < |draws| && Batches(draws)
    ensures var prior := GenerateAll(g, draws, p);
            var next := Build(prior.1, draws[p], |draws[p]|);
            GenerateAll(g, draws, p + 1).0 == prior.0 + [next.0] && GenerateAll(g, draws, p + 1).1 == next.1
  {
  }

  /** Lines 84-88 keep the generator's invariant: the shared matrix stays
      well formed and N by N from one generation to the next, and every
      sequence has N symbols. */
  lemma {:induction false} GenerateAllKeepsWellFormed(g: Grid, draws: seq<seq<real>>, p: nat)
    requires WellFormed(g) && |g| >= 2 && BatchDraws(draws, |g|) && p <= |draws|
    ensures WellFormed(GenerateAll(g, draws, p).1) && |GenerateAll(g, draws, p).1| == |g|
    ensures forall q | 0 <= q < p :: |GenerateAll(g, draws, p).0[q]| == |g|
    decreases p
  {
    if p > 0 {
      GenerateAllKeepsWellFormed(g, draws, p - 1);
      GenerateAllStep(g, draws, p - 1);
      var prior := GenerateAll(g, draws, p - 1);
      BuildKeepsWellFormed(prior.1, draws[p - 1], |draws[p - 1]|);
      var all := GenerateAll(g, draws, p).0;
      assert forall q | 0 <= q < p - 1 :: all[q] == prior.0[q];
    }
  }

  /** A later generation leaves the earlier sequences as they are. */
  lemma GenerateAllKeepsEarlier(g: Grid, draws: seq<seq<real>>, p: nat, q: nat)
    requires Batches(draws) && q + 1 < p <= |draws|
    ensures GenerateAll(g, draws, p).0[q] == GenerateAll(g, draws, p - 1).0[q]
  {
    GenerateAllStep(g, draws, p - 1);
  }

  /** The sequence of generation p (p >= 1), built on a well-formed matrix,
      has every symbol a row index and no symbol following itself. */
  lemma GenerateAllLastShape(g: Grid, draws: seq<seq<real>>, p: nat)
    requires WellFormed(g) && |g| >= 2 && BatchDraws(draws, |g|) && 1 <= p <= |draws|
    ensures InRange(GenerateAll(g, draws, p).0[p - 1], |g|)
    ensures NoImmediateRepeat(GenerateAll(g, draws, p).0[p - 1])
  {
    GenerateAllKeepsWellFormed(g, draws, p - 1);
    GenerateAllStep(g, draws, p - 1);
    var prior := GenerateAll(g, draws, p - 1);
    BuildShape(prior.1, draws[p - 1], |draws[p - 1]|);
  }

  /** Lines 84-88 on a well-formed matrix: every symbol of the q-th
      sequence is a row index and no symbol follows itself. */
  lemma {:induction false} GenerateAllShape(g: Grid, draws: seq<seq<real>>, p: nat, q: nat)
    requires WellFormed(g) && |g| >= 2 && BatchDraws(draws, |g|) && q < p <= |draws|
    ensures InRange(GenerateAll(g, draws, p).0[q], |g|)
    ensures NoImmediateRepeat(GenerateAll(g, draws, p).0[q])
    decreases p
  {
    if q + 1 < p {
      GenerateAllShape(g, draws, p - 1, q);
      GenerateAllKeepsEarlier(g, draws, p, q);
    } else {
      GenerateAllLastShape(g, draws, p);
    }
  }

  /** Lines 84-88: M calls of `generate_sequence` on one shared matrix. */
  method GenerateSequences(n: nat, count: nat, m: array2<real>, draws: seq<seq<real>>)
      returns (seqs: seq<seq<nat>>)
    requires m.Length0 == n && m.Length1 == n && n >= 2
    requires WellFormed(Contents(m))
    requires |draws| == count && BatchDraws(draws, n)
    modifies m
    ensures Batches(draws) && (seqs, Contents(m)) == GenerateAll(old(Contents(m)), draws, count)
    ensures WellFormed(Contents(m))
    ensures forall q | 0 <= q < count ::
      |seqs[q]| == n && InRange(seqs[q], n) && NoImmediateRepeat(seqs[q])
  {
    ghost var g0 := Contents(m);
    seqs := [];
    for i := 0 to count
      invariant seqs == GenerateAll(g0, draws, i).0 && Contents(m) == GenerateAll(g0, draws, i).1
      invariant WellFormed(Contents(m))
    {
      GenerateAllStep(g0, draws, i);
      var s := GenerateSequence(n, m, draws[i]);
      seqs := seqs + [s];
    }
    GenerateAllKeepsWellFormed(g0, draws, count);
    forall q | 0 <= q < count
      ensures InRange(seqs[q], n) && NoImmediateRepeat(seqs[q])
    {
      GenerateAllShape(g0, draws, count, q);
    }
  }
}
