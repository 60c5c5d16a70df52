/** The claim the generator is named for (header of
    balanced_sequence_generator.py, line 15): the integer part of every cell
    of the generation matrix counts how often its transition has been
    emitted. It holds when the noise and every draw lie strictly inside
    (0, 1), so that each cooldown lifts a cell by exactly one integer tier. */
module Balance {
  import opened Matrix
  import opened Transitions
  import opened Generator
  import opened Stats

  /** Every draw lies strictly inside (0, 1). */
  predicate Strict(d: seq<real>)
  {
    forall i | 0 <= i < |d| :: 0.0 < d[i] < 1.0
  }

  /** Every batch of draws is strict. */
  predicate StrictBatches(draws: seq<seq<real>>)
  {
    forall q | 0 <= q < |draws| :: Strict(draws[q])
  }

  /** The seed step (lines 68-73) lifts cell (a, b) by one integer tier
      when it is the seed cell and leaves it alone otherwise. */
  lemma SeedStepCountsCell(g: Grid, r0: real, a: nat, b: nat)
    requires WellFormed(g) && |g| >= 2 && 0.0 < r0 < 1.0
    requires a < |g| && b < |g| && g[a][b].Floor as real < g[a][b]
    ensures var res := SeedStep(g, r0);
            |res.1| == |g| && |res.1[a]| == |g| &&
            res.1[a][b].Floor == g[a][b].Floor + (if a == res.0[0] && b == res.0[1] then 1 else 0) &&
            res.1[a][b].Floor as real < res.1[a][b]
  {
    SeedStepPicksSeed(g, r0);
    var res := SeedStep(g, r0);
    CooldownCountsUse(g, res.0[0], res.0[1], r0, a, b);
  }

  /** A row step (lines 76-79) lifts cell (a, b) by one integer tier when
      it is the cell the step uses and leaves it alone otherwise. */
  lemma NextStepCountsCell(g: Grid, prev: nat, r0: real, a: nat, b: nat)
    requires WellFormed(g) && |g| >= 2 && prev < |g| && 0.0 < r0 < 1.0
    requires a < |g| && b < |g| && g[a][b].Floor as real < g[a][b]
    ensures var res := NextStep(g, prev, r0);
            |res.1| == |g| && |res.1[a]| == |g| &&
            res.1[a][b].Floor == g[a][b].Floor + (if a == prev && b == res.0 then 1 else 0) &&
            res.1[a][b].Floor as real < res.1[a][b]
  {
    NextStepPicksRowMinimum(g, prev, r0);
    var res := NextStep(g, prev, r0);
    CooldownCountsUse(g, prev, res.0, r0, a, b);
  }

  /** Draw k of a generation (k >= 2) cools the cell from symbol k - 1 to
      symbol k: cell (a, b) rises one integer tier exactly when it is that
      cell, and stays strictly above its integer part. */
  lemma BuildCellStep(g: Grid, d: seq<real>, k: nat, a: nat, b: nat)
    requires WellFormed(g) && |g| >= 2 && 2 <= k <= |d| && Strict(d) && a < |g| && b < |g|
    requires |Build(g, d, k - 1).1| == |g| && |Build(g, d, k - 1).1[a]| == |g|
    requires Build(g, d, k - 1).1[a][b].Floor as real < Build(g, d, k - 1).1[a][b]
    ensures var before := Build(g, d, k - 1).1;
            var res := Build(g, d, k);
            |res.1| == |g| && |res.1[a]| == |g| &&
            res.1[a][b].Floor == before[a][b].Floor + (if a == res.0[k - 1] && b == res.0[k] then 1 else 0) &&
            res.1[a][b].Floor as real < res.1[a][b]
  {
    assert Draws(d);
    BuildKeepsWellFormed(g, d, k - 1);
    BuildStep(g, d, k);
    var prior := Build(g, d, k - 1);
    NextStepCountsCell(prior.1, prior.0[k - 1], d[k - 1], a, b);
  }

  /** Draw k of a generation (k >= 2) adds one transition, from symbol
      k - 1 to symbol k, to the walk's counts. */
  lemma BuildPairStep(g: Grid, d: seq<real>, k: nat, a: nat, b: nat)
    requires 2 <= k <= |d|
    ensures var s := Build(g, d, k).0;
            PairCount(s, k + 1, a, b) ==
              PairCount(Build(g, d, k - 1).0, k, a, b) + (if a == s[k - 1] && b == s[k] then 1 else 0)
  {
    BuildPrefix(g, d, k - 1, k);
    PairCountOfPrefix(Build(g, d, k).0, Build(g, d, k - 1).0, k, a, b);
  }

  /** One generation (lines 65-80): cell (a, b) rises by as many integer
      tiers as the sequence contains the transition (a, b), and stays
      strictly above its integer part. */
  lemma {:induction false} BuildCountsCell(g: Grid, d: seq<real>, k: nat, a: nat, b: nat)
    requires WellFormed(g) && |g| >= 2 && 1 <= k <= |d| && Strict(d)
    requires a < |g| && b < |g| && g[a][b].Floor as real < g[a][b]
    ensures var res := Build(g, d, k);
            |res.1| == |g| && |res.1[a]| == |g| &&
            res.1[a][b].Floor == g[a][b].Floor + PairCount(res.0, k + 1, a, b) &&
            res.1[a][b].Floor as real < res.1[a][b]
    decreases k
  {
    if k == 1 {
      SeedStepCountsCell(g, d[0], a, b);
      var s := SeedStep(g, d[0]).0;
      assert PairCount(s, 2, a, b) == if a == s[0] && b == s[1] then 1 else 0;
    } else {
      BuildCountsCell(g, d, k - 1, a, b);
      BuildCellStep(g, d, k, a, b);
      BuildPairStep(g, d, k, a, b);
    }
  }

  /** Generation p (p >= 1) adds to cell (a, b) as many integer tiers as
      its sequence contains the transition (a, b), and keeps the cell
      strictly above its integer part. */
  lemma GenerateAllCellStep(g: Grid, draws: seq<seq<real>>, p: nat, a: nat, b: nat)
    requires WellFormed(g) && |g| >= 2 && BatchDraws(draws, |g|) && StrictBatches(draws)
    requires 1 <= p <= |draws| && a < |g| && b < |g|
    requires |GenerateAll(g, draws, p - 1).1| == |g| && |GenerateAll(g, draws, p - 1).1[a]| == |g|
    requires GenerateAll(g, draws, p - 1).1[a][b].Floor as real < GenerateAll(g, draws, p - 1).1[a][b]
    ensures var before := GenerateAll(g, draws, p - 1).1;
            var res := GenerateAll(g, draws, p);
            |res.1| == |g| && |res.1[a]| == |g| && |res.0[p - 1]| == |g| &&
            res.1[a][b].Floor == before[a][b].Floor + PairCount(res.0[p - 1], |g|, a, b) &&
            res.1[a][b].Floor as real < res.1[a][b]
  {
    GenerateAllKeepsWellFormed(g, draws, p - 1);
    GenerateAllStep(g, draws, p - 1);
    var prior := GenerateAll(g, draws, p - 1);
    var d := draws[p - 1];
    assert |d| + 1 == |g|;
    BuildCountsCell(prior.1, d, |d|, a, b);
  }

  /** Generation p (p >= 1) adds the transitions of its sequence to the
      counts of all sequences so far. */
  lemma GenerateAllPairStep(g: Grid, draws: seq<seq<real>>, p: nat, a: nat, b: nat)
    requires WellFormed(g) && |g| >= 2 && BatchDraws(draws, |g|) && 1 <= p <= |draws|
    ensures var prior := GenerateAll(g, draws, p - 1).0;
            var res := GenerateAll(g, draws, p).0;
            (forall q | 0 <= q < p - 1 :: |prior[q]| == |g|) &&
            (forall q | 0 <= q < p :: |res[q]| == |g|) &&
            AllPairCount(res, |g|, a, b) == AllPairCount(prior, |g|, a, b) + PairCount(res[p - 1], |g|, a, b)
  {
    GenerateAllKeepsWellFormed(g, draws, p - 1);
    GenerateAllKeepsWellFormed(g, draws, p);
    GenerateAllStep(g, draws, p - 1);
    var res := GenerateAll(g, draws, p).0;
    assert res[..p - 1] == GenerateAll(g, draws, p - 1).0;
  }

  /** Lines 84-88: over all generations so far, cell (a, b) has risen by
      as many integer tiers as the sequences contain the transition (a, b)
      among their first N symbols, and stays strictly above its integer part. */
  lemma {:induction false} GenerateAllCountsCell(g: Grid, draws: seq<seq<real>>, p: nat, a: nat, b: nat)
    requires WellFormed(g) && |g| >= 2 && BatchDraws(draws, |g|) && StrictBatches(draws) && p <= |draws|
    requires a < |g| && b < |g| && g[a][b].Floor as real < g[a][b]
    ensures var res := GenerateAll(g, draws, p);
            |res.1| == |g| && |res.1[a]| == |g| &&
            (forall q | 0 <= q < p :: |res.0[q]| == |g|) &&
            res.1[a][b].Floor == g[a][b].Floor + AllPairCount(res.0, |g|, a, b) &&
            res.1[a][b].Floor as real < res.1[a][b]
    decreases p
  {
    if p > 0 {
      GenerateAllCountsCell(g, draws, p - 1, a, b);
      GenerateAllCellStep(g, draws, p, a, b);
      GenerateAllPairStep(g, draws, p, a, b);
    }
  }

  /** The generation matrix after M sequences, from noise and draws strictly
      inside (0, 1): the integer part of every cell is the number of times
      its transition occurs in the sequences, so the diagonal stays zero. */
  lemma GenerationCountsTransitions(noise: seq<seq<real>>, draws: seq<seq<real>>, count: nat)
    requires |noise| >= 2 && Noise(noise, |noise|)
    requires forall i, j | 0 <= i < |noise| && 0 <= j < |noise| && i != j :: noise[i][j] > 0.0
    requires BatchDraws(draws, |noise|) && StrictBatches(draws) && count <= |draws|
    ensures var n := |noise|;
            var res := GenerateAll(Initialized(noise), draws, count);
            Square(res.1) && |res.1| == n &&
            (forall q | 0 <= q < count :: |res.0[q]| == n) &&
            forall a, b | 0 <= a < n && 0 <= b < n :: res.1[a][b].Floor == AllPairs(res.0, n)[(a, b)]
  {
    var n := |noise|;
    var g := Initialized(noise);
    InitializedShape(noise);
    GenerateAllKeepsWellFormed(g, draws, count);
    var res := GenerateAll(g, draws, count);
    forall q | 0 <= q < count ensures NoImmediateRepeat(res.0[q]) {
      GenerateAllShape(g, draws, count, q);
    }
    forall a, b | 0 <= a < n && 0 <= b < n
      ensures res.1[a][b].Floor == AllPairs(res.0, n)[(a, b)]
    {
      if a == b {
        NoSelfTransitions(res.0, n, a);
      } else {
        GenerateAllCountsCell(g, draws, count, a, b);
        AllPairCountIsMultiplicity(res.0, n, a, b);
      }
    }
  }
}
