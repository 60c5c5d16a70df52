/** `generate_balanced_sequences` (lines 131-137) up to the point where it
    writes files: initialise the matrix, generate M sequences on it, and
    compute the transition probability matrix of those sequences. */
module Pipeline {
  import opened Matrix
  import opened Transitions
  import opened Generator
  import opened Stats
  import opened Balance

  /** What lines 92-100 yield, in row a, for sequences the generator
      produced: the row is a distribution (entries in [0, 1] summing to 1)
      or, when symbol a never leads a transition, NaN throughout; and its
      diagonal entry is 0 or NaN. */
  lemma WalkStatistics(seqs: seq<seq<nat>>, n: nat, a: nat)
    requires a < n
    requires forall q | 0 <= q < |seqs| :: |seqs[q]| == n && NoImmediateRepeat(seqs[q])
    ensures var pr := Probability(AllPairs(seqs, n), n, a, a); pr == NaN || pr == Finite(0.0)
    ensures RowCount(AllPairs(seqs, n), a, n) > 0 ==>
      ProbSum(AllPairs(seqs, n), n, a, n) == 1.0 &&
      forall b | 0 <= b < n :: Probability(AllPairs(seqs, n), n, a, b).Finite? &&
        0.0 <= Probability(AllPairs(seqs, n), n, a, b).value <= 1.0
    ensures RowCount(AllPairs(seqs, n), a, n) == 0 ==>
      forall b | 0 <= b < n :: Probability(AllPairs(seqs, n), n, a, b) == NaN
  {
    NoSelfTransitions(seqs, n, a);
    RowIsDistribution(AllPairs(seqs, n), n, a);
  }

  /** The sequences are the ones the generation model yields from the
      initial matrix, each a walk over the N symbols without immediate
      repeats; the result matrix holds their transition probabilities (whose
      properties WalkStatistics states); and with draws strictly inside
      (0, 1) the generation matrix ends up with integer parts equal to the
      transition counts. */
  method GenerateBalancedSequences(n: nat, count: nat, noise: seq<seq<real>>, draws: seq<seq<real>>)
      returns (seqs: seq<seq<nat>>, p: array2<Float>)
    requires n >= 2 && count >= 1 && Noise(noise, n)
    requires forall i, j | 0 <= i < n && 0 <= j < n && i != j :: noise[i][j] > 0.0
    requires |draws| == count && BatchDraws(draws, n)
    ensures Batches(draws) && seqs == GenerateAll(Initialized(noise), draws, count).0
    ensures |seqs| == count
    ensures forall q | 0 <= q < count ::
      |seqs[q]| == n && InRange(seqs[q], n) && NoImmediateRepeat(seqs[q])
    ensures fresh(p) && p.Length0 == n && p.Length1 == n
    ensures forall a, b | 0 <= a < n && 0 <= b < n ::
      p[a, b] == Probability(AllPairs(seqs, n), n, a, b)
    ensures StrictBatches(draws) ==>
      var g := GenerateAll(Initialized(noise), draws, count).1;
      Square(g) && |g| == n &&
      forall a, b | 0 <= a < n && 0 <= b < n :: g[a][b].Floor == AllPairs(seqs, n)[(a, b)]
  {
    var m := InitializeMarkovChain(n, noise);
    InitializedShape(noise);
    seqs := GenerateSequences(n, count, m, draws);
    assert |seqs[0]| == n;
    forall q | 0 <= q < |seqs| ensures InRange(seqs[q][..n], n) {
      assert seqs[q][..n] == seqs[q];
    }
    p := CalculateTransitionProbabilityMatrix(seqs);
    if StrictBatches(draws) {
      GenerationCountsTransitions(noise, draws, count);
    }
  }
}
