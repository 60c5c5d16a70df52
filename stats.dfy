/** `calculate_transition_probability_matrix`: count the transitions of a
    finished sequence set, then divide every row by its sum. */
module Stats {
  import opened Transitions

  /** A float64 cell of the result: a finite value, or the NaN that 0 / 0
      yields for a row whose counts are all zero. */
  datatype Float = Finite(value: real) | NaN

  /** What lines 93-97 need of their input to run: every sequence has at
      least N = len(sequences[0]) symbols, and its first N are row indices. */
  predicate Countable(seqs: seq<seq<nat>>, n: nat)
  {
    forall q | 0 <= q < |seqs| :: |seqs[q]| >= n && InRange(seqs[q][..n], n)
  }

  /** The transitions lines 95-97 count: the adjacent pairs among the first
      n symbols of every sequence. */
  function AllPairs(seqs: seq<seq<nat>>, n: nat): (p: multiset<(nat, nat)>)
    requires forall q | 0 <= q < |seqs| :: |seqs[q]| >= n
    decreases |seqs|
  {
    if seqs == [] then multiset{}
    else AllPairs(seqs[..|seqs| - 1], n) + Pairs(seqs[|seqs| - 1], n)
  }

  /** The sum of the first k cells of row a of the count matrix. */
  function RowCount(ms: multiset<(nat, nat)>, a: nat, k: nat): nat
  {
    if k == 0 then 0 else RowCount(ms, a, k - 1) + ms[(a, k - 1)]
  }

  /** The sum of the first `rows` rows of the n-column count matrix. */
  function TotalCount(ms: multiset<(nat, nat)>, rows: nat, n: nat): nat
  {
    if rows == 0 then 0 else TotalCount(ms, rows - 1, n) + RowCount(ms, rows - 1, n)
  }

  /** Cell (a, b) of the normalised matrix: count / row sum, and NaN
      throughout a row whose sum is zero. */
  function Probability(ms: multiset<(nat, nat)>, n: nat, a: nat, b: nat): (p: Float)
    ensures p == NaN <==> RowCount(ms, a, n) == 0
    ensures p.Finite? ==> p.value * RowCount(ms, a, n) as real == ms[(a, b)] as real
  {
    var total := RowCount(ms, a, n);
    if total == 0 then NaN else Finite(ms[(a, b)] as real / total as real)
  }

  /** The sum of the first k entries of a row that has a nonzero count. */
  function ProbSum(ms: multiset<(nat, nat)>, n: nat, a: nat, k: nat): real
    requires RowCount(ms, a, n) > 0
  {
    if k == 0 then 0.0 else ProbSum(ms, n, a, k - 1) + Probability(ms, n, a, k - 1).value
  }

  lemma {:induction false} RowCountAdd(ms: multiset<(nat, nat)>, x: (nat, nat), a: nat, k: nat)
    ensures RowCount(ms + multiset{x}, a, k) == RowCount(ms, a, k) + (if x.0 == a && x.1 < k then 1 else 0)
  {
    if k > 0 {
      RowCountAdd(ms, x, a, k - 1);
    }
  }

  lemma {:induction false} TotalCountAdd(ms: multiset<(nat, nat)>, x: (nat, nat), rows: nat, n: nat)
    ensures TotalCount(ms + multiset{x}, rows, n) == TotalCount(ms, rows, n) + (if x.0 < rows && x.1 < n then 1 else 0)
  {
    if rows > 0 {
      TotalCountAdd(ms, x, rows - 1, n);
      RowCountAdd(ms, x, rows - 1, n);
    }
  }

  lemma {:induction false} TotalCountEmpty(rows: nat, n: nat)
    ensures TotalCount(multiset{}, rows, n) == 0
  {
    if rows > 0 {
      TotalCountEmpty(rows - 1, n);
      RowCountEmpty(rows - 1, n);
    }
  }

  lemma {:induction false} RowCountEmpty(a: nat, k: nat)
    ensures RowCount(multiset{}, a, k) == 0
  {
    if k > 0 {
      RowCountEmpty(a, k - 1);
    }
  }

  /** When every counted pair lies in the n-by-n matrix, the cells of the
      count matrix add up to the number of pairs. */
  lemma {:induction false} CountsAddUp(ms: multiset<(nat, nat)>, n: nat)
    requires forall x | x in ms :: x.0 < n && x.1 < n
    ensures TotalCount(ms, n, n) == |ms|
    decreases |ms|
  {
    if ms == multiset{} {
      TotalCountEmpty(n, n);
    } else {
      var x :| x in ms;
      var rest := ms - multiset{x};
      assert ms == rest + multiset{x};
      CountsAddUp(rest, n);
      TotalCountAdd(rest, x, n, n);
    }
  }

  /** Cell (a, b) of the count matrix of a sequence set, read off directly. */
  function AllPairCount(seqs: seq<seq<nat>>, n: nat, a: nat, b: nat): nat
    requires forall q | 0 <= q < |seqs| :: |seqs[q]| >= n
    decreases |seqs|
  {
    if seqs == [] then 0
    else AllPairCount(seqs[..|seqs| - 1], n, a, b) + PairCount(seqs[|seqs| - 1], n, a, b)
  }

  /** The direct count agrees with the multiset of counted pairs. */
  lemma {:induction false} AllPairCountIsMultiplicity(seqs: seq<seq<nat>>, n: nat, a: nat, b: nat)
    requires forall q | 0 <= q < |seqs| :: |seqs[q]| >= n
    ensures AllPairCount(seqs, n, a, b) == AllPairs(seqs, n)[(a, b)]
    decreases |seqs|
  {
    if seqs != [] {
      AllPairCountIsMultiplicity(seqs[..|seqs| - 1], n, a, b);
      PairCountIsMultiplicity(seqs[|seqs| - 1], n, a, b);
    }
  }

  /** Every counted pair lies in the n-by-n matrix. */
  lemma {:induction false} AllPairsInRange(seqs: seq<seq<nat>>, n: nat, x: (nat, nat))
    requires Countable(seqs, n) && x in AllPairs(seqs, n)
    ensures x.0 < n && x.1 < n
    decreases |seqs|
  {
    var last := seqs[|seqs| - 1];
    if x in Pairs(last, n) {
      PairsInRange(last, n, n, x);
    } else {
      AllPairsInRange(seqs[..|seqs| - 1], n, x);
    }
  }

  /** Every sequence of length at least n contributes n - 1 pairs. */
  lemma {:induction false} AllPairsSize(seqs: seq<seq<nat>>, n: nat)
    requires n >= 1 && forall q | 0 <= q < |seqs| :: |seqs[q]| >= n
    ensures |AllPairs(seqs, n)| == |seqs| * (n - 1)
    decreases |seqs|
  {
    if seqs != [] {
      AllPairsSize(seqs[..|seqs| - 1], n);
      assert |seqs| * (n - 1) == (|seqs| - 1) * (n - 1) + (n - 1);
    }
  }

  /** Before normalisation the counts add up to M * (N - 1): one per
      adjacent pair of every sequence. */
  lemma TotalTransitions(seqs: seq<seq<nat>>, n: nat)
    requires n >= 1 && Countable(seqs, n)
    ensures TotalCount(AllPairs(seqs, n), n, n) == |seqs| * (n - 1)
  {
    forall x | x in AllPairs(seqs, n) ensures x.0 < n && x.1 < n {
      AllPairsInRange(seqs, n, x);
    }
    CountsAddUp(AllPairs(seqs, n), n);
    AllPairsSize(seqs, n);
  }

  /** Sequences without immediate repeats leave the diagonal count at zero. */
  lemma {:induction false} NoSelfTransitions(seqs: seq<seq<nat>>, n: nat, a: nat)
    requires forall q | 0 <= q < |seqs| :: |seqs[q]| >= n && NoImmediateRepeat(seqs[q])
    ensures AllPairs(seqs, n)[(a, a)] == 0
    decreases |seqs|
  {
    if seqs != [] {
      NoSelfPairs(seqs[|seqs| - 1], n, a);
      NoSelfTransitions(seqs[..|seqs| - 1], n, a);
    }
  }

  /** A single cell never exceeds the sum of its row. */
  lemma {:induction false} CellBelowRowCount(ms: multiset<(nat, nat)>, a: nat, b: nat, k: nat)
    requires b < k
    ensures ms[(a, b)] <= RowCount(ms, a, k)
  {
    if b < k - 1 {
      CellBelowRowCount(ms, a, b, k - 1);
    }
  }

  lemma DivAdd(x: real, y: real, t: real)
    requires t > 0.0
    ensures x / t + y / t == (x + y) / t
  {
  }

  /** Partial sums of a normalised row are partial counts over the row sum. */
  lemma {:induction false} ProbSumScales(ms: multiset<(nat, nat)>, n: nat, a: nat, k: nat)
    requires RowCount(ms, a, n) > 0
    ensures ProbSum(ms, n, a, k) == RowCount(ms, a, k) as real / RowCount(ms, a, n) as real
  {
    if k > 0 {
      ProbSumScales(ms, n, a, k - 1);
      var t := RowCount(ms, a, n) as real;
      var x := RowCount(ms, a, k - 1) as real;
      var y := ms[(a, k - 1)] as real;
      DivAdd(x, y, t);
    }
  }

  /** A share of a positive total lies in [0, 1]. */
  lemma ShareInUnit(x: real, t: real)
    requires 0.0 <= x <= t && t > 0.0
    ensures 0.0 <= x / t <= 1.0
  {
  }

  /** A positive total divided by itself is 1. */
  lemma WholeShare(t: real)
    requires t > 0.0
    ensures t / t == 1.0
  {
  }

  /** Lines 98-99, one cell of a row with a nonzero count sum: a finite
      probability in [0, 1]. */
  lemma CellIsProbability(ms: multiset<(nat, nat)>, n: nat, a: nat, b: nat)
    requires RowCount(ms, a, n) > 0 && b < n
    ensures Probability(ms, n, a, b).Finite?
    ensures 0.0 <= Probability(ms, n, a, b).value <= 1.0
  {
    CellBelowRowCount(ms, a, b, n);
    ShareInUnit(ms[(a, b)] as real, RowCount(ms, a, n) as real);
  }

  /** Lines 98-99: a row with a nonzero count sum becomes a probability
      distribution, every entry in [0, 1] and the entries summing to 1; a row
      whose sum is zero becomes NaN throughout. */
  lemma RowIsDistribution(ms: multiset<(nat, nat)>, n: nat, a: nat)
    ensures RowCount(ms, a, n) > 0 ==>
      ProbSum(ms, n, a, n) == 1.0 &&
      forall b | 0 <= b < n :: Probability(ms, n, a, b).Finite? &&
        0.0 <= Probability(ms, n, a, b).value <= 1.0
    ensures RowCount(ms, a, n) == 0 ==> forall b :: Probability(ms, n, a, b) == NaN
  {
    if RowCount(ms, a, n) > 0 {
      ProbSumScales(ms, n, a, n);
      WholeShare(RowCount(ms, a, n) as real);
      forall b | 0 <= b < n
        ensures Probability(ms, n, a, b).Finite? && 0.0 <= Probability(ms, n, a, b).value <= 1.0
      {
        CellIsProbability(ms, n, a, b);
      }
    }
  }

  /** Adding one pair raises its multiplicity by one and no other. */
  lemma AddOne(ms: multiset<(nat, nat)>, x: (nat, nat), z: (nat, nat))
    ensures (ms + multiset{x})[z] == ms[z] + (if z == x then 1 else 0)
  {
  }

  /** The n-by-n array holds the count matrix of the pairs ms. */
  ghost predicate Holds(t: array2<Float>, n: nat, ms: multiset<(nat, nat)>)
    reads t
    requires t.Length0 == n && t.Length1 == n
  {
    forall a, b | 0 <= a < n && 0 <= b < n :: t[a, b] == Finite(ms[(a, b)] as real)
  }

  /** Lines 96-97 for one sequence: add one to cell (s[i], s[i+1]) for
      every i < n - 1. */
  method CountSequence(t: array2<Float>, s: seq<nat>, n: nat, ghost done: multiset<(nat, nat)>)
    requires t.Length0 == n && t.Length1 == n && |s| >= n && InRange(s[..n], n)
    requires Holds(t, n, done)
    modifies t
    ensures Holds(t, n, done + Pairs(s, n))
  {
    ghost var acc := done;
    if n >= 1 {
      assert acc == done + Pairs(s, 1);
      for i := 0 to n - 1
        invariant acc == done + Pairs(s, i + 1)
        invariant Holds(t, n, acc)
      {
        var x, y := s[i], s[i + 1];
        assert s[..n][i] == x && s[..n][i + 1] == y;
        Increment(t, n, acc, x, y);
        acc := acc + multiset{(x, y)};
      }
    } else {
      assert acc == done + Pairs(s, n);
    }
  }

  /** Line 97: one transition (x, y) adds one to its cell. */
  method Increment(t: array2<Float>, n: nat, ghost ms: multiset<(nat, nat)>, x: nat, y: nat)
    requires t.Length0 == n && t.Length1 == n && x < n && y < n
    requires Holds(t, n, ms)
    modifies t
    ensures Holds(t, n, ms + multiset{(x, y)})
  {
    t[x, y] := Finite(t[x, y].value + 1.0);
    forall a, b | 0 <= a < n && 0 <= b < n
      ensures t[a, b] == Finite((ms + multiset{(x, y)})[(a, b)] as real)
    {
      AddOne(ms, (x, y), (a, b));
    }
  }

  /** Lines 93-97: a fresh N-by-N zero matrix, incremented once per adjacent
      pair of the first N symbols of every sequence. */
  method CountTransitions(seqs: seq<seq<nat>>, n: nat) returns (t: array2<Float>)
    requires Countable(seqs, n)
    ensures fresh(t) && t.Length0 == n && t.Length1 == n
    ensures forall a, b | 0 <= a < n && 0 <= b < n :: t[a, b] == Finite(AllPairs(seqs, n)[(a, b)] as real)
  {
    t := new Float[n, n]((a, b) => Finite(0.0));
    for q := 0 to |seqs|
      invariant Holds(t, n, AllPairs(seqs[..q], n))
    {
      assert seqs[..q + 1][..q] == seqs[..q];
      CountSequence(t, seqs[q], n, AllPairs(seqs[..q], n));
    }
    assert seqs[..|seqs|] == seqs;
  }

  /** The sum of the first k entries of row a (`np.sum`), all finite. */
  function RowSum(t: array2<Float>, a: nat, k: nat): real
    reads t
    requires a < t.Length0 && k <= t.Length1
    requires forall b | 0 <= b < k :: t[a, b].Finite?
  {
    if k == 0 then 0.0 else RowSum(t, a, k - 1) + t[a, k - 1].value
  }

  /** float64 division of a finite entry by its row sum; 0 / 0 is NaN. A
      zero sum of non-negative counts means the entry itself is 0. */
  function Divide(x: Float, d: real): (q: Float)
    requires x.Finite?
    ensures q == NaN <==> d == 0.0
    ensures q.Finite? ==> q.value * d == x.value
  {
    if d == 0.0 then NaN else Finite(x.value / d)
  }

  /** Lines 98-99: each row, in turn, is replaced by itself divided by its sum. */
  method NormalizeRows(t: array2<Float>)
    requires forall a, b | 0 <= a < t.Length0 && 0 <= b < t.Length1 :: t[a, b].Finite?
    modifies t
    ensures forall a, b | 0 <= a < t.Length0 && 0 <= b < t.Length1 ::
      t[a, b] == Divide(old(t[a, b]), old(RowSum(t, a, t.Length1)))
  {
    for i := 0 to t.Length0
      invariant forall a, b | 0 <= a < i && 0 <= b < t.Length1 ::
        t[a, b] == Divide(old(t[a, b]), old(RowSum(t, a, t.Length1)))
      invariant forall a, b | i <= a < t.Length0 && 0 <= b < t.Length1 :: t[a, b] == old(t[a, b])
    {
      var total := 0.0;
      for j := 0 to t.Length1
        invariant total == old(RowSum(t, i, j))
      {
        total := total + t[i, j].value;
      }
      for j := 0 to t.Length1
        invariant forall a, b | 0 <= a < i && 0 <= b < t.Length1 ::
          t[a, b] == Divide(old(t[a, b]), old(RowSum(t, a, t.Length1)))
        invariant forall b | 0 <= b < j :: t[i, b] == Divide(old(t[i, b]), total)
        invariant forall a, b | i <= a < t.Length0 && 0 <= b < t.Length1 && (a != i || j <= b) ::
          t[a, b] == old(t[a, b])
      {
        t[i, j] := Divide(t[i, j], total);
      }
    }
  }

  /** The row sums of the count matrix are the row counts. */
  lemma {:induction false} RowSumIsCount(t: array2<Float>, ms: multiset<(nat, nat)>, a: nat, k: nat)
    requires a < t.Length0 && k <= t.Length1
    requires forall b | 0 <= b < k :: t[a, b] == Finite(ms[(a, b)] as real)
    ensures RowSum(t, a, k) == RowCount(ms, a, k) as real
  {
    if k > 0 {
      RowSumIsCount(t, ms, a, k - 1);
    }
  }

  /** Lines 92-100: the transition probability matrix of a non-empty
      sequence set, N = len(sequences[0]). */
  method CalculateTransitionProbabilityMatrix(seqs: seq<seq<nat>>) returns (p: array2<Float>)
    requires |seqs| > 0 && Countable(seqs, |seqs[0]|)
    ensures fresh(p) && p.Length0 == |seqs[0]| && p.Length1 == |seqs[0]|
    ensures forall a, b | 0 <= a < |seqs[0]| && 0 <= b < |seqs[0]| ::
      p[a, b] == Probability(AllPairs(seqs, |seqs[0]|), |seqs[0]|, a, b)
  {
    var n := |seqs[0]|;
    p := CountTransitions(seqs, n);
    ghost var ms := AllPairs(seqs, n);
    forall a | 0 <= a < n
      ensures RowSum(p, a, n) == RowCount(ms, a, n) as real
    {
      RowSumIsCount(p, ms, a, n);
    }
    NormalizeRows(p);
  }
}
