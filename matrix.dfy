/** The transition-weight matrix that drives generation (`markov_chain` in
    balanced_sequence_generator.py): its value view, the invariant the
    generator keeps on it, and the cooldown that rewrites one of its cells. */
module Matrix {

  /** A matrix as a value: a sequence of rows. */
  type Grid = seq<seq<real>>

  predicate Square(g: Grid)
  {
    forall i | 0 <= i < |g| :: |g[i]| == |g|
  }

  /** The generator's invariant: the diagonal is exactly zero and every other
      cell is positive. Under it the cells that `np.nonzero` keeps are exactly
      the off-diagonal ones. */
  predicate WellFormed(g: Grid)
  {
    Square(g) &&
    (forall i | 0 <= i < |g| :: g[i][i] == 0.0) &&
    (forall i, j | 0 <= i < |g| && 0 <= j < |g| && i != j :: g[i][j] > 0.0)
  }

  /** `math.ceil`: the least integer not below x. */
  function Ceil(x: real): (c: int)
    ensures x <= c as real < x + 1.0
  {
    if x.Floor as real == x then x.Floor else x.Floor + 1
  }

  /** The cooldown of lines 73 and 79: cell (i, j) is overwritten with
      ceil(old) + r. The matrix keeps its shape and every other cell keeps
      its value. */
  function Cooled(g: Grid, i: nat, j: nat, r: real): (h: Grid)
    requires Square(g) && i < |g| && j < |g|
    ensures Square(h) && |h| == |g|
    ensures forall a, b | 0 <= a < |g| && 0 <= b < |g| && (a != i || b != j) :: h[a][b] == g[a][b]
  {
    g[i := g[i][j := Ceil(g[i][j]) as real + r]]
  }

  /** A cooldown with a draw in [0, 1) on an off-diagonal cell keeps the
      matrix well formed; the new value is at least the old one, at least 1,
      and lies in the integer tier [ceil(old), ceil(old) + 1). */
  lemma CooldownKeepsWellFormed(g: Grid, i: nat, j: nat, r: real)
    requires WellFormed(g) && i < |g| && j < |g| && i != j && 0.0 <= r < 1.0
    ensures WellFormed(Cooled(g, i, j, r))
    ensures g[i][j] <= Cooled(g, i, j, r)[i][j]
    ensures 1.0 <= Cooled(g, i, j, r)[i][j]
    ensures Ceil(g[i][j]) as real <= Cooled(g, i, j, r)[i][j] < Ceil(g[i][j]) as real + 1.0
  {
    var h := Cooled(g, i, j, r);
    assert g[i][j] > 0.0;
    assert Ceil(g[i][j]) >= 1;
    forall a, b | 0 <= a < |h| && 0 <= b < |h| && a != b
      ensures h[a][b] > 0.0
    {
      if a == i && b == j {
        assert h[a][b] >= 1.0;
      } else {
        assert h[a][b] == g[a][b];
      }
    }
  }

  /** With a draw strictly inside (0, 1), a cooldown moves a non-integral
      cell up by exactly one integer tier and keeps it non-integral, and
      leaves every other cell as it is: the integer part counts how often
      the cell has been picked. */
  lemma CooldownCountsUse(g: Grid, i: nat, j: nat, r: real, a: nat, b: nat)
    requires Square(g) && i < |g| && j < |g| && a < |g| && b < |g| && 0.0 < r < 1.0
    requires g[a][b].Floor as real < g[a][b]
    ensures Cooled(g, i, j, r)[a][b].Floor == g[a][b].Floor + (if a == i && b == j then 1 else 0)
    ensures Cooled(g, i, j, r)[a][b].Floor as real < Cooled(g, i, j, r)[a][b]
  {
    if a == i && b == j {
      var w := Cooled(g, i, j, r)[i][j];
      assert Ceil(g[i][j]) == g[i][j].Floor + 1;
      assert (g[i][j].Floor + 1) as real <= w < (g[i][j].Floor + 2) as real;
    }
  }

  /** Two square grids of one size with the same cells are equal. */
  lemma SameCells(g: Grid, h: Grid)
    requires Square(g) && Square(h) && |g| == |h|
    requires forall i, j | 0 <= i < |g| && 0 <= j < |g| :: g[i][j] == h[i][j]
    ensures g == h
  {
    forall i | 0 <= i < |g|
      ensures g[i] == h[i]
    {
      assert forall j | 0 <= j < |g| :: g[i][j] == h[i][j];
    }
  }

  /** The value of the array that holds the matrix. */
  ghost function Contents(m: array2<real>): (g: Grid)
    reads m
    ensures |g| == m.Length0
    ensures forall i | 0 <= i < m.Length0 :: |g[i]| == m.Length1
    ensures forall i, j | 0 <= i < m.Length0 && 0 <= j < m.Length1 :: g[i][j] == m[i, j]
  {
    seq(m.Length0, i requires 0 <= i < m.Length0 reads m =>
      seq(m.Length1, j requires 0 <= j < m.Length1 reads m => m[i, j]))
  }
}
