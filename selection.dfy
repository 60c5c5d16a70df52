/** The minimum searches of `generate_sequence`: the smallest nonzero value,
    then the first cell holding it (`np.min` over `np.nonzero`, followed by
    `np.argwhere(...)[0]`). Specified by predicates and pure functions, and
    performed by read-only scanning methods over the live array. */
module Selection {
  import opened Matrix

  datatype Option<T> = None | Some(value: T)

  /** Column j is the one line 77 yields for this row: it holds the smallest
      nonzero entry and no earlier column holds that value. */
  predicate IsFirstMin(row: seq<real>, j: int)
  {
    0 <= j < |row| && row[j] != 0.0 &&
    (forall k | 0 <= k < |row| && row[k] != 0.0 :: row[j] <= row[k]) &&
    (forall k | 0 <= k < j :: row[k] != row[j])
  }

  /** Row-major scan order: cell (i1, j1) comes before cell (i2, j2). */
  predicate Before(i1: int, j1: int, i2: int, j2: int)
  {
    i1 < i2 || (i1 == i2 && j1 < j2)
  }

  /** (r, c) is the cell lines 68-69 yield when the scan is limited to the
      first `rows` rows: it holds the smallest nonzero value and no cell
      before it in row-major order holds that value. */
  predicate IsSeedAmong(g: Grid, rows: nat, r: int, c: int)
    requires Square(g) && rows <= |g|
  {
    0 <= r < rows && 0 <= c < |g| && g[r][c] != 0.0 &&
    (forall i, j | 0 <= i < rows && 0 <= j < |g| && g[i][j] != 0.0 :: g[r][c] <= g[i][j]) &&
    (forall i, j | 0 <= i < rows && 0 <= j < |g| && Before(i, j, r, c) :: g[i][j] != g[r][c])
  }

  /** The seed cell of lines 68-69 over the whole matrix. */
  predicate IsSeed(g: Grid, r: int, c: int)
    requires Square(g)
  {
    IsSeedAmong(g, |g|, r, c)
  }

  /** The column picked in a row, or None when every entry is zero (where
      `np.min` of the empty selection raises). */
  function FirstMinIndex(row: seq<real>): (j: Option<nat>)
    ensures j.None? <==> forall k | 0 <= k < |row| :: row[k] == 0.0
    ensures j.Some? ==> IsFirstMin(row, j.value)
    decreases |row|
  {
    if |row| == 0 then None
    else
      var last := |row| - 1;
      var prior := FirstMinIndex(row[..last]);
      assert forall k | 0 <= k < last :: row[..last][k] == row[k];
      if prior.None? then
        (if row[last] != 0.0 then Some(last) else None)
      else if row[last] != 0.0 && row[last] < row[prior.value] then Some(last)
      else prior
  }

  /** The seed cell over the first `rows` rows, or None when all of them are zero. */
  function SeedAmong(g: Grid, rows: nat): (s: Option<(nat, nat)>)
    requires Square(g) && rows <= |g|
    ensures s.None? <==> forall i, j | 0 <= i < rows && 0 <= j < |g| :: g[i][j] == 0.0
    ensures s.Some? ==> IsSeedAmong(g, rows, s.value.0, s.value.1)
    decreases rows
  {
    if rows == 0 then None
    else
      var prior := SeedAmong(g, rows - 1);
      var here := FirstMinIndex(g[rows - 1]);
      if here.None? then prior
      else if prior.None? || g[rows - 1][here.value] < g[prior.value.0][prior.value.1] then
        Some((rows - 1, here.value))
      else prior
  }

  /** The tie-break makes the picked column unique. */
  lemma FirstMinUnique(row: seq<real>, j1: int, j2: int)
    requires IsFirstMin(row, j1) && IsFirstMin(row, j2)
    ensures j1 == j2
  {
  }

  /** The row-major tie-break makes the seed cell unique. */
  lemma SeedUnique(g: Grid, r1: int, c1: int, r2: int, c2: int)
    requires Square(g) && IsSeed(g, r1, c1) && IsSeed(g, r2, c2)
    ensures r1 == r2 && c1 == c2
  {
    assert g[r1][c1] == g[r2][c2];
    assert !Before(r1, c1, r2, c2) && !Before(r2, c2, r1, c1);
  }

  /** On a well-formed matrix with at least two symbols every row has a
      pick, and the pick is never the diagonal cell: no self-repeat. */
  lemma RowPickIsOffDiagonal(g: Grid, i: nat)
    requires WellFormed(g) && |g| >= 2 && i < |g|
    ensures FirstMinIndex(g[i]).Some?
    ensures FirstMinIndex(g[i]).value != i
  {
    var k := if i == 0 then 1 else 0;
    assert g[i][k] != 0.0;
  }

  /** On a well-formed matrix with at least two symbols the seed exists and
      is off the diagonal. */
  lemma SeedIsOffDiagonal(g: Grid)
    requires WellFormed(g) && |g| >= 2
    ensures SeedAmong(g, |g|).Some?
    ensures SeedAmong(g, |g|).value.0 != SeedAmong(g, |g|).value.1
  {
    assert g[0][1] != 0.0;
  }

  /** Line 68: the smallest nonzero value of the whole matrix. */
  method MinNonzero(m: array2<real>) returns (v: real)
    requires exists i, j | 0 <= i < m.Length0 && 0 <= j < m.Length1 :: m[i, j] != 0.0
    ensures v != 0.0
    ensures exists i, j | 0 <= i < m.Length0 && 0 <= j < m.Length1 :: m[i, j] == v
    ensures forall i, j | 0 <= i < m.Length0 && 0 <= j < m.Length1 && m[i, j] != 0.0 :: v <= m[i, j]
  {
    var found := false;
    v := 0.0;
    ghost var wi, wj := 0, 0;
    var i := 0;
    while i < m.Length0
      invariant 0 <= i <= m.Length0
      invariant found ==> v != 0.0 && 0 <= wi < m.Length0 && 0 <= wj < m.Length1 && m[wi, wj] == v
      invariant !found ==> forall a, b | 0 <= a < i && 0 <= b < m.Length1 :: m[a, b] == 0.0
      invariant found ==> forall a, b | 0 <= a < i && 0 <= b < m.Length1 && m[a, b] != 0.0 :: v <= m[a, b]
    {
      var j := 0;
      while j < m.Length1
        invariant 0 <= j <= m.Length1
        invariant found ==> v != 0.0 && 0 <= wi < m.Length0 && 0 <= wj < m.Length1 && m[wi, wj] == v
        invariant !found ==> forall a, b | 0 <= a < i && 0 <= b < m.Length1 :: m[a, b] == 0.0
        invariant !found ==> forall b | 0 <= b < j :: m[i, b] == 0.0
        invariant found ==> forall a, b | 0 <= a < i && 0 <= b < m.Length1 && m[a, b] != 0.0 :: v <= m[a, b]
        invariant found ==> forall b | 0 <= b < j && m[i, b] != 0.0 :: v <= m[i, b]
      {
        if m[i, j] != 0.0 && (!found || m[i, j] < v) {
          v, found := m[i, j], true;
          wi, wj := i, j;
        }
        j := j + 1;
      }
      i := i + 1;
    }
    if !found {
      assert false;
    }
  }

  /** Line 69: the first cell in row-major order that holds v. */
  method FirstEqual(m: array2<real>, v: real) returns (r: nat, c: nat)
    requires exists i, j | 0 <= i < m.Length0 && 0 <= j < m.Length1 :: m[i, j] == v
    ensures r < m.Length0 && c < m.Length1 && m[r, c] == v
    ensures forall i, j | 0 <= i < m.Length0 && 0 <= j < m.Length1 && Before(i, j, r, c) :: m[i, j] != v
  {
    var i := 0;
    while i < m.Length0
      invariant 0 <= i <= m.Length0
      invariant forall a, b | 0 <= a < i && 0 <= b < m.Length1 :: m[a, b] != v
    {
      var j := 0;
      while j < m.Length1
        invariant 0 <= j <= m.Length1
        invariant forall b | 0 <= b < j :: m[i, b] != v
      {
        if m[i, j] == v {
          return i, j;
        }
        j := j + 1;
      }
      i := i + 1;
    }
    assert false;
  }

  /** Line 76: the smallest nonzero value of one row. */
  method RowMinNonzero(m: array2<real>, row: nat) returns (v: real)
    requires row < m.Length0
    requires exists j | 0 <= j < m.Length1 :: m[row, j] != 0.0
    ensures v != 0.0
    ensures exists j | 0 <= j < m.Length1 :: m[row, j] == v
    ensures forall j | 0 <= j < m.Length1 && m[row, j] != 0.0 :: v <= m[row, j]
  {
    var found := false;
    v := 0.0;
    ghost var w := 0;
    for j := 0 to m.Length1
      invariant found ==> v != 0.0 && 0 <= w < m.Length1 && m[row, w] == v
      invariant !found ==> forall b | 0 <= b < j :: m[row, b] == 0.0
      invariant found ==> forall b | 0 <= b < j && m[row, b] != 0.0 :: v <= m[row, b]
    {
      if m[row, j] != 0.0 && (!found || m[row, j] < v) {
        v, found, w := m[row, j], true, j;
      }
    }
    if !found {
      assert false;
    }
  }

  /** Line 77: the first column of the row that holds v. */
  method RowFirstEqual(m: array2<real>, row: nat, v: real) returns (c: nat)
    requires row < m.Length0
    requires exists j | 0 <= j < m.Length1 :: m[row, j] == v
    ensures c < m.Length1 && m[row, c] == v
    ensures forall j | 0 <= j < c :: m[row, j] != v
  {
    for j := 0 to m.Length1
      invariant forall b | 0 <= b < j :: m[row, b] != v
    {
      if m[row, j] == v {
        return j;
      }
    }
    assert false;
  }
}
