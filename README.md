# Balanced sequence generator — a verified Dafny model

`balanced_sequence_generator.py` generates M sequences of N symbols each, drawn from
the symbols 0 … N-1. The goal is that every transition a → b (with a ≠ b) is used
about equally often. It keeps an N×N weight matrix (`markov_chain`):

- The matrix starts as random noise with a zero diagonal.
- Each sequence starts at the cell holding the smallest nonzero weight. That cell's
  row and column are the first two symbols.
- Each further symbol is the column of the smallest nonzero weight in the row of the
  previous symbol.
- Every cell that is used gets a "cooldown": it is overwritten with `ceil(old) + r`
  for a fresh random `r` in [0, 1).
- Finally the adjacent pairs of all sequences are counted, and every row of the count
  matrix is divided by its sum to give the transition probability matrix.

The model follows the program's own shape:

- `matrix.dfy` (module `Matrix`):
  - the weight matrix as a value (`Grid`);
  - the generator's invariant: zero diagonal, positive off-diagonal cells;
  - `math.ceil`;
  - the cooldown.
- `selection.dfy` (module `Selection`):
  - the two minimum searches, `np.min` over `np.nonzero` followed by
    `np.argwhere(...)[0]`, specified by predicates and reference functions;
  - read-only scanning methods that perform them on the live `array2<real>`.
- `generator.dfy` (module `Generator`):
  - `initialize_markov_chain`, `generate_sequence` and `generate_sequences` as
    methods that mutate one shared `array2<real>` in place;
  - each method is proved equal to a specification function on values. `SeedStep`
    and `NextStep` are one pick each, `Build` is one sequence, and `GenerateAll` is
    M sequences.
- `transitions.dfy` (module `Transitions`) and `stats.dfy` (module `Stats`):
  - the adjacent pairs of a sequence (a multiset, and a direct count per cell);
  - `calculate_transition_probability_matrix` as methods over an `array2<Float>`.
    `Float` is either a finite value or NaN, because numpy's 0 / 0 gives NaN.
- `balance.dfy` (module `Balance`) proves the claim of the file header (line 15):
  the integer part of every cell of the generation matrix is the number of times its
  transition has been emitted.
- `pipeline.dfy` (module `Pipeline`): `generate_balanced_sequences` without its file
  output.

The random sources are parameters:

- `noise[i][j]` in [0, 1) stands for `np.random.rand(N, N)`;
- one draw in [0, 1) per call of `random.random()`: a batch of N - 1 draws per
  sequence.

The code filters cells with `np.nonzero`, not by position. A prose description of the
algorithm speaks of "off-diagonal" cells instead, and the model follows the code. It
requires positive off-diagonal noise, then proves that the off-diagonal cells stay
positive and the diagonal stays zero (`WellFormed`). So the nonzero cells are exactly
the off-diagonal ones whenever the code looks at them.

## Model

| member | source | states |
|---|---|---|
| Generator.Initialized | balanced_sequence_generator.py:57-60 | The matrix `initialize_markov_chain` builds from the noise is N×N. Its cells are stated by `InitializedShape` |
| Generator.InitializedShape | balanced_sequence_generator.py:57-60 | The initial matrix is N×N with an exactly zero diagonal and every off-diagonal cell equal to its noise value, so in [0, 1); with positive off-diagonal noise it is well formed and every cell has integer part 0 |
| Generator.InitializeMarkovChain | balanced_sequence_generator.py:57-60 | Returns a fresh N×N array whose contents are the noise with the diagonal zeroed (`Initialized(noise)`) |
| Matrix.Ceil | balanced_sequence_generator.py:73 | `math.ceil`: the result c is the least integer not below x, i.e. x <= c < x + 1 |
| Matrix.Cooled | balanced_sequence_generator.py:73 | The cooldown rewrites only cell (i, j): the matrix stays N×N and every other cell keeps its value. The range of the new value is stated by `CooldownKeepsWellFormed` |
| Matrix.CooldownKeepsWellFormed | balanced_sequence_generator.py:79 | A cooldown of an off-diagonal cell with r in [0, 1) keeps the diagonal zero and every off-diagonal cell positive; the new value is at least the old, at least 1, and in [ceil(old), ceil(old) + 1) |
| Matrix.CooldownCountsUse | balanced_sequence_generator.py:73 | With r strictly inside (0, 1), a cooldown raises the integer part of a non-integral chosen cell by exactly 1, keeps it non-integral, and leaves every other cell's integer part unchanged |
| Selection.FirstMinIndex | balanced_sequence_generator.py:76-77 | Reference pick for a row: None exactly when every entry is zero; otherwise a column holding the smallest nonzero entry with no earlier column holding that value |
| Selection.SeedAmong | balanced_sequence_generator.py:68-69 | Reference seed search: None exactly when every cell is zero; otherwise a cell holding the smallest nonzero value with no earlier cell in row-major order holding it |
| Selection.FirstMinUnique | balanced_sequence_generator.py:77 | The first-match tie-break makes the picked column unique |
| Selection.SeedUnique | balanced_sequence_generator.py:69 | The row-major first-match tie-break makes the seed cell unique |
| Selection.RowPickIsOffDiagonal | balanced_sequence_generator.py:76-77 | On a well-formed matrix with N >= 2 every row has a pick, and it is never the diagonal cell |
| Selection.SeedIsOffDiagonal | balanced_sequence_generator.py:68-69 | On a well-formed matrix with N >= 2 the seed exists and has row != column |
| Selection.MinNonzero | balanced_sequence_generator.py:68 | Returns a nonzero value that occurs in the matrix and is at most every nonzero cell |
| Selection.FirstEqual | balanced_sequence_generator.py:69 | Returns the first cell in row-major order that holds the given value |
| Selection.RowMinNonzero | balanced_sequence_generator.py:76 | Returns a nonzero value of the row that is at most every nonzero entry of the row |
| Selection.RowFirstEqual | balanced_sequence_generator.py:77 | Returns the first column of the row that holds the given value |
| Generator.SeedStep | balanced_sequence_generator.py:68-73 | The seed step emits two symbols and leaves the matrix at its size. Which cell it picks and cools is stated by `SeedStepPicksSeed` |
| Generator.NextStep | balanced_sequence_generator.py:76-79 | A row step leaves the matrix at its size. Which column it picks and cools is stated by `NextStepPicksRowMinimum` |
| Generator.SeedStepPicksSeed | balanced_sequence_generator.py:68-73 | On a well-formed matrix with N >= 2 the seed step emits the seed cell (minimum nonzero value, row-major first), which is off the diagonal; it cools exactly that cell and the matrix stays well formed and N×N |
| Generator.NextStepPicksRowMinimum | balanced_sequence_generator.py:76-79 | On a well-formed matrix with N >= 2 a row step emits the first column holding the row's smallest nonzero value, which differs from the row; it cools exactly that cell and the matrix stays well formed and N×N |
| Generator.PickSeed | balanced_sequence_generator.py:68-73 | The in-place seed step returns the row and column and leaves the array exactly as the specification `SeedStep` says |
| Generator.PickNext | balanced_sequence_generator.py:76-79 | The in-place row step returns the column and leaves the array exactly as the specification `NextStep` says |
| Generator.Build | balanced_sequence_generator.py:65-80 | After k draws the sequence holds k + 1 symbols (two from the seed, one per further draw) |
| Generator.BuildKeepsWellFormed | balanced_sequence_generator.py:65-80 | Every step keeps the matrix well formed and N×N; the symbol just emitted is a row index different from the one before |
| Generator.BuildShape | balanced_sequence_generator.py:65-80 | Every symbol of a generated sequence is in [0, N) and no symbol follows itself |
| Generator.BuildPrefix | balanced_sequence_generator.py:75-78 | Generation only appends: the symbols after j draws are a prefix of those after k >= j draws |
| Generator.BuildStartsAtSeed | balanced_sequence_generator.py:68-71 | The first two symbols are the seed cell of the matrix the generation started from |
| Generator.StepPicksRowMinimum | balanced_sequence_generator.py:75-79 | Each later symbol is the first column holding the smallest nonzero value of the previous symbol's row in the matrix as the earlier steps left it, and it differs from the previous symbol |
| Generator.GenerateSequence | balanced_sequence_generator.py:65-80 | Returns exactly N symbols in [0, N) without immediate repeats; the sequence and the new array contents are those of `Build` on the old contents, and the matrix stays well formed |
| Generator.GenerateAll | balanced_sequence_generator.py:84-88 | p batches yield p sequences |
| Generator.GenerateAllKeepsWellFormed | balanced_sequence_generator.py:84-88 | After every batch the shared matrix is well formed (zero diagonal) and N×N, and every sequence has N symbols |
| Generator.GenerateAllKeepsEarlier | balanced_sequence_generator.py:86-87 | A later batch leaves the earlier sequences as they are |
| Generator.GenerateAllLastShape | balanced_sequence_generator.py:87 | The newest sequence has all symbols in [0, N) and no immediate repeat |
| Generator.GenerateAllShape | balanced_sequence_generator.py:84-88 | Every generated sequence has all symbols in [0, N) and no immediate repeat |
| Generator.GenerateSequences | balanced_sequence_generator.py:84-88 | Returns M sequences, in call order, equal to `GenerateAll` on the old contents; each has N symbols in [0, N) without immediate repeats; the array ends well formed |
| Transitions.Pairs | balanced_sequence_generator.py:96-97 | The first k symbols contain max(k - 1, 0) adjacent pairs |
| Transitions.NoSelfPairs | balanced_sequence_generator.py:96-97 | A sequence without immediate repeats has no pair (a, a) |
| Transitions.PairsInRange | balanced_sequence_generator.py:96-97 | Every pair of in-range symbols indexes the N×N count matrix |
| Transitions.PairCount | balanced_sequence_generator.py:96-97 | How often the pair (a, b) occurs among the first k symbols: at most k - 1 times, and never for a = b in a sequence without immediate repeats |
| Transitions.PairCountIsMultiplicity | balanced_sequence_generator.py:96-97 | The direct per-cell count equals the multiplicity of the pair in the multiset of pairs |
| Transitions.PairCountOfPrefix | balanced_sequence_generator.py:96-97 | The count over the first k symbols depends only on those symbols |
| Stats.AllPairs | balanced_sequence_generator.py:95-97 | The transitions the counting loop visits: the adjacent pairs among the first N symbols of every sequence, as a multiset (its size and range are the `AllPairsSize` and `AllPairsInRange` rows) |
| Stats.AllPairCountIsMultiplicity | balanced_sequence_generator.py:95-97 | The direct per-cell count over all sequences equals the multiplicity in the multiset of all counted pairs |
| Stats.AllPairsInRange | balanced_sequence_generator.py:95-97 | Every counted pair indexes the N×N matrix (no IndexError for in-range sequences) |
| Stats.AllPairsSize | balanced_sequence_generator.py:95-97 | M sequences contribute M·(N - 1) pairs |
| Stats.CountsAddUp | balanced_sequence_generator.py:94-97 | For in-range pairs, the sum of all cells of the count matrix is the number of pairs |
| Stats.TotalTransitions | balanced_sequence_generator.py:94-97 | Before normalisation the counts sum to M·(N - 1) |
| Stats.NoSelfTransitions | balanced_sequence_generator.py:95-97 | Sequences without immediate repeats leave every diagonal count at 0 |
| Stats.Probability | balanced_sequence_generator.py:98-99 | Cell (a, b) of the result: NaN exactly when row a has no transitions; otherwise the value that, multiplied by the row count, gives the count of (a, b) |
| Stats.Divide | balanced_sequence_generator.py:99 | float64 division of an entry by its row sum: NaN exactly for a zero sum; otherwise the quotient, which times the sum gives back the entry |
| Stats.ProbSumScales | balanced_sequence_generator.py:99 | A partial sum of a normalised row equals the partial count divided by the row sum |
| Stats.CellIsProbability | balanced_sequence_generator.py:99 | In a row with a nonzero sum every entry is finite and in [0, 1] |
| Stats.RowIsDistribution | balanced_sequence_generator.py:98-99 | A row with a nonzero sum becomes a distribution (entries in [0, 1] summing to exactly 1); a zero-sum row becomes NaN throughout |
| Stats.CountSequence | balanced_sequence_generator.py:96-97 | Incrementing over one sequence turns the count matrix of the pairs so far into that of those pairs plus the sequence's pairs |
| Stats.Increment | balanced_sequence_generator.py:97 | One increment adds exactly the pair (x, y) to the counted pairs |
| Stats.CountTransitions | balanced_sequence_generator.py:93-97 | Returns a fresh N×N matrix whose cell (a, b) is the number of adjacent pairs (a, b) over all sequences |
| Stats.RowSum | balanced_sequence_generator.py:99 | `np.sum` of the first k entries of a row of finite cells (no contract of its own; `RowSumIsCount` ties it to the row count) |
| Stats.RowSumIsCount | balanced_sequence_generator.py:99 | `np.sum` of a count row is that row's count |
| Stats.NormalizeRows | balanced_sequence_generator.py:98-99 | Every cell becomes its old value divided by its row's old sum (NaN for a zero sum); rows are independent |
| Stats.CalculateTransitionProbabilityMatrix | balanced_sequence_generator.py:92-100 | For a non-empty set with N = len(sequences[0]), returns a fresh N×N matrix whose cell (a, b) is count(a, b) / row count of a, or NaN for a row with no transitions |
| Balance.SeedStepCountsCell | balanced_sequence_generator.py:73 | With a strict draw, the seed step raises a non-integral cell's integer part by 1 exactly when it is the seed cell, and the cell stays non-integral |
| Balance.NextStepCountsCell | balanced_sequence_generator.py:79 | With a strict draw, a row step raises a non-integral cell's integer part by 1 exactly when it is the cell it uses, and the cell stays non-integral |
| Balance.BuildCellStep | balanced_sequence_generator.py:76-79 | With a strict draw, draw k raises a non-integral cell (a, b)'s integer part by 1 exactly when (a, b) is the transition from symbol k - 1 to symbol k |
| Balance.BuildPairStep | balanced_sequence_generator.py:78 | Draw k adds exactly the transition from symbol k - 1 to symbol k to the sequence's counts |
| Balance.BuildCountsCell | balanced_sequence_generator.py:65-80 | Over one generation with strict draws, each non-integral cell's integer part rises by the number of times its transition occurs in the sequence |
| Balance.GenerateAllCellStep | balanced_sequence_generator.py:87 | With strict draws, batch p raises each non-integral cell's integer part by the number of times its transition occurs in sequence p |
| Balance.GenerateAllPairStep | balanced_sequence_generator.py:87 | Batch p adds the transitions of sequence p to the counts over all sequences |
| Balance.GenerateAllCountsCell | balanced_sequence_generator.py:84-88 | Over all batches, each non-integral cell's integer part rises by the number of times its transition occurs among all sequences |
| Balance.GenerationCountsTransitions | balanced_sequence_generator.py:15 | From positive noise and strict draws, the integer part of every cell of the final generation matrix (diagonal included) is exactly the number of times its transition occurs in the M sequences |
| Pipeline.WalkStatistics | balanced_sequence_generator.py:131-137 | For generated sequences, each result row is a distribution or, when its symbol never leads a transition, all NaN; the diagonal entry is 0 or NaN |
| Pipeline.GenerateBalancedSequences | balanced_sequence_generator.py:131-137 | Initialise, generate M sequences (those of `GenerateAll`, each N symbols in [0, N) without immediate repeats), and return the N×N probability matrix of their pairs; with strict draws the generation matrix's integer parts equal the transition counts |

## Left out

- File output: `save_sequences`, `save_transition_probability_matrix` and `save_transition_probability_matrix_image` (lines 103-123) are CSV and matplotlib I/O.
- `create_subfolder`, the saves in `generate_balanced_sequences`, and `main` (lines 126-156) are filesystem and command-line plumbing.
- Randomness: `np.random.rand` (line 58) and `random.random()` (lines 73 and 79) become caller-supplied values in [0, 1).
- Floating point: cells are exact `real`s. float64 rounding is not modelled, including rounding in `ceil(old) + r` and in the row division. So "sums to exactly 1" is a statement about exact arithmetic.
- Generator.PickSeed, Generator.PickNext, Generator.GenerateSequence, Generator.GenerateSequences, Pipeline.GenerateBalancedSequences: positive off-diagonal noise is required. The first four require it through `WellFormed`; the last requires it directly. `np.random.rand` can return 0.0, and the code would then treat that cell as a diagonal one. The model excludes that case, which has probability 2^-53 per cell.
- Balance.GenerationCountsTransitions: the counting claim assumes every draw lies strictly inside (0, 1). A draw of exactly 0.0 (probability 2^-53 per draw) makes a cell an integer, and its next cooldown does not raise it.
- Generator.SeedStep, Generator.NextStep: where no nonzero cell exists, `np.min` raises ValueError. These total specification functions return the state unchanged there. `SeedStepPicksSeed` and `NextStepPicksRowMinimum` prove that a well-formed matrix with N >= 2 never reaches that branch. The methods require that matrix.
- Generator.GenerateSequence: requires N >= 2. For N < 2 the code raises ValueError at line 68, and the model does not model that error.
- Stats.CalculateTransitionProbabilityMatrix: requires a non-empty set whose sequences all have at least N symbols in [0, N). For N >= 2 the code raises IndexError at lines 93 or 97 on any other input. For N = 1 the loop at line 96 reads no symbol, so the code returns [[nan]] for inputs such as [[7]] or [[0], []]; the model excludes those inputs. The only caller, line 137, never passes them. Negative symbols, which Python would index from the end, are outside `nat`.
- Pipeline.GenerateBalancedSequences: requires M >= 1, because `sequences[0]` at line 93 raises IndexError for M = 0.
- Stats.Divide: every division by a zero row sum gives NaN. numpy would give ±inf for a nonzero numerator, but that cannot happen for count rows: non-negative counts with a zero sum are all zero.
- The two-step minimum search (first the value, then the first cell equal to it) is modelled literally. Its result is proved to be the row-major-first minimal nonzero cell.
