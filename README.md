# matrixrs in Dafny

A Dafny model of `matrixrs`, a generic, row-major, dense 2-D matrix library
for Rust. The library has a single type, `Matrix<T>`. It has `m` rows and `n`
columns, stored as a vector of `m` row vectors of `n` entries each. The model
covers the following operations:

- the constructors `from_fn` and `from_T`
- the accessors `size`, `at` and `[(r, c)]`
- the structural operations `row`, `col`, `augment` (alias `|`), `transpose`
  (alias `!`) and `map`
- the numeric operations `sum`, `dot`, `+`, unary and binary `-`, and `*`
- the equality `==`
- the convenience constructors `zeros`, `ones` and `identity`

Layout:

- `matrix.dfy`, module `Matrices`: the `Matrix<T>` datatype. It has a
  `Valid()` predicate for the shape invariant: `data` has `m` rows and every
  row has `n` entries. This module holds every operation that needs only
  copying or comparing elements. Each operation returns a fresh value, as
  the library does.
- `sums.dfy`, module `Sums`: finite integer sums `Sigma(n, f)`, accumulated
  from the left like the library's loops. It also holds the algebra of
  these sums: extensionality, addition, scaling, constants, a single
  non-zero term, and swapping the order of a double sum.
- `numeric.dfy`, module `IntMatrices`: the arithmetic operations with `T`
  instantiated to `int`. `Total` (the sum of all cells, row by row) and
  `Inner` (the textbook product cell, the sum over k of a(i,k) * b(k,j))
  are the reference definitions.
- `numeric_laws.dfy`, module `IntMatrixLaws`: laws that relate several
  operations. Examples: commutativity of `+`, `(a + b) + (-b) == a`,
  associativity of `*`, the identity laws, `(a * b)^T == b^T * a^T`, and
  how `sum` behaves on fills, sums and transposes.
- `scenarios.dfy`, module `MatrixScenarios`: a few concrete matrices and
  what the operations give on them.

How the model handles failures, loops and arithmetic:

- **Failures.** The library fails in two ways: an index outside a vector
  panics, and `assert!` stops `+` and `*` on mismatched shapes. The model
  returns these as `Err(OutOfBounds)` and `Err(ShapeMismatch)` in a
  `Result`, and each operation's contract says exactly when it fails.
- **Loops.** The library builds some results with loops: the push-loops of
  `from_fn`, `from_T` and `col`, and the accumulators of `sum`, `dot` and
  `==`. Each of these is a method with a loop (`BuildFromFn`,
  `BuildFromValue`, `CopyCol`, `Sum`, `Dot`, `Equals`), proved equal to the
  function that specifies it. The operations that are a single expression
  built on `from_fn` are functions.
- **Arithmetic.** The integers are unbounded. Element arithmetic is exact.

Two behaviours of the code a reader might not expect, both modelled as written:

- The comment on `augment` speaks of an MxN and an MxC matrix
  (src/matrixrs/lib.rs:61), but the code does not compare the row counts
  of its operands (src/matrixrs/lib.rs:62-64). It fails only when a cell of the right
  operand that it reads does not exist. That happens exactly when the right
  operand has at least one column and fewer rows than the left one. The
  failure is an index error, not a shape assertion. When the right operand
  has more rows, the extra rows are silently ignored.
- `col(c)` on a matrix with no rows reads no cell (src/matrixrs/lib.rs:52-59).
  It therefore returns an empty 0-by-1 column for any `c` instead of
  failing.

## Model

| member | source | states |
|---|---|---|
| `Matrices.FromFn` | src/matrixrs/lib.rs:20-28 | the result has exactly m rows of exactly n entries, and cell (i, j) is f(i, j) |
| `Matrices.BuildFromFn` | src/matrixrs/lib.rs:20-28 | pushing one generated row per step for i < m builds exactly the matrix `FromFn` specifies |
| `Matrices.FromValue` | src/matrixrs/lib.rs:36-43 | the result has exactly m rows of exactly n entries, and every cell is v |
| `Matrices.BuildFromValue` | src/matrixrs/lib.rs:36-43 | pushing m rows of n copies of v builds exactly the matrix `FromValue` specifies |
| `Matrices.FromValueIsConstantFromFn` | src/matrixrs/lib.rs:36-43 | a fill-value matrix equals the generated matrix of the constant generator |
| `Matrices.AtFromFn` | src/matrixrs/lib.rs:20-47 | reading cell (i, j) of from_fn(m, n, f) gives f(i, j) when i < m and j < n, and an out-of-bounds error otherwise |
| `Matrices.Size` | src/matrixrs/lib.rs:29-32 | (rows, columns), where the row count is the length of the stored table and every stored row has the column count |
| `Matrices.At` | src/matrixrs/lib.rs:44-47 | succeeds iff row < m and col < n, and then yields the stored cell; otherwise it is an out-of-bounds error, never a default |
| `Matrices.Index` | src/matrixrs/lib.rs:149-155 | the `[(r, c)]` operator has the same bounds, the same cell and the same error as `At` |
| `Matrices.Row` | src/matrixrs/lib.rs:48-51 | succeeds iff r < m, and then gives a 1-by-n matrix whose cells are those of row r; otherwise out of bounds |
| `Matrices.Col` | src/matrixrs/lib.rs:52-59 | fails (out of bounds) iff m > 0 and c >= n; otherwise gives an m-by-1 matrix whose cell (i, 0) is cell (i, c) |
| `Matrices.CopyCol` | src/matrixrs/lib.rs:52-59 | the push loop that reads each cell through `At` returns exactly `Col`, including its failure |
| `Matrices.Augment` | src/matrixrs/lib.rs:60-65 | fails iff the right operand has columns and fewer rows than the left; otherwise gives m by (n + b.n), with cell (i, j) from the left for j < n and from cell (i, j - n) of the right otherwise |
| `Matrices.BitOr` | src/matrixrs/lib.rs:165-169 | the bitwise-or operator has the same failure condition, the same error, the same shape and the same cells as `Augment` |
| `Matrices.Transpose` | src/matrixrs/lib.rs:66-69 | an n-by-m matrix whose cell (i, j) is source cell (j, i) |
| `Matrices.Not` | src/matrixrs/lib.rs:158-161 | the `!` operator gives the same n-by-m matrix with cell (i, j) equal to source cell (j, i) |
| `Matrices.Map` | src/matrixrs/lib.rs:77-79 | the shape is preserved and each cell is f applied to the source cell |
| `Matrices.Equals` | src/matrixrs/lib.rs:99-112 | the flag loop answers false on unequal sizes, and otherwise true iff every pair of corresponding cells is equal |
| `Matrices.SameCellsIsEquality` | src/matrixrs/lib.rs:99-112 | for matrices keeping the shape invariant, `==` holds iff the two matrices are the same value (both directions) |
| `Matrices.TransposeInvolution` | src/matrixrs/lib.rs:66-69 | transposing twice gives back the original matrix, shape included |
| `Matrices.ColIsTransposedRow` | src/matrixrs/lib.rs:48-69 | for c < n, column c equals the transpose of row c of the transpose |
| `Matrices.AugmentCol` | src/matrixrs/lib.rs:60-65 | with equal row counts, for every j, column j of the augmented matrix is column j of the left operand for j < n, and otherwise column j - n of the right operand, including the out-of-bounds failure past the last column |
| `Matrices.AugmentIgnoresExtraRows` | src/matrixrs/lib.rs:60-65 | rows of the right operand from row m on do not affect the result or the failure of `Augment` |
| `Matrices.MapCompose` | src/matrixrs/lib.rs:77-79 | mapping f and then g equals mapping their composition |
| `IntMatrices.Sum` | src/matrixrs/lib.rs:84-88 | the accumulator starts at zero and visits the cells row by row, as `apply` does; it returns the sum of all m * n cells (`Total`) |
| `IntMatrices.Dot` | src/matrixrs/lib.rs:89-96 | starting from zero, it returns the sum over k < u.n of u(0, k) * v(k, 0), given that those cells exist |
| `IntMatrices.Add` | src/matrixrs/lib.rs:115-122 | a shape mismatch iff the sizes differ; otherwise a same-shape matrix with cell a(i, j) + b(i, j) |
| `IntMatrices.Neg` | src/matrixrs/lib.rs:124-129 | the shape is preserved and each cell is negated |
| `IntMatrices.Sub` | src/matrixrs/lib.rs:131-136 | the same size condition as `+`; otherwise cell a(i, j) - b(i, j) |
| `IntMatrices.DotOfRowCol` | src/matrixrs/lib.rs:139-146 | within `*`, row i and column j always exist, and their dot product is the sum over k of a(i, k) * b(k, j) |
| `IntMatrices.Mul` | src/matrixrs/lib.rs:139-146 | a shape mismatch iff a.n != b.m; otherwise an a.m-by-b.n matrix whose cell (i, j) is the sum over k of a(i, k) * b(k, j) |
| `IntMatrices.Zeros` | src/matrixrs/lib.rs:172-175 | an m-by-n matrix of zeros |
| `IntMatrices.Ones` | src/matrixrs/lib.rs:177-180 | an m-by-n matrix of ones |
| `IntMatrices.Identity` | src/matrixrs/lib.rs:182-185 | a dim-by-dim matrix with 1 where i == j and 0 elsewhere |
| `IntMatrixLaws.AddCommutes` | src/matrixrs/lib.rs:115-122 | a + b == b + a, the shape-mismatch failure included |
| `IntMatrixLaws.AddNegCancels` | src/matrixrs/lib.rs:115-129 | (a + b) + (-b) == a for operands of equal size |
| `IntMatrixLaws.SubUndoesAdd` | src/matrixrs/lib.rs:131-136 | (a + b) - b == a for operands of equal size |
| `IntMatrixLaws.SubSelfIsZeros` | src/matrixrs/lib.rs:131-136 | a - a is the zero matrix of a's shape |
| `IntMatrixLaws.NegInvolution` | src/matrixrs/lib.rs:124-129 | -(-a) == a |
| `IntMatrixLaws.TotalOfFromValue` | src/matrixrs/lib.rs:84-88 | the sum of an m-by-n matrix filled with v is m * n * v |
| `IntMatrixLaws.ZerosAndOnesTotals` | src/matrixrs/lib.rs:172-180 | zeros(m, n) sums to 0, and ones(m, n) sums to m * n |
| `IntMatrixLaws.TotalOfAdd` | src/matrixrs/lib.rs:115-122 | the sum of a + b is sum(a) + sum(b) |
| `IntMatrixLaws.TotalOfTranspose` | src/matrixrs/lib.rs:66-88 | transposing leaves the sum of the cells unchanged (row-major order versus column-major order) |
| `IntMatrixLaws.MulAssociative` | src/matrixrs/lib.rs:139-146 | (a * b) * c == a * (b * c) whenever a.n == b.m and b.n == c.m |
| `IntMatrixLaws.IdentityMulLeft` | src/matrixrs/lib.rs:182-185 | identity(m) * a == a for every a with m rows |
| `IntMatrixLaws.IdentityMulRight` | src/matrixrs/lib.rs:182-185 | a * identity(n) == a for every a with n columns |
| `IntMatrixLaws.FilledProduct` | src/matrixrs/lib.rs:139-146 | an m-by-k fill of x times a k-by-n fill of y is the m-by-n fill of k * x * y |
| `IntMatrixLaws.MulDistributesOverAdd` | src/matrixrs/lib.rs:115-146 | a * (b + c) == a * b + a * c |
| `IntMatrixLaws.MulTranspose` | src/matrixrs/lib.rs:139-146 | the transpose of a * b is the product of the transposes in the opposite order |
| `MatrixScenarios.OnesTimesOnes` | src/matrixrs/lib.rs:139-146 | ones(2, 3) * ones(3, 2) is the 2-by-2 matrix of threes |
| `MatrixScenarios.ZerosAugmentedByOnes` | src/matrixrs/lib.rs:60-65 | zeros(2, 2) augmented by ones(2, 1) is 2-by-3, and its last column is all ones |

## Left out

- `apply` as a general visitor is not a member of the model. Its closure
  changes captured state, which a Dafny function cannot do. Its two uses,
  `sum` and `==`, are written out as the nested row-major loops of `Sum`
  and `Equals`.
- The generality of the element type is left out. The structural
  operations are generic. The arithmetic operations are for `int` only, so
  the model has no fixed-width overflow and no floating-point rounding.
- `zeros`, `ones` and `identity` return `Matrix<f64>` in the library. Here
  they are integer matrices of 0, 1 and the 0/1 diagonal.
- The dimensions are unbounded naturals. The model ignores the `uint`
  overflow of `self.n + mat.n` in `augment`.
- The failures are values. The model does not capture that the library
  aborts the whole computation: a panic in Rust is an `Err` result here.
- `from_fn` calls the generator once per cell in row-major order. The
  generator is a pure function in the model, so the number and order of
  calls are not observable. `map` likewise takes a pure function.
- `Dot` requires the cells it reads to exist. The library's private `dot`
  panics otherwise, and its one caller, `*`, only passes a row and a column
  of matching length.
- `Mul` is a function, so it forms each cell from the functions `Row`,
  `Col` and `DotOf`, not from the loop methods `CopyCol` and `Dot`. Those
  methods are proved to compute the same values.
- Copies through `Clone`, ownership of `~[]` vectors, `with_capacity` and
  the crate attributes (src/matrixrs/lib.rs:1-5) have no behavioural
  content for immutable values. They are not modelled.
