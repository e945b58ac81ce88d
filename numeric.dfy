/** The arithmetic part of the matrix library, with the element type
    instantiated to mathematical integers: the sum of all cells, the dot
    product behind multiplication, the element-wise operators `+`, unary and
    binary `-`, the product `*`, and the `zeros`, `ones` and `identity`
    constructors. */
module IntMatrices {
  import opened Matrices
  import opened Sums

  // ---------------------------------------------------------------------
  // Reference sums
  // ---------------------------------------------------------------------

  /** Cell (i, j) of `a` for use inside the sums below, which only ever ask
      for cells inside the shape; outside the stored table it reads 0. */
  function Cell(a: Matrix<int>, i: nat, j: nat): int
  {
    if i < |a.data| && j < |a.data[i]| then a.data[i][j] else 0
  }

  /** `a` as a function of (row, column). */
  function Cells(a: Matrix<int>): (nat, nat) -> int
  {
    (i: nat, j: nat) => Cell(a, i, j)
  }

  /** The sum of all m * n cells, row after row. */
  function Total(a: Matrix<int>): int
  {
    Sigma(a.m, RowSums(Cells(a), a.n))
  }

  /** k |-> a(i, k) * b(k, j): the products that make up cell (i, j) of a * b. */
  function Products(a: Matrix<int>, b: Matrix<int>, i: nat, j: nat): nat -> int
  {
    (k: nat) => Cell(a, i, k) * Cell(b, k, j)
  }

  /** The textbook product cell: the sum over k < a.n of a(i, k) * b(k, j). */
  function Inner(a: Matrix<int>, b: Matrix<int>, i: nat, j: nat): int
  {
    Sigma(a.n, Products(a, b, i, j))
  }

  /** The dot product of the first row of u with the first column of v,
      taken over the n columns of u. */
  function DotOf(u: Matrix<int>, v: Matrix<int>): int
  {
    Inner(u, v, 0, 0)
  }

  // ---------------------------------------------------------------------
  // The accumulating loops
  // ---------------------------------------------------------------------

  /** `sum`: an accumulator starting at zero adds every cell, visiting the
      cells row by row as `apply` does. */
  method Sum(a: Matrix<int>) returns (acc: int)
    requires a.Valid()
    ensures acc == Total(a)
  {
    acc := 0;
    for i := 0 to a.m
      invariant acc == Sigma(i, RowSums(Cells(a), a.n))
    {
      for j := 0 to a.n
        invariant acc == Sigma(i, RowSums(Cells(a), a.n)) + Sigma(j, RowOf(Cells(a), i))
      {
        acc := acc + At(a, i, j).value;
      }
    }
  }

  /** `dot`: an accumulator starting at zero adds u(0, k) * v(k, 0) for every
      column k of u. The library never checks the operands; it reads only
      the cells named here, so they are required to exist. */
  method Dot(u: Matrix<int>, v: Matrix<int>) returns (sum: int)
    requires u.Valid() && v.Valid()
    requires u.n > 0 ==> u.m > 0 && v.m >= u.n && v.n > 0
    ensures sum == DotOf(u, v)
  {
    sum := 0;
    for k := 0 to u.n
      invariant sum == Sigma(k, Products(u, v, 0, 0))
    {
      sum := sum + At(u, 0, k).value * At(v, k, 0).value;
    }
  }

  // ---------------------------------------------------------------------
  // Element-wise operators
  // ---------------------------------------------------------------------

  /** `+`: defined only for operands of the same size, cell by cell. */
  function Add(a: Matrix<int>, b: Matrix<int>): (r: Result<Matrix<int>>)
    requires a.Valid() && b.Valid()
    ensures r.Ok? <==> Size(a) == Size(b)
    ensures r.Err? ==> r.error == ShapeMismatch
    ensures r.Ok? ==> r.value.Valid() && r.value.m == a.m && r.value.n == a.n
    ensures r.Ok? ==> forall i, j :: 0 <= i < a.m && 0 <= j < a.n ==>
                        r.value.data[i][j] == a.data[i][j] + b.data[i][j]
  {
    if Size(a) != Size(b) then Err(ShapeMismatch)
    else Ok(FromFn(a.m, a.n, (i: nat, j: nat) requires i < a.m && j < a.n =>
                               At(a, i, j).value + At(b, i, j).value))
  }

  /** Unary `-`: the map of negation over every cell. */
  function Neg(a: Matrix<int>): (r: Matrix<int>)
    requires a.Valid()
    ensures r.Valid() && r.m == a.m && r.n == a.n
    ensures forall i, j :: 0 <= i < a.m && 0 <= j < a.n ==> r.data[i][j] == -a.data[i][j]
  {
    Map(a, x => -x)
  }

  /** Binary `-`: a + (-b), so with the size condition of `+`. */
  function Sub(a: Matrix<int>, b: Matrix<int>): (r: Result<Matrix<int>>)
    requires a.Valid() && b.Valid()
    ensures r.Ok? <==> Size(a) == Size(b)
    ensures r.Err? ==> r.error == ShapeMismatch
    ensures r.Ok? ==> r.value.Valid() && r.value.m == a.m && r.value.n == a.n
    ensures r.Ok? ==> forall i, j :: 0 <= i < a.m && 0 <= j < a.n ==>
                        r.value.data[i][j] == a.data[i][j] - b.data[i][j]
  {
    Add(a, Neg(b))
  }

  // ---------------------------------------------------------------------
  // Matrix product
  // ---------------------------------------------------------------------

  /** The dot product of row i of `a` and column j of `b`, as `*` forms it,
      is the textbook product cell. */
  lemma DotOfRowCol(a: Matrix<int>, b: Matrix<int>, i: nat, j: nat)
    requires a.Valid() && b.Valid() && a.n == b.m && i < a.m && j < b.n
    ensures Row(a, i).Ok? && Col(b, j).Ok?
    ensures DotOf(Row(a, i).value, Col(b, j).value) == Inner(a, b, i, j)
  {
    var u, v := Row(a, i).value, Col(b, j).value;
    forall k | 0 <= k < a.n
      ensures Products(u, v, 0, 0)(k) == Products(a, b, i, j)(k)
    {
      assert Cell(u, 0, k) == Cell(a, i, k);
      assert Cell(v, k, 0) == Cell(b, k, j);
    }
    SigmaExt(a.n, Products(u, v, 0, 0), Products(a, b, i, j));
  }

  /** `*`: defined only when the columns of `a` match the rows of `b`; cell
      (i, j) of the a.m-by-b.n product is row i of `a` dotted with column j
      of `b`, which is the sum over k of a(i, k) * b(k, j). */
  function Mul(a: Matrix<int>, b: Matrix<int>): (r: Result<Matrix<int>>)
    requires a.Valid() && b.Valid()
    ensures r.Ok? <==> a.n == b.m
    ensures r.Err? ==> r.error == ShapeMismatch
    ensures r.Ok? ==> r.value.Valid() && r.value.m == a.m && r.value.n == b.n
    ensures r.Ok? ==> forall i, j :: 0 <= i < a.m && 0 <= j < b.n ==>
                        r.value.data[i][j] == Inner(a, b, i, j)
  {
    if a.n != b.m then Err(ShapeMismatch)
    else
      var p := FromFn(a.m, b.n, (i: nat, j: nat) requires i < a.m && j < b.n =>
                                  DotOf(Row(a, i).value, Col(b, j).value));
      assert forall i, j :: 0 <= i < a.m && 0 <= j < b.n ==> p.data[i][j] == Inner(a, b, i, j) by {
        forall i, j | 0 <= i < a.m && 0 <= j < b.n
          ensures p.data[i][j] == Inner(a, b, i, j)
        {
          DotOfRowCol(a, b, i, j);
        }
      }
      Ok(p)
  }

  // ---------------------------------------------------------------------
  // Convenience constructors (over int rather than f64)
  // ---------------------------------------------------------------------

  /** The m-by-n matrix of zeros. */
  function Zeros(m: nat, n: nat): (r: Matrix<int>)
    ensures r.Valid() && r.m == m && r.n == n
    ensures forall i, j :: 0 <= i < m && 0 <= j < n ==> r.data[i][j] == 0
  {
    FromValue(m, n, 0)
  }

  /** The m-by-n matrix of ones. */
  function Ones(m: nat, n: nat): (r: Matrix<int>)
    ensures r.Valid() && r.m == m && r.n == n
    ensures forall i, j :: 0 <= i < m && 0 <= j < n ==> r.data[i][j] == 1
  {
    FromValue(m, n, 1)
  }

  /** The dim-by-dim matrix with 1 on the diagonal and 0 elsewhere. */
  function Identity(dim: nat): (r: Matrix<int>)
    ensures r.Valid() && r.m == dim && r.n == dim
    ensures forall i, j :: 0 <= i < dim && 0 <= j < dim ==> r.data[i][j] == if i == j then 1 else 0
  {
    FromFn(dim, dim, (i: nat, j: nat) => if i == j then 1 else 0)
  }
}
