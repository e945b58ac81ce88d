/** A generic, row-major, dense two-dimensional matrix: its constructors, its
    accessors and the structural operations that need nothing of the element
    type but that it can be copied (and, for equality, compared).

    Every operation returns a fresh matrix value; no matrix is changed in
    place. The two ways the library fails -- an index outside the shape and
    an `assert!` on the operands' shapes -- are returned as `Err` values. */
module Matrices {

  /** Why an operation fails: a coordinate outside the shape, or operand
      shapes that do not fit together. */
  datatype MatrixError = OutOfBounds | ShapeMismatch

  datatype Result<+R> = Ok(value: R) | Err(error: MatrixError)

  /** An m-by-n table stored as a sequence of m rows of n entries each. */
  datatype Matrix<T> = Matrix(m: nat, n: nat, data: seq<seq<T>>) {

    /** The shape invariant: `data` has m rows and every row has n entries. */
    predicate Valid() {
      |data| == m && forall i :: 0 <= i < |data| ==> |data[i]| == n
    }
  }

  // ---------------------------------------------------------------------
  // Construction
  // ---------------------------------------------------------------------

  /** The m-by-n matrix whose cell (i, j) is f(i, j). */
  function FromFn<T>(m: nat, n: nat, f: (nat, nat) --> T): (r: Matrix<T>)
    requires forall i: nat, j: nat :: i < m && j < n ==> f.requires(i, j)
    ensures r.Valid() && r.m == m && r.n == n
    ensures forall i: nat, j: nat :: i < m && j < n ==> r.data[i][j] == f(i, j)
  {
    Matrix(m, n, seq(m, i requires 0 <= i < m => seq(n, j requires 0 <= j < n => f(i, j))))
  }

  /** `from_fn` as the library runs it: one row per step, pushed onto the
      rows built so far. */
  method BuildFromFn<T>(m: nat, n: nat, f: (nat, nat) --> T) returns (r: Matrix<T>)
    requires forall i: nat, j: nat :: i < m && j < n ==> f.requires(i, j)
    ensures r == FromFn(m, n, f)
  {
    var data: seq<seq<T>> := [];
    for i := 0 to m
      invariant |data| == i
      invariant forall k :: 0 <= k < i ==> |data[k]| == n
      invariant forall k, j :: 0 <= k < i && 0 <= j < n ==> data[k][j] == f(k, j)
    {
      data := data + [seq(n, j requires 0 <= j < n => f(i, j))];
    }
    r := Matrix(m, n, data);
    SameCellsIsEquality(r, FromFn(m, n, f));
  }

  /** The m-by-n matrix with every cell equal to v (`from_T`). */
  function FromValue<T>(m: nat, n: nat, v: T): (r: Matrix<T>)
    ensures r.Valid() && r.m == m && r.n == n
    ensures forall i, j :: 0 <= i < m && 0 <= j < n ==> r.data[i][j] == v
  {
    Matrix(m, n, seq(m, _ => seq(n, _ => v)))
  }

  /** `from_T` as the library runs it: m copies of a row of n values. */
  method BuildFromValue<T>(m: nat, n: nat, v: T) returns (r: Matrix<T>)
    ensures r == FromValue(m, n, v)
  {
    var data: seq<seq<T>> := [];
    for i := 0 to m
      invariant |data| == i
      invariant forall k :: 0 <= k < i ==> data[k] == seq(n, _ => v)
    {
      data := data + [seq(n, _ => v)];
    }
    r := Matrix(m, n, data);
    SameCellsIsEquality(r, FromValue(m, n, v));
  }

  /** A fill-value matrix is the generated matrix of the constant generator. */
  lemma FromValueIsConstantFromFn<T>(m: nat, n: nat, v: T)
    ensures FromValue(m, n, v) == FromFn(m, n, (i: nat, j: nat) => v)
  {
    SameCellsIsEquality(FromValue(m, n, v), FromFn(m, n, (i: nat, j: nat) => v));
  }

  /** Reading a generated matrix gives the generator's value inside the
      shape and an out-of-bounds error outside it. */
  lemma AtFromFn<T>(m: nat, n: nat, f: (nat, nat) --> T, i: nat, j: nat)
    requires forall i: nat, j: nat :: i < m && j < n ==> f.requires(i, j)
    ensures i < m && j < n ==> At(FromFn(m, n, f), i, j) == Ok(f(i, j))
    ensures !(i < m && j < n) ==> At(FromFn(m, n, f), i, j) == Err(OutOfBounds)
  {
  }

  /** (rows, columns), which is also the shape of the stored table. */
  function Size<T>(a: Matrix<T>): (r: (nat, nat))
    requires a.Valid()
    ensures r.0 == |a.data| && r.1 == a.n
    ensures forall row :: row in a.data ==> |row| == r.1
  {
    (a.m, a.n)
  }

  // ---------------------------------------------------------------------
  // Element access
  // ---------------------------------------------------------------------

  /** The cell at (row, col); a coordinate outside the shape is an error. */
  function At<T>(a: Matrix<T>, row: nat, col: nat): (r: Result<T>)
    requires a.Valid()
    ensures r.Ok? <==> row < a.m && col < a.n
    ensures r.Ok? ==> r.value == a.data[row][col]
    ensures r.Err? ==> r.error == OutOfBounds
  {
    if row < a.m && col < a.n then Ok(a.data[row][col]) else Err(OutOfBounds)
  }

  /** The `[(r, c)]` operator: the same bounds and the same cell as `At`. */
  function Index<T>(a: Matrix<T>, rc: (nat, nat)): (r: Result<T>)
    requires a.Valid()
    ensures r.Ok? <==> rc.0 < a.m && rc.1 < a.n
    ensures r.Ok? ==> r.value == a.data[rc.0][rc.1]
    ensures r.Err? ==> r.error == OutOfBounds
  {
    match rc
    case (x, y) => At(a, x, y)
  }

  // ---------------------------------------------------------------------
  // Structural operations
  // ---------------------------------------------------------------------

  /** Row `row` as a 1-by-n matrix. */
  function Row<T>(a: Matrix<T>, row: nat): (r: Result<Matrix<T>>)
    requires a.Valid()
    ensures r.Ok? <==> row < a.m
    ensures r.Err? ==> r.error == OutOfBounds
    ensures r.Ok? ==> r.value.Valid() && r.value.m == 1 && r.value.n == a.n
    ensures r.Ok? ==> forall j :: 0 <= j < a.n ==> r.value.data[0][j] == a.data[row][j]
  {
    if row < a.m then Ok(Matrix(1, a.n, [a.data[row]])) else Err(OutOfBounds)
  }

  /** Column `col` as an m-by-1 matrix. Each of the m rows reads cell
      (i, col), so the column fails exactly when there is a row to read
      and `col` is outside it; a matrix with no rows yields an empty
      column for any `col`. */
  function Col<T>(a: Matrix<T>, col: nat): (r: Result<Matrix<T>>)
    requires a.Valid()
    ensures r.Err? <==> a.m > 0 && col >= a.n
    ensures r.Err? ==> r.error == OutOfBounds
    ensures r.Ok? ==> r.value.Valid() && r.value.m == a.m && r.value.n == 1
    ensures r.Ok? ==> forall i :: 0 <= i < a.m ==> r.value.data[i][0] == a.data[i][col]
  {
    if a.m > 0 && col >= a.n then Err(OutOfBounds)
    else Ok(Matrix(a.m, 1, seq(a.m, i requires 0 <= i < a.m => [a.data[i][col]])))
  }

  /** `col` as the library runs it: one single-cell row pushed per row of
      `a`, each read through `At`. */
  method CopyCol<T>(a: Matrix<T>, col: nat) returns (r: Result<Matrix<T>>)
    requires a.Valid()
    ensures r == Col(a, col)
  {
    var c: seq<seq<T>> := [];
    for i := 0 to a.m
      invariant |c| == i
      invariant i > 0 ==> col < a.n
      invariant forall k :: 0 <= k < i ==> c[k] == [a.data[k][col]]
    {
      var x := At(a, i, col);
      if x.Err? {
        return Err(x.error);
      }
      c := c + [[x.value]];
    }
    r := Ok(Matrix(a.m, 1, c));
    assert c == Col(a, col).value.data;
  }

  /** `a` with the columns of `b` appended on the right. The library does
      not compare row counts: it reads `b` only in rows 0 to a.m - 1, so it
      fails exactly when `b` has columns to read and fewer rows than `a`,
      and any rows of `b` from a.m on are ignored. */
  function Augment<T>(a: Matrix<T>, b: Matrix<T>): (r: Result<Matrix<T>>)
    requires a.Valid() && b.Valid()
    ensures r.Err? <==> b.n > 0 && b.m < a.m
    ensures r.Err? ==> r.error == OutOfBounds
    ensures r.Ok? ==> r.value.Valid() && r.value.m == a.m && r.value.n == a.n + b.n
    ensures r.Ok? ==> forall i, j :: 0 <= i < a.m && 0 <= j < a.n ==> r.value.data[i][j] == a.data[i][j]
    ensures r.Ok? ==> forall i, j :: 0 <= i < a.m && a.n <= j < a.n + b.n ==> r.value.data[i][j] == b.data[i][j - a.n]
  {
    if b.n > 0 && b.m < a.m then Err(OutOfBounds)
    else Ok(FromFn(a.m, a.n + b.n,
                   (i: nat, j: nat) requires i < a.m && j < a.n + b.n =>
                     if j < a.n then a.data[i][j] else b.data[i][j - a.n]))
  }

  /** The `|` operator: the same result and the same failure as `Augment`. */
  function BitOr<T>(a: Matrix<T>, b: Matrix<T>): (r: Result<Matrix<T>>)
    requires a.Valid() && b.Valid()
    ensures r.Err? <==> b.n > 0 && b.m < a.m
    ensures r.Err? ==> r.error == OutOfBounds
    ensures r.Ok? ==> r.value.Valid() && r.value.m == a.m && r.value.n == a.n + b.n
    ensures r.Ok? ==> forall i, j :: 0 <= i < a.m && 0 <= j < a.n + b.n ==>
                        r.value.data[i][j] == if j < a.n then a.data[i][j] else b.data[i][j - a.n]
  {
    Augment(a, b)
  }

  /** The n-by-m matrix whose cell (i, j) is cell (j, i) of `a`. */
  function Transpose<T>(a: Matrix<T>): (r: Matrix<T>)
    requires a.Valid()
    ensures r.Valid() && r.m == a.n && r.n == a.m
    ensures forall i, j :: 0 <= i < a.n && 0 <= j < a.m ==> r.data[i][j] == a.data[j][i]
  {
    FromFn(a.n, a.m, (i: nat, j: nat) requires i < a.n && j < a.m => a.data[j][i])
  }

  /** The `!` operator: the same matrix as `Transpose`. */
  function Not<T>(a: Matrix<T>): (r: Matrix<T>)
    requires a.Valid()
    ensures r.Valid() && r.m == a.n && r.n == a.m
    ensures forall i, j :: 0 <= i < a.n && 0 <= j < a.m ==> r.data[i][j] == a.data[j][i]
  {
    Transpose(a)
  }

  /** The same-shape matrix whose cells are f of the cells of `a`. */
  function Map<T>(a: Matrix<T>, f: T -> T): (r: Matrix<T>)
    requires a.Valid()
    ensures r.Valid() && r.m == a.m && r.n == a.n
    ensures forall i, j :: 0 <= i < a.m && 0 <= j < a.n ==> r.data[i][j] == f(a.data[i][j])
  {
    FromFn(a.m, a.n, (i: nat, j: nat) requires i < a.m && j < a.n => f(a.data[i][j]))
  }

  // ---------------------------------------------------------------------
  // Equality
  // ---------------------------------------------------------------------

  /** What `==` decides: equal sizes and equal corresponding cells. */
  predicate SameCells<T(==)>(a: Matrix<T>, b: Matrix<T>)
    requires a.Valid() && b.Valid()
  {
    Size(a) == Size(b) &&
    forall i, j :: 0 <= i < a.m && 0 <= j < a.n ==> a.data[i][j] == b.data[i][j]
  }

  /** `==` as the library runs it: unequal sizes answer false at once;
      otherwise a flag starts true and every mismatching cell, visited in
      row-major order, clears it for good. */
  method Equals<T(==)>(a: Matrix<T>, b: Matrix<T>) returns (equal: bool)
    requires a.Valid() && b.Valid()
    ensures equal == SameCells(a, b)
  {
    if Size(a) != Size(b) {
      return false;
    }
    equal := true;
    for i := 0 to a.m
      invariant equal <==> forall k, l :: 0 <= k < i && 0 <= l < a.n ==> a.data[k][l] == b.data[k][l]
    {
      for j := 0 to a.n
        invariant equal <==> (forall k, l :: 0 <= k < i && 0 <= l < a.n ==> a.data[k][l] == b.data[k][l])
                             && (forall l :: 0 <= l < j ==> a.data[i][l] == b.data[i][l])
      {
        equal := if At(a, i, j) == At(b, i, j) then equal else false;
      }
    }
  }

  /** For matrices that keep the shape invariant, `==` is exactly equality
      of the values: same cells means same matrix, and conversely. */
  lemma SameCellsIsEquality<T>(a: Matrix<T>, b: Matrix<T>)
    requires a.Valid() && b.Valid()
    ensures SameCells(a, b) <==> a == b
  {
    if SameCells(a, b) {
      forall i | 0 <= i < a.m
        ensures a.data[i] == b.data[i]
      {
        assert |a.data[i]| == |b.data[i]|;
        assert forall j :: 0 <= j < a.n ==> a.data[i][j] == b.data[i][j];
      }
      assert a.data == b.data;
    }
  }

  // ---------------------------------------------------------------------
  // Properties of the structural operations
  // ---------------------------------------------------------------------

  /** Transposing twice gives back the original matrix, shape included. */
  lemma TransposeInvolution<T>(a: Matrix<T>)
    requires a.Valid()
    ensures Transpose(Transpose(a)) == a
  {
    SameCellsIsEquality(Transpose(Transpose(a)), a);
  }

  /** A column of `a` is the transposed row of the transpose of `a`. */
  lemma ColIsTransposedRow<T>(a: Matrix<T>, c: nat)
    requires a.Valid() && c < a.n
    ensures Row(Transpose(a), c).Ok?
    ensures Col(a, c) == Ok(Transpose(Row(Transpose(a), c).value))
  {
    SameCellsIsEquality(Col(a, c).value, Transpose(Row(Transpose(a), c).value));
  }

  /** The columns of an augmented matrix are those of its two parts, the
      columns of `a` first; a column past both parts fails on both sides. */
  lemma AugmentCol<T>(a: Matrix<T>, b: Matrix<T>, j: nat)
    requires a.Valid() && b.Valid() && a.m == b.m
    ensures Augment(a, b).Ok?
    ensures Col(Augment(a, b).value, j) == if j < a.n then Col(a, j) else Col(b, j - a.n)
  {
    var ab := Augment(a, b).value;
    if j < a.n {
      SameCellsIsEquality(Col(ab, j).value, Col(a, j).value);
    } else if j < a.n + b.n || a.m == 0 {
      SameCellsIsEquality(Col(ab, j).value, Col(b, j - a.n).value);
    }
  }

  /** Rows of `b` below the rows of `a` play no part in `Augment`. */
  lemma AugmentIgnoresExtraRows<T>(a: Matrix<T>, b: Matrix<T>)
    requires a.Valid() && b.Valid() && a.m <= b.m
    ensures Matrix(a.m, b.n, b.data[..a.m]).Valid()
    ensures Augment(a, b) == Augment(a, Matrix(a.m, b.n, b.data[..a.m]))
  {
    var top := Matrix(a.m, b.n, b.data[..a.m]);
    SameCellsIsEquality(Augment(a, b).value, Augment(a, top).value);
  }

  /** Mapping f and then g is mapping their composition. */
  lemma MapCompose<T>(a: Matrix<T>, f: T -> T, g: T -> T)
    requires a.Valid()
    ensures Map(Map(a, f), g) == Map(a, x => g(f(x)))
  {
    SameCellsIsEquality(Map(Map(a, f), g), Map(a, x => g(f(x))));
  }
}
