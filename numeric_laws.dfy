/** Algebraic laws of the integer matrix operators: what `+`, `-`, `*` and
    `sum` promise when used together, and the behaviour of the convenience
    constructors. */
module IntMatrixLaws {
  import opened Matrices
  import opened Sums
  import opened IntMatrices

  // ---------------------------------------------------------------------
  // Addition, negation, subtraction
  // ---------------------------------------------------------------------

  /** `+` is commutative, including its failure on unequal sizes. */
  lemma AddCommutes(a: Matrix<int>, b: Matrix<int>)
    requires a.Valid() && b.Valid()
    ensures Add(a, b) == Add(b, a)
  {
    if Size(a) == Size(b) {
      SameCellsIsEquality(Add(a, b).value, Add(b, a).value);
    }
  }

  /** (a + b) + (-b) gives back a. */
  lemma AddNegCancels(a: Matrix<int>, b: Matrix<int>)
    requires a.Valid() && b.Valid() && Size(a) == Size(b)
    ensures Add(a, b).Ok?
    ensures Add(Add(a, b).value, Neg(b)) == Ok(a)
  {
    SameCellsIsEquality(Add(Add(a, b).value, Neg(b)).value, a);
  }

  /** Subtracting what was added gives back the original. */
  lemma SubUndoesAdd(a: Matrix<int>, b: Matrix<int>)
    requires a.Valid() && b.Valid() && Size(a) == Size(b)
    ensures Add(a, b).Ok?
    ensures Sub(Add(a, b).value, b) == Ok(a)
  {
    SameCellsIsEquality(Sub(Add(a, b).value, b).value, a);
  }

  /** a - a is the zero matrix of a's shape. */
  lemma SubSelfIsZeros(a: Matrix<int>)
    requires a.Valid()
    ensures Sub(a, a) == Ok(Zeros(a.m, a.n))
  {
    SameCellsIsEquality(Sub(a, a).value, Zeros(a.m, a.n));
  }

  /** Negating twice gives back the original. */
  lemma NegInvolution(a: Matrix<int>)
    requires a.Valid()
    ensures Neg(Neg(a)) == a
  {
    SameCellsIsEquality(Neg(Neg(a)), a);
  }

  // ---------------------------------------------------------------------
  // Sum of all cells
  // ---------------------------------------------------------------------

  /** A filled m-by-n matrix sums to m * n times its value. */
  lemma {:induction false} TotalOfFromValue(m: nat, n: nat, v: int)
    ensures Total(FromValue(m, n, v)) == m * n * v
  {
    var a := FromValue(m, n, v);
    forall i | 0 <= i < m
      ensures RowSums(Cells(a), n)(i) == n * v
    {
      SigmaConst(n, v, RowOf(Cells(a), i));
    }
    SigmaConst(m, n * v, RowSums(Cells(a), n));
    assert m * (n * v) == m * n * v;
  }

  /** zeros sum to 0 and ones sum to the number of cells. */
  lemma ZerosAndOnesTotals(m: nat, n: nat)
    ensures Total(Zeros(m, n)) == 0
    ensures Total(Ones(m, n)) == m * n
  {
    TotalOfFromValue(m, n, 0);
    TotalOfFromValue(m, n, 1);
  }

  /** The sum of a + b is the sum of a plus the sum of b. */
  lemma {:induction false} TotalOfAdd(a: Matrix<int>, b: Matrix<int>)
    requires a.Valid() && b.Valid() && Size(a) == Size(b)
    ensures Add(a, b).Ok?
    ensures Total(Add(a, b).value) == Total(a) + Total(b)
  {
    var c := Add(a, b).value;
    forall i | 0 <= i < a.m
      ensures RowSums(Cells(c), a.n)(i) == RowSums(Cells(a), a.n)(i) + RowSums(Cells(b), a.n)(i)
    {
      SigmaAdd(a.n, RowOf(Cells(a), i), RowOf(Cells(b), i), RowOf(Cells(c), i));
    }
    SigmaAdd(a.m, RowSums(Cells(a), a.n), RowSums(Cells(b), a.n), RowSums(Cells(c), a.n));
  }

  /** Transposing does not change the sum of the cells. */
  lemma {:induction false} TotalOfTranspose(a: Matrix<int>)
    requires a.Valid()
    ensures Total(Transpose(a)) == Total(a)
  {
    var t := Transpose(a);
    SigmaSwap(a.m, a.n, Cells(a));
    forall j | 0 <= j < a.n
      ensures ColSums(Cells(a), a.m)(j) == RowSums(Cells(t), a.m)(j)
    {
      SigmaExt(a.m, ColOf(Cells(a), j), RowOf(Cells(t), j));
    }
    SigmaExt(a.n, ColSums(Cells(a), a.m), RowSums(Cells(t), a.m));
  }

  // ---------------------------------------------------------------------
  // Matrix product
  // ---------------------------------------------------------------------

  /** (k, l) |-> a(i, k) * b(k, l) * c(l, j): the terms of cell (i, j) of a
      triple product. */
  function Chain(a: Matrix<int>, b: Matrix<int>, c: Matrix<int>, i: nat, j: nat): (nat, nat) -> int
  {
    (k: nat, l: nat) => Cell(a, i, k) * Cell(b, k, l) * Cell(c, l, j)
  }

  /** Cell (i, j) of (a * b) * c, summed over l first and then k. */
  lemma {:induction false} LeftProductCell(a: Matrix<int>, b: Matrix<int>, c: Matrix<int>, i: nat, j: nat)
    requires a.Valid() && b.Valid() && c.Valid() && a.n == b.m && b.n == c.m
    requires i < a.m && j < c.n
    ensures Mul(a, b).Ok?
    ensures Inner(Mul(a, b).value, c, i, j) == Sigma(b.n, ColSums(Chain(a, b, c, i, j), a.n))
  {
    var ab := Mul(a, b).value;
    var t := Chain(a, b, c, i, j);
    forall l | 0 <= l < b.n
      ensures Products(ab, c, i, j)(l) == ColSums(t, a.n)(l)
    {
      var z := Cell(c, l, j);
      forall k | 0 <= k < a.n
        ensures ColOf(t, l)(k) == z * Products(a, b, i, l)(k)
      {
        assert Cell(a, i, k) * Cell(b, k, l) * z == z * (Cell(a, i, k) * Cell(b, k, l));
      }
      SigmaScale(a.n, z, Products(a, b, i, l), ColOf(t, l));
      assert Cell(ab, i, l) == Inner(a, b, i, l);
    }
    SigmaExt(b.n, Products(ab, c, i, j), ColSums(t, a.n));
  }

  /** Cell (i, j) of a * (b * c), summed over k first and then l. */
  lemma {:induction false} RightProductCell(a: Matrix<int>, b: Matrix<int>, c: Matrix<int>, i: nat, j: nat)
    requires a.Valid() && b.Valid() && c.Valid() && a.n == b.m && b.n == c.m
    requires i < a.m && j < c.n
    ensures Mul(b, c).Ok?
    ensures Inner(a, Mul(b, c).value, i, j) == Sigma(a.n, RowSums(Chain(a, b, c, i, j), b.n))
  {
    var bc := Mul(b, c).value;
    var t := Chain(a, b, c, i, j);
    forall k | 0 <= k < a.n
      ensures Products(a, bc, i, j)(k) == RowSums(t, b.n)(k)
    {
      var x := Cell(a, i, k);
      forall l | 0 <= l < b.n
        ensures RowOf(t, k)(l) == x * Products(b, c, k, j)(l)
      {
        assert x * Cell(b, k, l) * Cell(c, l, j) == x * (Cell(b, k, l) * Cell(c, l, j));
      }
      SigmaScale(b.n, x, Products(b, c, k, j), RowOf(t, k));
      assert Cell(bc, k, j) == Inner(b, c, k, j);
    }
    SigmaExt(a.n, Products(a, bc, i, j), RowSums(t, b.n));
  }

  /** `*` is associative: (a * b) * c == a * (b * c) whenever the inner
      sizes agree. */
  lemma MulAssociative(a: Matrix<int>, b: Matrix<int>, c: Matrix<int>)
    requires a.Valid() && b.Valid() && c.Valid() && a.n == b.m && b.n == c.m
    ensures Mul(a, b).Ok? && Mul(b, c).Ok?
    ensures Mul(Mul(a, b).value, c).Ok?
    ensures Mul(Mul(a, b).value, c) == Mul(a, Mul(b, c).value)
  {
    var left := Mul(Mul(a, b).value, c).value;
    var right := Mul(a, Mul(b, c).value).value;
    forall i, j | 0 <= i < a.m && 0 <= j < c.n
      ensures left.data[i][j] == right.data[i][j]
    {
      LeftProductCell(a, b, c, i, j);
      RightProductCell(a, b, c, i, j);
      SigmaSwap(a.n, b.n, Chain(a, b, c, i, j));
    }
    SameCellsIsEquality(left, right);
  }

  /** identity(m) * a == a for every a with m rows. */
  lemma IdentityMulLeft(a: Matrix<int>)
    requires a.Valid()
    ensures Mul(Identity(a.m), a) == Ok(a)
  {
    var p := Mul(Identity(a.m), a).value;
    forall i, j | 0 <= i < a.m && 0 <= j < a.n
      ensures p.data[i][j] == a.data[i][j]
    {
      SigmaUnit(a.m, i, Products(Identity(a.m), a, i, j));
    }
    SameCellsIsEquality(p, a);
  }

  /** a * identity(n) == a for every a with n columns. */
  lemma IdentityMulRight(a: Matrix<int>)
    requires a.Valid()
    ensures Mul(a, Identity(a.n)) == Ok(a)
  {
    var p := Mul(a, Identity(a.n)).value;
    forall i, j | 0 <= i < a.m && 0 <= j < a.n
      ensures p.data[i][j] == a.data[i][j]
    {
      SigmaUnit(a.n, j, Products(a, Identity(a.n), i, j));
    }
    SameCellsIsEquality(p, a);
  }

  /** The product of an m-by-k matrix filled with x and a k-by-n matrix
      filled with y is the m-by-n matrix filled with k * x * y. */
  lemma FilledProduct(m: nat, k: nat, n: nat, x: int, y: int)
    ensures Mul(FromValue(m, k, x), FromValue(k, n, y)) == Ok(FromValue(m, n, k * x * y))
  {
    var a, b := FromValue(m, k, x), FromValue(k, n, y);
    var p := Mul(a, b).value;
    forall i, j | 0 <= i < m && 0 <= j < n
      ensures p.data[i][j] == k * x * y
    {
      SigmaConst(k, x * y, Products(a, b, i, j));
      assert k * (x * y) == k * x * y;
    }
    SameCellsIsEquality(p, FromValue(m, n, k * x * y));
  }

  /** Cell (i, j) of a * (b + c) is cell (i, j) of a * b plus that of a * c. */
  lemma {:induction false} DistributedCell(a: Matrix<int>, b: Matrix<int>, c: Matrix<int>, i: nat, j: nat)
    requires a.Valid() && b.Valid() && c.Valid() && Size(b) == Size(c)
    requires i < a.m && j < b.n
    ensures Add(b, c).Ok?
    ensures Inner(a, Add(b, c).value, i, j) == Inner(a, b, i, j) + Inner(a, c, i, j)
  {
    var bc := Add(b, c).value;
    forall k | 0 <= k < a.n
      ensures Products(a, bc, i, j)(k) == Products(a, b, i, j)(k) + Products(a, c, i, j)(k)
    {
      var x, y, z := Cell(a, i, k), Cell(b, k, j), Cell(c, k, j);
      assert Cell(bc, k, j) == y + z;
      assert x * (y + z) == x * y + x * z;
    }
    SigmaAdd(a.n, Products(a, b, i, j), Products(a, c, i, j), Products(a, bc, i, j));
  }

  /** `*` distributes over `+` from the left: a * (b + c) == a * b + a * c. */
  lemma MulDistributesOverAdd(a: Matrix<int>, b: Matrix<int>, c: Matrix<int>)
    requires a.Valid() && b.Valid() && c.Valid() && a.n == b.m && Size(b) == Size(c)
    ensures Add(b, c).Ok? && Mul(a, b).Ok? && Mul(a, c).Ok?
    ensures Mul(a, Add(b, c).value) == Add(Mul(a, b).value, Mul(a, c).value)
  {
    var left := Mul(a, Add(b, c).value).value;
    var right := Add(Mul(a, b).value, Mul(a, c).value).value;
    forall i, j | 0 <= i < a.m && 0 <= j < b.n
      ensures left.data[i][j] == right.data[i][j]
    {
      DistributedCell(a, b, c, i, j);
    }
    SameCellsIsEquality(left, right);
  }

  /** The transpose of a product is the product of the transposes in the
      opposite order. */
  lemma MulTranspose(a: Matrix<int>, b: Matrix<int>)
    requires a.Valid() && b.Valid() && a.n == b.m
    ensures Mul(a, b).Ok? && Mul(Transpose(b), Transpose(a)).Ok?
    ensures Transpose(Mul(a, b).value) == Mul(Transpose(b), Transpose(a)).value
  {
    var ta, tb := Transpose(a), Transpose(b);
    var left := Transpose(Mul(a, b).value);
    var right := Mul(tb, ta).value;
    forall i, j | 0 <= i < b.n && 0 <= j < a.m
      ensures left.data[i][j] == right.data[i][j]
    {
      forall k | 0 <= k < a.n
        ensures Products(a, b, j, i)(k) == Products(tb, ta, i, j)(k)
      {
        assert Cell(tb, i, k) == Cell(b, k, i) && Cell(ta, k, j) == Cell(a, j, k);
      }
      SigmaExt(a.n, Products(a, b, j, i), Products(tb, ta, i, j));
    }
    SameCellsIsEquality(left, right);
  }
}
