/** Small concrete matrices and what the operations give on them. */
module MatrixScenarios {
  import opened Matrices
  import opened IntMatrices
  import opened IntMatrixLaws

  /** A 2-by-3 matrix of ones times a 3-by-2 matrix of ones is the 2-by-2
      matrix of threes. */
  lemma OnesTimesOnes()
    ensures Mul(Ones(2, 3), Ones(3, 2)) == Ok(FromValue(2, 2, 3))
  {
    FilledProduct(2, 3, 2, 1, 1);
  }

  /** Appending a 2-by-1 column of ones to the 2-by-2 zero matrix gives a
      2-by-3 matrix whose last column is that column of ones. */
  lemma ZerosAugmentedByOnes()
    ensures Augment(Zeros(2, 2), Ones(2, 1)).Ok?
    ensures Size(Augment(Zeros(2, 2), Ones(2, 1)).value) == (2, 3)
    ensures Col(Augment(Zeros(2, 2), Ones(2, 1)).value, 2) == Ok(Ones(2, 1))
  {
    AugmentCol(Zeros(2, 2), Ones(2, 1), 2);
    SameCellsIsEquality(Col(Ones(2, 1), 0).value, Ones(2, 1));
  }
}
