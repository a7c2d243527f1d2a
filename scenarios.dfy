/** The engine's unit-test cases as facts about the model: each tree's value,
    and through Run's contract, what the engine hands back for it. */
module Scenarios {
  import opened Outcomes
  import opened LinearAlgebra
  import opened Memory
  import opened Computation
  import opened Engine

  const M1: Mat := [[1.0, 2.0], [3.0, 4.0]]
  const M2: Mat := [[5.0, 6.0], [7.0, 8.0]]
  const Wide: Mat := [[1.0, 2.0, 3.0], [4.0, 5.0, 6.0]]

  /** Loading a matrix row-major and reading it back: a rectangular matrix
      comes back unchanged, a ragged one as readRowMajor pads or rejects it. */
  method ReadBackAfterLoad(data: Mat) returns (r: Result<Mat>)
    ensures r == Snapshot(data)
    ensures Rectangular(data) ==> r == Success(data)
  {
    var matrix := new SharedMatrix();
    matrix.LoadRowMajor(data);
    r := matrix.ReadRowMajor();
    if Rectangular(data) {
      SnapshotOfRectangular(data);
    }
  }

  /** Loading a matrix column-major and reading it back row-major gives its
      transpose. The load of an empty matrix fails with an index error and
      leaves the fresh matrix empty, so the read gives the empty matrix. */
  method ReadBackAfterColumnLoad(data: Mat) returns (loaded: Outcome, r: Result<Mat>)
    requires NoShortRows(data)
    ensures data == [] ==> loaded == Fail(IndexOutOfBounds) && r == Success([])
    ensures data != [] ==> loaded == Pass && r == Success(Transposed(data))
  {
    var matrix := new SharedMatrix();
    loaded := matrix.LoadColumnMajor(data);
    r := matrix.ReadRowMajor();
    if data != [] {
      SnapshotOfRectangular(Transposed(data));
    }
  }

  /** ADD of two 2x2 literals adds them element by element. */
  lemma AdditionOfTwoByTwo()
    ensures Evaluate(Op(Add, [Matrix(M1), Matrix(M2)])) == Some([[6.0, 8.0], [10.0, 12.0]])
  {
    assert MatAdd(M1, M2) == [[6.0, 8.0], [10.0, 12.0]] by {
      assert VecAdd(M1[0], M2[0]) == [6.0, 8.0];
      assert VecAdd(M1[1], M2[1]) == [10.0, 12.0];
    }
  }

  /** MULTIPLY of two 2x2 literals is their matrix product. */
  lemma MultiplicationOfTwoByTwo()
    ensures Evaluate(Op(Multiply, [Matrix(M1), Matrix(M2)])) == Some([[19.0, 22.0], [43.0, 50.0]])
  {
    RectangularHasNoShortRows(M2);
    var c0 := Column(M2, 0);
    var c1 := Column(M2, 1);
    assert c0 == [5.0, 7.0] && c1 == [6.0, 8.0];
    assert InnerProduct(M1[0], c0) == 19.0 by { assert M1[0][..1] == [1.0] && c0[..1] == [5.0]; }
    assert InnerProduct(M1[0], c1) == 22.0 by { assert M1[0][..1] == [1.0] && c1[..1] == [6.0]; }
    assert InnerProduct(M1[1], c0) == 43.0 by { assert M1[1][..1] == [3.0] && c0[..1] == [5.0]; }
    assert InnerProduct(M1[1], c1) == 50.0 by { assert M1[1][..1] == [3.0] && c1[..1] == [6.0]; }
    assert VecMat(M1[0], M2) == [19.0, 22.0];
    assert VecMat(M1[1], M2) == [43.0, 50.0];
    assert MatMul(M1, M2) == [[19.0, 22.0], [43.0, 50.0]];
    assert Evaluate(Matrix(M1)) == Some(M1) && Evaluate(Matrix(M2)) == Some(M2);
  }

  /** MULTIPLY by the identity gives the left operand back. */
  lemma MultiplicationByIdentity()
    ensures Evaluate(Op(Multiply, [Matrix(Wide), Matrix(Identity(3))])) == Some(Wide)
  {
    MatMulIdentity(Wide);
  }

  /** TRANSPOSE turns the 2x3 literal into its 3x2 transpose. */
  lemma TransposeOfTwoByThree()
    ensures Evaluate(Op(Transpose, [Matrix(Wide)])) == Some([[1.0, 4.0], [2.0, 5.0], [3.0, 6.0]])
  {
    RectangularHasNoShortRows(Wide);
    assert Column(Wide, 0) == [1.0, 4.0];
    assert Column(Wide, 1) == [2.0, 5.0];
    assert Column(Wide, 2) == [3.0, 6.0];
    assert Transposed(Wide) == [[1.0, 4.0], [2.0, 5.0], [3.0, 6.0]];
    assert Evaluate(Matrix(Wide)) == Some(Wide);
  }

  /** NEGATE(ADD(M1, M2)): the inner addition is the first node resolved, and
      the whole tree evaluates to the negated sum. */
  lemma AddThenNegate()
    ensures FindResolvable(Op(Negate, [Op(Add, [Matrix(M1), Matrix(M2)])])) == Some([0])
    ensures Evaluate(Op(Negate, [Op(Add, [Matrix(M1), Matrix(M2)])])) ==
              Some([[-6.0, -8.0], [-10.0, -12.0]])
  {
    var inner := Op(Add, [Matrix(M1), Matrix(M2)]);
    assert FirstOperation(inner.children) == 2;
    assert FirstOperation([inner]) == 0;
    assert FindResolvable(inner) == Some([]);
    assert [0] + [] == [0];
    AdditionOfTwoByTwo();
    assert MatNeg([[6.0, 8.0], [10.0, 12.0]]) == [[-6.0, -8.0], [-10.0, -12.0]] by {
      assert VecNeg([6.0, 8.0]) == [-6.0, -8.0];
      assert VecNeg([10.0, 12.0]) == [-10.0, -12.0];
    }
  }

  /** A fresh engine reduces NEGATE(ADD(M1, M2)) to the literal holding the
      negated sum. */
  method RunAddThenNegate() returns (result: Node)
    ensures result == Matrix([[-6.0, -8.0], [-10.0, -12.0]])
  {
    var engine := new LinearAlgebraEngine();
    AddThenNegate();
    result := engine.Run(Op(Negate, [Op(Add, [Matrix(M1), Matrix(M2)])]));
  }
}
