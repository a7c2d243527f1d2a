/** Reference definitions of the linear algebra the engine computes, over exact
    reals, and the algebraic facts about them that the engine's results rely on. */
module LinearAlgebra {

  type Vector = seq<real>
  type Mat = seq<Vector>

  /** The number of columns of a matrix, read off its first row (0 when empty). */
  function Width(m: Mat): nat
  {
    if |m| == 0 then 0 else |m[0]|
  }

  /** Every row has the width of the first one. */
  predicate Rectangular(m: Mat)
  {
    forall i :: 0 <= i < |m| ==> |m[i]| == Width(m)
  }

  /** No row is shorter than the first one: enough for every column below the
      width to be read without an index error. */
  predicate NoShortRows(m: Mat)
  {
    forall i :: 0 <= i < |m| ==> |m[i]| >= Width(m)
  }

  function VecAdd(u: Vector, v: Vector): Vector
    requires |u| == |v|
  {
    seq(|u|, i requires 0 <= i < |u| => u[i] + v[i])
  }

  function VecNeg(u: Vector): Vector
  {
    seq(|u|, i requires 0 <= i < |u| => -u[i])
  }

  /** The sum of u[i] * v[i], accumulated from index 0 upwards. */
  function InnerProduct(u: Vector, v: Vector): real
    requires |u| == |v|
    decreases |u|
  {
    if |u| == 0 then 0.0
    else InnerProduct(u[..|u| - 1], v[..|u| - 1]) + u[|u| - 1] * v[|u| - 1]
  }

  /** Column j of m, gathered across all rows. */
  function Column(m: Mat, j: nat): (c: Vector)
    requires forall i :: 0 <= i < |m| ==> j < |m[i]|
    ensures |c| == |m|
  {
    seq(|m|, i requires 0 <= i < |m| => m[i][j])
  }

  /** Row vector times matrix: element j is the inner product of u with column j. */
  function VecMat(u: Vector, m: Mat): (w: Vector)
    requires |u| == |m| && NoShortRows(m)
    ensures |w| == Width(m)
  {
    seq(Width(m), j requires 0 <= j < Width(m) => InnerProduct(u, Column(m, j)))
  }

  function MatAdd(a: Mat, b: Mat): (c: Mat)
    requires |a| == |b| && forall i :: 0 <= i < |a| ==> |a[i]| == |b[i]|
    ensures |c| == |a| && forall i :: 0 <= i < |c| ==> |c[i]| == |a[i]|
  {
    seq(|a|, i requires 0 <= i < |a| => VecAdd(a[i], b[i]))
  }

  function MatNeg(a: Mat): (c: Mat)
    ensures |c| == |a| && forall i :: 0 <= i < |c| ==> |c[i]| == |a[i]|
  {
    seq(|a|, i requires 0 <= i < |a| => VecNeg(a[i]))
  }

  /** The matrix product, row by row: row i of a times b. */
  function MatMul(a: Mat, b: Mat): (c: Mat)
    requires NoShortRows(b) && forall i :: 0 <= i < |a| ==> |a[i]| == |b|
    ensures |c| == |a| && Rectangular(c) && (|a| > 0 ==> Width(c) == Width(b))
  {
    seq(|a|, i requires 0 <= i < |a| => VecMat(a[i], b))
  }

  /** The transpose: row j is column j of a. */
  function Transposed(a: Mat): (c: Mat)
    requires NoShortRows(a)
    ensures |c| == Width(a) && Rectangular(c) && (|c| > 0 ==> Width(c) == |a|)
  {
    seq(Width(a), j requires 0 <= j < Width(a) => Column(a, j))
  }

  function Identity(n: nat): (m: Mat)
    ensures |m| == n && Rectangular(m) && (n > 0 ==> Width(m) == n)
  {
    seq(n, i requires 0 <= i < n => seq(n, j requires 0 <= j < n => if i == j then 1.0 else 0.0))
  }

  // ---------------------------------------------------------------------------
  // Facts

  lemma RectangularHasNoShortRows(m: Mat)
    requires Rectangular(m)
    ensures NoShortRows(m)
  {
  }

  /** The inner product does not depend on the order of its operands. */
  lemma {:induction false} InnerProductCommutes(u: Vector, v: Vector)
    requires |u| == |v|
    ensures InnerProduct(u, v) == InnerProduct(v, u)
  {
    if |u| > 0 {
      InnerProductCommutes(u[..|u| - 1], v[..|u| - 1]);
    }
  }

  /** The inner product with a unit vector e_j picks out element j. */
  lemma {:induction false} InnerProductSelects(u: Vector, e: Vector, j: nat)
    requires |u| == |e|
    requires forall i :: 0 <= i < |e| ==> e[i] == if i == j then 1.0 else 0.0
    ensures InnerProduct(u, e) == if j < |u| then u[j] else 0.0
  {
    if |u| > 0 {
      var n := |u| - 1;
      InnerProductSelects(u[..n], e[..n], j);
    }
  }

  /** A row vector times the identity matrix is the same row vector. */
  lemma VecMatIdentity(u: Vector)
    ensures VecMat(u, Identity(|u|)) == u
  {
    var n := |u|;
    var id := Identity(n);
    RectangularHasNoShortRows(id);
    forall j | 0 <= j < n
      ensures VecMat(u, id)[j] == u[j]
    {
      InnerProductSelects(u, Column(id, j), j);
    }
  }

  /** Multiplying by the identity matrix on the right gives the matrix back. */
  lemma MatMulIdentity(a: Mat)
    requires Rectangular(a)
    ensures MatMul(a, Identity(Width(a))) == a
  {
    var id := Identity(Width(a));
    RectangularHasNoShortRows(id);
    forall i | 0 <= i < |a|
      ensures MatMul(a, id)[i] == a[i]
    {
      VecMatIdentity(a[i]);
    }
  }

  /** Negating twice restores every element. */
  lemma VecNegTwice(u: Vector)
    ensures VecNeg(VecNeg(u)) == u
  {
    assert forall i :: 0 <= i < |u| ==> VecNeg(VecNeg(u))[i] == u[i];
  }

  /** Negation distributes over matrix addition: -(A + B) == (-A) + (-B). */
  lemma NegationDistributesOverAdd(a: Mat, b: Mat)
    requires |a| == |b| && forall i :: 0 <= i < |a| ==> |a[i]| == |b[i]|
    ensures MatNeg(MatAdd(a, b)) == MatAdd(MatNeg(a), MatNeg(b))
  {
    forall i | 0 <= i < |a|
      ensures MatNeg(MatAdd(a, b))[i] == MatAdd(MatNeg(a), MatNeg(b))[i]
    {
      assert forall j :: 0 <= j < |a[i]| ==> -(a[i][j] + b[i][j]) == -a[i][j] + -b[i][j];
    }
  }

  /** Element (j, i) of the transpose is element (i, j) of the matrix. */
  lemma TransposedAt(a: Mat, i: nat, j: nat)
    requires NoShortRows(a) && i < |a| && j < Width(a)
    ensures j < |Transposed(a)| && i < |Transposed(a)[j]|
    ensures Transposed(a)[j][i] == a[i][j]
  {
  }

  /** Transposing a non-degenerate rectangular matrix twice gives it back. */
  lemma TransposedTwice(a: Mat)
    requires Rectangular(a) && Width(a) > 0
    ensures NoShortRows(Transposed(a))
    ensures Transposed(Transposed(a)) == a
  {
    var t := Transposed(a);
    RectangularHasNoShortRows(t);
    forall i | 0 <= i < |a|
      ensures Transposed(t)[i] == a[i]
    {
      forall j | 0 <= j < |a[i]|
        ensures Transposed(t)[i][j] == a[i][j]
      {
        TransposedAt(a, i, j);
      }
    }
  }
}
