/** The shared numeric storage: row/column vectors mutated in place and the
    matrices built from them (package `memory` of the Java code). Read-write
    locking is omitted: the model is sequential, so every lock call is a no-op. */
module Memory {
  import opened Outcomes
  import opened LinearAlgebra

  /** Java's VectorOrientation. */
  datatype Orientation = RowMajor | ColumnMajor

  function Flipped(o: Orientation): Orientation
  {
    if o == RowMajor then ColumnMajor else RowMajor
  }

  /** Flipping changes the tag, and flipping twice restores it. */
  lemma FlippedTwice(o: Orientation)
    ensures Flipped(o) != o && Flipped(Flipped(o)) == o
  {
  }

  /** A row padded with zeros (or cut) to the given width. */
  function Padded(row: Vector, width: nat): Vector
  {
    seq(width, j requires 0 <= j < width => if j < |row| then row[j] else 0.0)
  }

  /** What readRowMajor returns for a matrix with the given rows: a fresh array
      whose width is that of row 0, so a shorter row is padded with zeros and a
      longer row makes the copy index past the end of its target array. */
  function Snapshot(rows: Mat): Result<Mat>
  {
    if |rows| == 0 then Success([])
    else if exists i :: 0 <= i < |rows| && |rows[i]| > Width(rows) then Failure(IndexOutOfBounds)
    else Success(seq(|rows|, i requires 0 <= i < |rows| => Padded(rows[i], Width(rows))))
  }

  /** Reading back a rectangular matrix gives exactly its rows. */
  lemma SnapshotOfRectangular(rows: Mat)
    requires Rectangular(rows)
    ensures Snapshot(rows) == Success(rows)
  {
    if |rows| > 0 {
      assert !exists i :: 0 <= i < |rows| && |rows[i]| > Width(rows);
      forall i | 0 <= i < |rows|
        ensures Padded(rows[i], Width(rows)) == rows[i]
      {
      }
      assert seq(|rows|, i requires 0 <= i < |rows| => Padded(rows[i], Width(rows))) == rows;
    }
  }

  class SharedVector {
    var vector: seq<real>
    var orientation: Orientation

    constructor (vector: seq<real>, orientation: Orientation)
      ensures this.vector == vector && this.orientation == orientation
    {
      this.vector := vector;
      this.orientation := orientation;
    }

    /** The element at an in-range index; the source throws an index error
        otherwise, and every caller checks the index first. */
    function Get(index: nat): (x: real)
      reads this
      requires index < |vector|
      ensures x == vector[index]
    {
      vector[index]
    }

    function Length(): (n: nat)
      reads this
      ensures n == |vector|
    {
      |vector|
    }

    function GetOrientation(): (o: Orientation)
      reads this
      ensures o == orientation
    {
      orientation
    }

    /** Flips the orientation tag; the elements are not touched. */
    method Transpose()
      modifies this
      ensures vector == old(vector)
      ensures orientation == Flipped(old(orientation))
    {
      if orientation == RowMajor {
        orientation := ColumnMajor;
      } else {
        orientation := RowMajor;
      }
    }

    /** Adds other into this vector element by element. On a length mismatch it
        fails before writing anything. When other is this vector, every element
        is read before it is written, so the vector is doubled. */
    method Add(other: SharedVector) returns (r: Outcome)
      modifies this
      ensures orientation == old(orientation)
      ensures |old(vector)| != |old(other.vector)| ==>
                r == Fail(DimensionMismatch) && vector == old(vector)
      ensures |old(vector)| == |old(other.vector)| ==>
                r == Pass && vector == VecAdd(old(vector), old(other.vector))
    {
      if Length() != other.Length() {
        return Fail(DimensionMismatch);
      }
      var i := 0;
      while i < |vector|
        invariant 0 <= i <= |vector| == |old(vector)|
        invariant forall k :: 0 <= k < i ==> vector[k] == old(vector)[k] + old(other.vector)[k]
        invariant forall k :: i <= k < |vector| ==> vector[k] == old(vector)[k]
        invariant other != this ==> other.vector == old(other.vector)
        invariant orientation == old(orientation)
      {
        vector := vector[i := vector[i] + other.vector[i]];
        i := i + 1;
      }
      return Pass;
    }

    /** Replaces every element by its negation. */
    method Negate()
      modifies this
      ensures orientation == old(orientation)
      ensures vector == VecNeg(old(vector))
    {
      var i := 0;
      while i < |vector|
        invariant 0 <= i <= |vector| == |old(vector)|
        invariant forall k :: 0 <= k < i ==> vector[k] == -old(vector)[k]
        invariant forall k :: i <= k < |vector| ==> vector[k] == old(vector)[k]
        invariant orientation == old(orientation)
      {
        vector := vector[i := -vector[i]];
        i := i + 1;
      }
    }

    /** The inner product with other; fails on a length mismatch and changes
        neither vector. */
    method Dot(other: SharedVector) returns (r: Result<real>)
      ensures |vector| != |other.vector| ==> r == Failure(DimensionMismatch)
      ensures |vector| == |other.vector| ==> r == Success(InnerProduct(vector, other.vector))
    {
      if Length() != other.Length() {
        return Failure(DimensionMismatch);
      }
      var result := 0.0;
      var i := 0;
      while i < |vector|
        invariant 0 <= i <= |vector|
        invariant result == InnerProduct(vector[..i], other.vector[..i])
      {
        assert vector[..i + 1][..i] == vector[..i];
        assert other.vector[..i + 1][..i] == other.vector[..i];
        result := result + vector[i] * other.vector[i];
        i := i + 1;
      }
      assert vector[..i] == vector && other.vector[..i] == other.vector;
      return Success(result);
    }

    /** The inner loop of vecMatMul: the inner product of this vector with
        element i of each of rows, walked in order. A row that has no element i
        stops the walk with an index error. */
    method DotColumn(rows: seq<SharedVector>, i: nat, ghost m: Mat) returns (r: Result<real>)
      requires |rows| == |m| == |vector|
      requires forall k :: 0 <= k < |m| ==> m[k] == rows[k].vector
      ensures (forall k :: 0 <= k < |m| ==> i < |m[k]|) ==>
                r == Success(InnerProduct(vector, Column(m, i)))
      ensures (exists k :: 0 <= k < |m| && |m[k]| <= i) ==> r == Failure(IndexOutOfBounds)
    {
      var sum := 0.0;
      var j := 0;
      ghost var column := seq(|m|, k requires 0 <= k < |m| => if i < |m[k]| then m[k][i] else 0.0);
      while j < |rows|
        invariant 0 <= j <= |m|
        invariant forall k :: 0 <= k < j ==> |m[k]| > i
        invariant sum == InnerProduct(vector[..j], column[..j])
      {
        if i >= rows[j].Length() {
          return Failure(IndexOutOfBounds);
        }
        assert vector[..j + 1][..j] == vector[..j];
        assert column[..j + 1][..j] == column[..j];
        sum := sum + vector[j] * rows[j].Get(i);
        j := j + 1;
      }
      assert vector[..j] == vector && column[..j] == column == Column(m, i);
      return Success(sum);
    }

    /** Replaces this row vector by its product with matrix. The length check
        comes first; an empty matrix then fails when its row 0 is read, and a
        row shorter than row 0 fails when the column walk reads past its end.
        The product is built in a separate array and stored only at the end, so
        every failure leaves the vector as it was. On success the vector takes
        the width of the matrix, the only way a vector's length changes. */
    method VecMatMul(matrix: SharedMatrix) returns (r: Outcome)
      modifies this
      ensures orientation == old(orientation)
      ensures |old(vector)| != |matrix.vectors| ==>
                r == Fail(DimensionMismatch) && vector == old(vector)
      ensures |old(vector)| == |matrix.vectors| == 0 ==>
                r == Fail(IndexOutOfBounds) && vector == old(vector)
      ensures |old(vector)| == |matrix.vectors| > 0 && !NoShortRows(old(matrix.Rows())) ==>
                r == Fail(IndexOutOfBounds) && vector == old(vector)
      ensures |old(vector)| == |matrix.vectors| > 0 && NoShortRows(old(matrix.Rows())) ==>
                r == Pass && vector == VecMat(old(vector), old(matrix.Rows()))
    {
      if |vector| != matrix.Length() {
        return Fail(DimensionMismatch);
      }
      if matrix.Length() == 0 {
        return Fail(IndexOutOfBounds);
      }
      ghost var m := matrix.Rows();
      var rows := matrix.vectors;
      assert forall k :: 0 <= k < |m| ==> m[k] == rows[k].vector;
      var width := rows[0].Length();
      var temp := new real[width];
      var i := 0;
      while i < width
        modifies temp
        invariant 0 <= i <= width
        invariant forall k :: 0 <= k < |m| ==> m[k] == rows[k].vector && |m[k]| >= i
        invariant forall k :: 0 <= k < i ==> temp[k] == InnerProduct(vector, Column(m, k))
      {
        var sum := DotColumn(rows, i, m);
        if sum.Failure? {
          assert !NoShortRows(m);
          return Fail(IndexOutOfBounds);
        }
        temp[i] := sum.value;
        i := i + 1;
      }
      assert NoShortRows(m);
      assert temp[..] == VecMat(vector, m);
      vector := temp[..];
      return Pass;
    }
  }

  class SharedMatrix {
    var vectors: seq<SharedVector>

    /** The rows are distinct objects, so mutating one leaves the others alone. */
    ghost predicate Valid()
      reads this
    {
      forall i, j :: 0 <= i < j < |vectors| ==> vectors[i] != vectors[j]
    }

    /** The contents, row by row. */
    ghost function Rows(): Mat
      reads this, vectors
    {
      seq(|vectors|, i requires 0 <= i < |vectors| reads this, vectors => vectors[i].vector)
    }

    /** The orientation tag of every row. */
    ghost function Orientations(): seq<Orientation>
      reads this, vectors
    {
      seq(|vectors|, i requires 0 <= i < |vectors| reads this, vectors => vectors[i].orientation)
    }

    /** The empty matrix. */
    constructor ()
      ensures Valid() && Rows() == []
      ensures Length() == 0 && GetOrientation() == None
    {
      vectors := [];
    }

    /** A matrix holding fresh row-major copies of the rows of matrix: the same
        state as loadRowMajor on an empty matrix. */
    constructor FromArray(matrix: seq<seq<real>>)
      ensures Valid() && Rows() == matrix
      ensures Orientations() == seq(|matrix|, _ => RowMajor)
      ensures forall i :: 0 <= i < |vectors| ==> fresh(vectors[i])
    {
      vectors := [];
      new;
      LoadRowMajor(matrix);
    }

    /** The row object itself at an in-range index, which callers then mutate
        in place; it holds that row's contents and orientation. The source throws an index error otherwise. */
    function Get(index: nat): (v: SharedVector)
      reads this, vectors
      requires index < |vectors|
      ensures v == vectors[index]
      ensures v.vector == Rows()[index] && v.orientation == Orientations()[index]
    {
      vectors[index]
    }

    /** The number of rows. */
    function Length(): (n: nat)
      reads this, vectors
      ensures n == |Rows()|
    {
      |vectors|
    }

    /** The orientation of row 0, or None (Java's null) for an empty matrix. */
    function GetOrientation(): (o: Option<Orientation>)
      reads this, vectors
      ensures o == if |Rows()| == 0 then None else Some(Orientations()[0])
    {
      if |vectors| == 0 then None else Some(vectors[0].orientation)
    }

    /** Discards the current rows and loads a fresh row-major copy of each row
        of matrix. */
    method LoadRowMajor(matrix: seq<seq<real>>)
      modifies this
      ensures Valid() && Rows() == matrix
      ensures Orientations() == seq(|matrix|, _ => RowMajor)
      ensures forall i :: 0 <= i < |vectors| ==> fresh(vectors[i])
      ensures GetOrientation() == if matrix == [] then None else Some(RowMajor)
    {
      var loaded: seq<SharedVector> := [];
      for i := 0 to |matrix|
        invariant |loaded| == i
        invariant forall k :: 0 <= k < i ==> fresh(loaded[k])
        invariant forall k :: 0 <= k < i ==> loaded[k].vector == matrix[k] && loaded[k].orientation == RowMajor
        invariant forall k, l :: 0 <= k < l < i ==> loaded[k] != loaded[l]
      {
        var temp := new real[|matrix[i]|];
        for j := 0 to |matrix[i]|
          modifies temp
          invariant forall k :: 0 <= k < j ==> temp[k] == matrix[i][k]
        {
          temp[j] := matrix[i][j];
        }
        var row := new SharedVector(temp[..], RowMajor);
        loaded := loaded + [row];
      }
      vectors := loaded;
    }

    /** Discards the current rows and loads, for every column j of matrix, a
        fresh column-major vector gathering element j of every row: the
        transpose. An empty matrix fails when its row 0 is read, before anything
        changes. */
    method LoadColumnMajor(matrix: seq<seq<real>>) returns (r: Outcome)
      requires NoShortRows(matrix)
      modifies this
      ensures matrix == [] ==> r == Fail(IndexOutOfBounds) && vectors == old(vectors)
      ensures matrix != [] ==> r == Pass && Valid() && Rows() == Transposed(matrix)
      ensures matrix != [] ==> Orientations() == seq(Width(matrix), _ => ColumnMajor)
      ensures matrix != [] ==> forall i :: 0 <= i < |vectors| ==> fresh(vectors[i])
      ensures matrix != [] ==>
                GetOrientation() == if Width(matrix) == 0 then None else Some(ColumnMajor)
    {
      if |matrix| == 0 {
        return Fail(IndexOutOfBounds);
      }
      var width := |matrix[0]|;
      var loaded: seq<SharedVector> := [];
      for j := 0 to width
        invariant |loaded| == j
        invariant forall k :: 0 <= k < j ==> fresh(loaded[k])
        invariant forall k :: 0 <= k < j ==> loaded[k].vector == Column(matrix, k) && loaded[k].orientation == ColumnMajor
        invariant forall k, l :: 0 <= k < l < j ==> loaded[k] != loaded[l]
      {
        var temp := new real[|matrix|];
        for i := 0 to |matrix|
          modifies temp
          invariant forall k :: 0 <= k < i ==> temp[k] == matrix[k][j]
        {
          temp[i] := matrix[i][j];
        }
        var column := new SharedVector(temp[..], ColumnMajor);
        loaded := loaded + [column];
      }
      vectors := loaded;
      return Pass;
    }

    /** Copies the contents out as a row-major array whose width is that of
        row 0. Nothing is modified. */
    method ReadRowMajor() returns (r: Result<Mat>)
      ensures r == Snapshot(Rows())
    {
      if |vectors| == 0 {
        return Success([]);
      }
      ghost var rows := Rows();
      var width := vectors[0].Length();
      var result: seq<seq<real>> := [];
      for i := 0 to |vectors|
        invariant |result| == i
        invariant forall k :: 0 <= k < i ==> |rows[k]| <= width
        invariant forall k :: 0 <= k < i ==> result[k] == Padded(rows[k], width)
      {
        var row := new real[width](_ => 0.0);
        for j := 0 to vectors[i].Length()
          modifies row
          invariant j <= width
          invariant forall k :: 0 <= k < j ==> row[k] == rows[i][k]
          invariant forall k :: j <= k < width ==> row[k] == 0.0
        {
          if j >= width {
            assert |rows[i]| > Width(rows);
            return Failure(IndexOutOfBounds);
          }
          row[j] := vectors[i].Get(j);
        }
        result := result + [row[..]];
      }
      assert forall k :: 0 <= k < |rows| ==> |rows[k]| <= Width(rows);
      assert result == seq(|rows|, k requires 0 <= k < |rows| => Padded(rows[k], Width(rows)));
      return Success(result);
    }
  }
}
