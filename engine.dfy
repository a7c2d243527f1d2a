/** The linear algebra engine: it reduces an expression tree one operation at a
    time, staging the operands in two scratch matrices and computing the result
    with one task per row of the left matrix. The worker pool that runs a batch
    of tasks is replaced by a sequential loop over the batch: every task touches
    a different row, so the order does not matter. */
module Engine {
  import opened Outcomes
  import opened LinearAlgebra
  import opened Memory
  import opened Computation

  /** One unit of work: the lambda a create*Tasks method builds for a row. */
  datatype Task =
    | AddRow(row: nat)         // adds right row `row` into left row `row`
    | MultiplyRow(row: nat)    // replaces left row `row` by its product with the right matrix
    | NegateRow(row: nat)      // negates left row `row`
    | TransposeRow(row: nat)   // flips the orientation of left row `row`

  /** The task can run on a left row with these contents against a right
      matrix with these rows without throwing. */
  ghost predicate TaskFits(t: Task, row: Vector, right: Mat)
  {
    match t
    case AddRow(i) => i < |right| && |row| == |right[i]|
    case MultiplyRow(_) => NoShortRows(right) && |row| == |right| > 0
    case NegateRow(_) => true
    case TransposeRow(_) => true
  }

  /** The contents of the task's row once it has run. */
  ghost function RowAfter(t: Task, row: Vector, right: Mat): Vector
    requires TaskFits(t, row, right)
  {
    match t
    case AddRow(i) => VecAdd(row, right[i])
    case MultiplyRow(_) => VecMat(row, right)
    case NegateRow(_) => VecNeg(row)
    case TransposeRow(_) => row
  }

  /** The orientation of the task's row once it has run. */
  function OrientationAfter(t: Task, o: Orientation): Orientation
  {
    if t.TransposeRow? then Flipped(o) else o
  }

  /** Task i is for row i of a left matrix with rows `left`, one task per
      row, and each can run against a right matrix with rows `right`. */
  ghost predicate Fits(tasks: seq<Task>, left: Mat, right: Mat)
  {
    |tasks| == |left| &&
    forall i :: 0 <= i < |tasks| ==> tasks[i].row == i && TaskFits(tasks[i], left[i], right)
  }

  /** The left rows once every task of the batch has run. */
  ghost function BatchRows(tasks: seq<Task>, left: Mat, right: Mat): (rows: Mat)
    requires Fits(tasks, left, right)
    ensures |rows| == |left|
  {
    seq(|tasks|, i requires 0 <= i < |tasks| => RowAfter(tasks[i], left[i], right))
  }

  /** The left rows' orientations once every task of the batch has run. */
  function BatchTags(tasks: seq<Task>, tags: seq<Orientation>): (after: seq<Orientation>)
    requires |tags| == |tasks|
    ensures |after| == |tags|
  {
    seq(|tasks|, i requires 0 <= i < |tasks| => OrientationAfter(tasks[i], tags[i]))
  }

  /** The batch is ready to run on a left matrix with rows `left` and
      orientations `tags` against a right matrix with rows `right`, and
      running it leaves the left matrix holding `value`, every row row-major. */
  ghost predicate Prepared(tasks: seq<Task>, left: Mat, tags: seq<Orientation>, right: Mat, value: Mat)
  {
    Fits(tasks, left, right) && |tags| == |tasks| &&
    BatchRows(tasks, left, right) == value &&
    BatchTags(tasks, tags) == seq(|tasks|, _ => RowMajor)
  }

  /** Row-wise addition of two row-major operands of the same shape computes
      their sum. */
  lemma AddBatch(tasks: seq<Task>, a: Mat, b: Mat)
    requires |tasks| == |a| && forall i :: 0 <= i < |tasks| ==> tasks[i] == AddRow(i)
    requires Rectangular(a) && Rectangular(b) && |a| == |b| && Width(a) == Width(b)
    ensures Prepared(tasks, a, seq(|a|, _ => RowMajor), b, MatAdd(a, b))
  {
  }

  /** Row-times-matrix on every row of a row-major left operand computes the
      matrix product. */
  lemma MultiplyBatch(tasks: seq<Task>, a: Mat, b: Mat)
    requires |tasks| == |a| && forall i :: 0 <= i < |tasks| ==> tasks[i] == MultiplyRow(i)
    requires Rectangular(a) && Rectangular(b) && Width(a) == |b| > 0
    ensures NoShortRows(b)
    ensures Prepared(tasks, a, seq(|a|, _ => RowMajor), b, MatMul(a, b))
  {
    RectangularHasNoShortRows(b);
  }

  /** Negating every row of a row-major operand computes its negation,
      whatever the right matrix holds. */
  lemma NegateBatch(tasks: seq<Task>, a: Mat, right: Mat)
    requires |tasks| == |a| && forall i :: 0 <= i < |tasks| ==> tasks[i] == NegateRow(i)
    ensures Prepared(tasks, a, seq(|a|, _ => RowMajor), right, MatNeg(a))
  {
  }

  /** Loaded column-major, the operand's rows already hold its transpose;
      flipping every row's orientation makes them the transpose's row-major
      rows. */
  lemma TransposeBatch(tasks: seq<Task>, a: Mat, right: Mat)
    requires NoShortRows(a)
    requires |tasks| == Width(a) && forall j :: 0 <= j < |tasks| ==> tasks[j] == TransposeRow(j)
    ensures Prepared(tasks, Transposed(a), seq(Width(a), _ => ColumnMajor), right, Transposed(a))
  {
  }

  class LinearAlgebraEngine {
    const leftMatrix: SharedMatrix
    const rightMatrix: SharedMatrix

    ghost predicate Valid()
      reads this, leftMatrix, rightMatrix
    {
      leftMatrix != rightMatrix && leftMatrix.Valid() && rightMatrix.Valid()
    }

    /** No row object is shared between the two scratch matrices. */
    ghost predicate Separated()
      reads this, leftMatrix, rightMatrix
    {
      forall i, j :: 0 <= i < |leftMatrix.vectors| && 0 <= j < |rightMatrix.vectors| ==>
        leftMatrix.vectors[i] != rightMatrix.vectors[j]
    }

    constructor ()
      ensures Valid() && fresh(leftMatrix) && fresh(rightMatrix)
      ensures leftMatrix.Rows() == [] && rightMatrix.Rows() == []
    {
      leftMatrix := new SharedMatrix();
      rightMatrix := new SharedMatrix();
    }

    /** One row-addition task per row of the left matrix, task i for row i. */
    method CreateAddTasks() returns (tasks: seq<Task>)
      ensures |tasks| == |leftMatrix.vectors|
      ensures forall i :: 0 <= i < |tasks| ==> tasks[i] == AddRow(i)
    {
      tasks := [];
      for i := 0 to leftMatrix.Length()
        invariant |tasks| == i
        invariant forall k :: 0 <= k < i ==> tasks[k] == AddRow(k)
      {
        tasks := tasks + [AddRow(i)];
      }
    }

    /** One row-times-matrix task per row of the left matrix, task i for row i. */
    method CreateMultiplyTasks() returns (tasks: seq<Task>)
      ensures |tasks| == |leftMatrix.vectors|
      ensures forall i :: 0 <= i < |tasks| ==> tasks[i] == MultiplyRow(i)
    {
      tasks := [];
      for i := 0 to leftMatrix.Length()
        invariant |tasks| == i
        invariant forall k :: 0 <= k < i ==> tasks[k] == MultiplyRow(k)
      {
        tasks := tasks + [MultiplyRow(i)];
      }
    }

    /** One negation task per row of the left matrix, task i for row i. */
    method CreateNegateTasks() returns (tasks: seq<Task>)
      ensures |tasks| == |leftMatrix.vectors|
      ensures forall i :: 0 <= i < |tasks| ==> tasks[i] == NegateRow(i)
    {
      tasks := [];
      for i := 0 to leftMatrix.Length()
        invariant |tasks| == i
        invariant forall k :: 0 <= k < i ==> tasks[k] == NegateRow(k)
      {
        tasks := tasks + [NegateRow(i)];
      }
    }

    /** One orientation-flip task per row of the left matrix, task i for row i. */
    method CreateTransposeTasks() returns (tasks: seq<Task>)
      ensures |tasks| == |leftMatrix.vectors|
      ensures forall i :: 0 <= i < |tasks| ==> tasks[i] == TransposeRow(i)
    {
      tasks := [];
      for i := 0 to leftMatrix.Length()
        invariant |tasks| == i
        invariant forall k :: 0 <= k < i ==> tasks[k] == TransposeRow(k)
      {
        tasks := tasks + [TransposeRow(i)];
      }
    }

    /** Runs one task. It writes its own row of the left matrix and nothing
        else. */
    method Execute(t: Task)
      requires t.row < |leftMatrix.vectors|
      requires TaskFits(t, leftMatrix.vectors[t.row].vector, rightMatrix.Rows())
      modifies leftMatrix.vectors[t.row]
      ensures leftMatrix.vectors[t.row].vector ==
                RowAfter(t, old(leftMatrix.vectors[t.row].vector), old(rightMatrix.Rows()))
      ensures leftMatrix.vectors[t.row].orientation ==
                OrientationAfter(t, old(leftMatrix.vectors[t.row].orientation))
    {
      var leftRow := leftMatrix.Get(t.row);
      match t
      case AddRow(i) =>
        var rightRow := rightMatrix.Get(i);
        var _ := leftRow.Add(rightRow);
      case MultiplyRow(_) =>
        var _ := leftRow.VecMatMul(rightMatrix);
      case NegateRow(_) =>
        leftRow.Negate();
      case TransposeRow(_) =>
        leftRow.Transpose();
    }

    /** Runs a batch in which task i is for row i of the left matrix, each
        exactly once. Row i ends up as task i computed it from the rows as they
        were before the batch; the right matrix is only read. */
    method SubmitAll(tasks: seq<Task>)
      requires Valid() && Separated()
      requires Fits(tasks, leftMatrix.Rows(), rightMatrix.Rows())
      modifies leftMatrix.vectors
      ensures rightMatrix.Rows() == old(rightMatrix.Rows())
      ensures leftMatrix.Rows() == BatchRows(tasks, old(leftMatrix.Rows()), old(rightMatrix.Rows()))
      ensures leftMatrix.Orientations() == BatchTags(tasks, old(leftMatrix.Orientations()))
    {
      ghost var before := leftMatrix.Rows();
      ghost var tags := leftMatrix.Orientations();
      ghost var right := rightMatrix.Rows();
      for k := 0 to |tasks|
        invariant rightMatrix.Rows() == right
        invariant forall i :: 0 <= i < k ==>
                    leftMatrix.vectors[i].vector == RowAfter(tasks[i], before[i], right) &&
                    leftMatrix.vectors[i].orientation == OrientationAfter(tasks[i], tags[i])
        invariant forall i :: k <= i < |tasks| ==>
                    leftMatrix.vectors[i].vector == before[i] &&
                    leftMatrix.vectors[i].orientation == tags[i]
      {
        Execute(tasks[k]);
      }
      assert leftMatrix.Rows() == BatchRows(tasks, before, right);
      assert leftMatrix.Orientations() == BatchTags(tasks, tags);
    }

    /** Loads the operands of a resolvable node into the scratch matrices:
        the first child row-major unless the node is a transpose, and the
        second child row-major when there is one. */
    method LoadOperands(node: Node)
      requires Valid()
      requires Resolvable(node) && Evaluate(node).Some?
      modifies leftMatrix, rightMatrix
      ensures Valid()
      ensures node.kind != Transpose ==>
                leftMatrix.Rows() == node.children[0].matrix &&
                leftMatrix.Orientations() == seq(|node.children[0].matrix|, _ => RowMajor) &&
                Separated() &&
                forall i :: 0 <= i < |leftMatrix.vectors| ==> fresh(leftMatrix.vectors[i])
      ensures node.kind == Transpose ==> leftMatrix.vectors == old(leftMatrix.vectors)
      ensures |node.children| > 1 ==>
                rightMatrix.Rows() == node.children[1].matrix &&
                rightMatrix.Orientations() == seq(|node.children[1].matrix|, _ => RowMajor)
      ensures |node.children| == 1 ==> rightMatrix.vectors == old(rightMatrix.vectors)
    {
      var children := node.children;
      if node.kind != Transpose {
        leftMatrix.LoadRowMajor(children[0].matrix);
      }
      if |children| > 1 {
        rightMatrix.LoadRowMajor(children[1].matrix);
      }
    }

    /** Builds the batch for the node's operation once its operands are
        loaded; a transpose loads its operand column-major first. Afterwards
        task i, run on row i, yields row i of the node's value. */
    method CreateTasks(node: Node) returns (tasks: seq<Task>)
      requires Valid()
      requires Resolvable(node) && Evaluate(node).Some?
      requires node.kind != Transpose ==>
                 leftMatrix.Rows() == node.children[0].matrix &&
                 leftMatrix.Orientations() == seq(|node.children[0].matrix|, _ => RowMajor) &&
                 Separated()
      requires |node.children| > 1 ==> rightMatrix.Rows() == node.children[1].matrix
      modifies leftMatrix
      ensures Valid() && Separated()
      ensures node.kind == Transpose ==>
                forall i :: 0 <= i < |leftMatrix.vectors| ==> fresh(leftMatrix.vectors[i])
      ensures node.kind != Transpose ==> leftMatrix.vectors == old(leftMatrix.vectors)
      ensures Prepared(tasks, leftMatrix.Rows(), leftMatrix.Orientations(), rightMatrix.Rows(),
                       Evaluate(node).value)
    {
      var children := node.children;
      var a := children[0].matrix;
      assert Evaluate(children[0]) == Some(a);
      match node.kind {
        case Add =>
          tasks := CreateAddTasks();
          var b := children[1].matrix;
          assert Evaluate(children[1]) == Some(b);
          AddBatch(tasks, a, b);
        case Multiply =>
          tasks := CreateMultiplyTasks();
          var b := children[1].matrix;
          assert Evaluate(children[1]) == Some(b);
          MultiplyBatch(tasks, a, b);
        case Negate =>
          tasks := CreateNegateTasks();
          NegateBatch(tasks, a, rightMatrix.Rows());
        case Transpose =>
          tasks := StageTranspose(a);
      }
    }

    /** The TRANSPOSE case of the staging: the operand is loaded column-major,
        so the left rows already hold the transpose, and each task only flips
        its row's orientation back to row-major. */
    method StageTranspose(a: Mat) returns (tasks: seq<Task>)
      requires Valid()
      requires Rectangular(a) && |a| > 0
      modifies leftMatrix
      ensures Valid() && Separated()
      ensures forall i :: 0 <= i < |leftMatrix.vectors| ==> fresh(leftMatrix.vectors[i])
      ensures NoShortRows(a)
      ensures Prepared(tasks, leftMatrix.Rows(), leftMatrix.Orientations(), rightMatrix.Rows(), Transposed(a))
    {
      RectangularHasNoShortRows(a);
      var _ := leftMatrix.LoadColumnMajor(a);
      tasks := CreateTransposeTasks();
      TransposeBatch(tasks, a, rightMatrix.Rows());
    }

    /** Computes one resolvable node: stages its operands, runs one task per
        row of the left matrix, and returns the node resolved to what the left
        matrix then reads back. */
    method LoadAndCompute(node: Node) returns (resolved: Node)
      requires Valid()
      requires Resolvable(node) && Evaluate(node).Some?
      modifies leftMatrix, rightMatrix
      ensures Valid()
      ensures leftMatrix.Rows() == Evaluate(node).value
      ensures leftMatrix.Orientations() == seq(|leftMatrix.vectors|, _ => RowMajor)
      ensures resolved == Matrix(leftMatrix.Rows())
      ensures |node.children| > 1 ==> rightMatrix.Rows() == node.children[1].matrix
      ensures |node.children| == 1 ==> rightMatrix.vectors == old(rightMatrix.vectors)
    {
      LoadOperands(node);
      var tasks := CreateTasks(node);
      assert forall i :: 0 <= i < |leftMatrix.vectors| ==> fresh(leftMatrix.vectors[i]);
      SubmitAll(tasks);
      var snapshot := leftMatrix.ReadRowMajor();
      SnapshotOfRectangular(leftMatrix.Rows());
      resolved := Matrix(snapshot.value);
    }

    /** Reduces the whole tree, one resolvable node at a time, to the literal
        holding its value. */
    method Run(computationRoot: Node) returns (result: Node)
      requires Valid()
      requires Evaluate(computationRoot).Some?
      modifies leftMatrix, rightMatrix
      ensures Valid()
      ensures result == Matrix(Evaluate(computationRoot).value)
    {
      var root := computationRoot;
      var resolvable := FindResolvable(root);
      while resolvable.Some?
        invariant Valid()
        invariant Evaluate(root) == Evaluate(computationRoot)
        invariant resolvable == FindResolvable(root)
        decreases OpCount(root)
      {
        var path := resolvable.value;
        EvaluateAt(root, path);
        var resolved := LoadAndCompute(At(root, path));
        ReplacePreservesEvaluate(root, path, resolved);
        OpCountReplace(root, path, resolved);
        root := Replace(root, path, resolved);
        resolvable := FindResolvable(root);
      }
      return root;
    }
  }
}
