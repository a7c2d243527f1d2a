# Linear algebra engine — a verified model

This project models the core of a small Java linear algebra engine. The engine takes an expression tree whose leaves are matrices and whose inner nodes are ADD, MULTIPLY, NEGATE or TRANSPOSE. It reduces the tree one operation at a time, and each operation is computed row by row:

- The engine loads the operands into two scratch matrices: the left operand row-major (column-major for a transpose) and the right operand row-major.
- It builds one task per row of the left matrix and hands the batch to a worker pool.
- Each task mutates its own row vector in place: it adds the right row, multiplies by the right matrix, negates, or flips the orientation tag.
- The engine reads the left matrix back row-major and rewrites the operation node as a literal holding that result.

The model has five modules plus a scenarios file:

- `Outcomes`: the exceptions the core throws, as values.
  - `DimensionMismatch` stands for the IllegalArgumentException thrown when two lengths differ.
  - `IndexOutOfBounds` stands for an array index error. It arises from reading row 0 of an empty matrix, from reading past the end of a short row, or from readRowMajor writing past the end of a result row when a row is longer than row 0.
- `LinearAlgebra`: reference definitions over exact reals and the algebraic facts the engine relies on.
  - Definitions: vector add, negate, inner product, row times matrix, matrix product, transpose, identity.
  - Facts: identity laws, double negation, double transpose, commutativity of the inner product.
- `Memory`: `SharedVector` and `SharedMatrix` as classes whose fields the methods update in place.
  - A vector's elements are a `seq<real>` field, reassigned by its methods.
  - A matrix holds a `seq<SharedVector>` of row objects.
  - `Rows()` and `Orientations()` give its abstract contents.
  - `Valid()` says the row objects are distinct, so mutating one row leaves the others alone.
- `Computation`: a minimal stand-in for the expression tree, as a datatype.
  - `Evaluate` gives a tree's value.
  - `FindResolvable` gives the path to the next node to compute.
  - `Replace` gives the tree with that node resolved.
- `Engine`: `LinearAlgebraEngine` as a class with its two scratch matrices.
  - The task lambdas are a `Task` datatype.
  - The worker pool's `submitAll` is a sequential loop over the batch.
  - `Run` is proved to return the literal holding the tree's value.
- `Scenarios`: the source's unit-test cases, stated as lemmas and small methods.

## Model

| member | source | states |
|---|---|---|
| `Memory.SharedVector.constructor` | src/main/java/memory/SharedVector.java:11-15 | the vector holds the given elements and orientation |
| `Memory.FlippedTwice` | src/main/java/memory/SharedVector.java:69-80 | flipping an orientation always changes it, and flipping twice restores it |
| `Memory.SharedVector.Get` | src/main/java/memory/SharedVector.java:17-25 | the element at an in-range index; the requires stands for the source's index error, and every caller checks the index first (`DotColumn`, `ReadRowMajor`) |
| `Memory.SharedVector.Length` | src/main/java/memory/SharedVector.java:27-35 | the number of elements |
| `Memory.SharedVector.GetOrientation` | src/main/java/memory/SharedVector.java:37-45 | the vector's orientation tag |
| `Memory.SharedVector.Transpose` | src/main/java/memory/SharedVector.java:69-80 | row-major becomes column-major and back; the elements are unchanged |
| `Memory.SharedVector.Add` | src/main/java/memory/SharedVector.java:82-96 | on a length mismatch it fails with DimensionMismatch and changes nothing; otherwise the vector becomes the element-wise sum, which is the doubled vector when `other` is this vector itself; the orientation is kept |
| `Memory.SharedVector.Negate` | src/main/java/memory/SharedVector.java:98-108 | every element is replaced by its negation; the orientation is kept |
| `Memory.SharedVector.Dot` | src/main/java/memory/SharedVector.java:110-127 | fails with DimensionMismatch exactly when the lengths differ, and otherwise returns the inner product; nothing is modified |
| `Memory.SharedVector.DotColumn` | src/main/java/memory/SharedVector.java:137-143 | the column walk of vecMatMul: the inner product with column i when every row has an element i, and an index error when some row is too short |
| `Memory.SharedVector.VecMatMul` | src/main/java/memory/SharedVector.java:129-149 | error order as in the source: DimensionMismatch on a length mismatch, then an index error for an empty matrix or a row shorter than row 0, each leaving the vector unchanged; otherwise the vector becomes the row-times-matrix product and takes the matrix's width |
| `Memory.SharedMatrix.constructor` | src/main/java/memory/SharedMatrix.java:7-11 | an empty matrix: no rows, length 0, orientation null (None) |
| `Memory.SharedMatrix.FromArray` | src/main/java/memory/SharedMatrix.java:13-23 | the matrix holds fresh, distinct row-major copies of the given rows |
| `Memory.SharedMatrix.Get` | src/main/java/memory/SharedMatrix.java:64-67 | for an in-range index, the row object at that index itself, which the tasks then mutate in place; it holds that row's contents and orientation; the requires stands for the source's index error, and the engine's tasks only index rows that exist |
| `Memory.SharedMatrix.Length` | src/main/java/memory/SharedMatrix.java:69-72 | the number of rows |
| `Memory.SharedMatrix.GetOrientation` | src/main/java/memory/SharedMatrix.java:74-80 | row 0's orientation, and None (Java's null) for an empty matrix |
| `Memory.SharedMatrix.LoadRowMajor` | src/main/java/memory/SharedMatrix.java:25-36 | the old rows are discarded; the new rows are fresh, distinct, row-major and equal to the input rows, ragged or not; the orientation is null exactly for an empty input |
| `Memory.SharedMatrix.LoadColumnMajor` | src/main/java/memory/SharedMatrix.java:38-48 | an empty input fails with an index error and leaves the rows as they were; otherwise the rows become the columns of the input, i.e. its transpose, fresh, distinct and column-major |
| `Memory.SharedMatrix.ReadRowMajor` | src/main/java/memory/SharedMatrix.java:50-62 | returns `Snapshot(Rows())`: empty for no rows; otherwise an array as wide as row 0, where shorter rows are zero-padded and a longer row is an index error; nothing is modified |
| `Memory.SnapshotOfRectangular` | src/main/java/memory/SharedMatrix.java:50-62 | reading back a rectangular matrix returns exactly its rows |
| `Scenarios.ReadBackAfterLoad` | src/test/java/memory/SharedMatrixTest.java:95-120 | load then read returns the matrix for every rectangular input, and the padded or rejected snapshot for a ragged one |
| `Scenarios.ReadBackAfterColumnLoad` | src/test/java/memory/SharedMatrixTest.java:76-90 | loading column-major succeeds on a non-empty input, and reading row-major then gives the transpose; on an empty input the load fails with an index error, and the read gives the empty matrix |
| `LinearAlgebra.InnerProductCommutes` | src/main/java/memory/SharedVector.java:110-127 | the inner product does not depend on the order of its operands |
| `LinearAlgebra.InnerProductSelects` | src/main/java/memory/SharedVector.java:137-143 | the inner product with a unit vector picks out one element |
| `LinearAlgebra.VecMatIdentity` | src/main/java/memory/SharedVector.java:129-149 | a row vector times the identity is the same vector |
| `LinearAlgebra.MatMulIdentity` | src/test/java/spl/lae/LinearAlgebraEngineTest.java:92-111 | a rectangular matrix times the identity of its width is itself |
| `LinearAlgebra.VecNegTwice` | src/main/java/memory/SharedVector.java:98-108 | negating twice restores every element |
| `LinearAlgebra.NegationDistributesOverAdd` | src/test/java/spl/lae/LinearAlgebraEngineTest.java:189-206 | -(A + B) equals (-A) + (-B) |
| `LinearAlgebra.MatMul` | src/main/java/spl/lae/LinearAlgebraEngine.java:83-95 | the product of an m-row matrix has m rows, is rectangular, and has the right operand's width |
| `LinearAlgebra.Transposed` | src/main/java/memory/SharedMatrix.java:38-48 | the transpose has as many rows as the operand has columns; it is rectangular, and each of its rows is as long as the operand has rows |
| `LinearAlgebra.TransposedAt` | src/main/java/memory/SharedMatrix.java:41-46 | element (j, i) of the transpose is element (i, j) of the operand |
| `LinearAlgebra.TransposedTwice` | src/main/java/memory/SharedMatrix.java:38-48 | transposing a non-degenerate rectangular matrix twice gives it back |
| `Computation.Evaluate` | src/main/java/spl/lae/LinearAlgebraEngine.java:37-66 | every value a tree has is a rectangular matrix |
| `Computation.Replace` | src/test/java/parser/ComputationNodeTest.java:152-166 | resolving the node at a path leaves a tree with the given literal at that path; the root keeps its kind, its number of children and every child off the path |
| `Computation.ReplaceAbove` | src/test/java/parser/ComputationNodeTest.java:152-166 | for every depth k along the path, the node k steps down becomes that same node with the rest of the path resolved, so every ancestor of the resolved node keeps its kind, its arity and its children off the path |
| `Computation.ReplaceElsewhere` | src/test/java/parser/ComputationNodeTest.java:152-166 | resolving one node leaves every node outside it unchanged: each path that diverges from the resolved one still leads to the same subtree |
| `Computation.FindResolvable` | src/test/java/parser/ComputationNodeTest.java:72-101 | None exactly for a literal; otherwise a valid path to an operation all of whose children are literals |
| `Computation.FindResolvableIsLeftmost` | src/test/java/parser/ComputationNodeTest.java:90-101 | whenever the tree has a resolvable node at some path q, the search returns a path that comes no later than q in left-to-right depth-first order, so it finds the leftmost resolvable node |
| `Computation.OpCountReplace` | src/main/java/spl/lae/LinearAlgebraEngine.java:23-27 | resolving a node changes the operation count by the difference, which is what makes the reduction loop terminate |
| `Computation.EvaluateAt` | src/main/java/spl/lae/LinearAlgebraEngine.java:23-27 | every subtree of a tree that has a value has a value |
| `Computation.ReplacePreservesEvaluate` | src/main/java/spl/lae/LinearAlgebraEngine.java:23-27 | replacing a node by a literal holding its value leaves the whole tree's value unchanged |
| `Engine.LinearAlgebraEngine.constructor` | src/main/java/spl/lae/LinearAlgebraEngine.java:12-19 | two distinct, empty scratch matrices |
| `Engine.LinearAlgebraEngine.CreateAddTasks` | src/main/java/spl/lae/LinearAlgebraEngine.java:68-81 | one addition task per left row, task i for row i |
| `Engine.LinearAlgebraEngine.CreateMultiplyTasks` | src/main/java/spl/lae/LinearAlgebraEngine.java:83-95 | one row-times-matrix task per left row, task i for row i |
| `Engine.LinearAlgebraEngine.CreateNegateTasks` | src/main/java/spl/lae/LinearAlgebraEngine.java:97-109 | one negation task per left row, task i for row i |
| `Engine.LinearAlgebraEngine.CreateTransposeTasks` | src/main/java/spl/lae/LinearAlgebraEngine.java:111-123 | one orientation-flip task per left row, task i for row i |
| `Engine.AddBatch` | src/main/java/spl/lae/LinearAlgebraEngine.java:68-81 | on two row-major operands of the same shape, the addition batch leaves the left matrix holding their sum, all rows row-major |
| `Engine.MultiplyBatch` | src/main/java/spl/lae/LinearAlgebraEngine.java:83-95 | on compatible operands, the multiplication batch leaves the left matrix holding the matrix product |
| `Engine.NegateBatch` | src/main/java/spl/lae/LinearAlgebraEngine.java:97-109 | the negation batch leaves the left matrix holding the negated operand, whatever the right matrix holds |
| `Engine.TransposeBatch` | src/main/java/spl/lae/LinearAlgebraEngine.java:111-123 | after a column-major load, flipping every row leaves the left matrix holding the transpose, all rows row-major |
| `Engine.LinearAlgebraEngine.Execute` | src/main/java/spl/lae/LinearAlgebraEngine.java:68-123 | a task changes its own left row, as the row operation it names, and nothing else |
| `Engine.LinearAlgebraEngine.SubmitAll` | src/main/java/scheduling/TiredExecutor.java:47-56 | after the batch, the left rows are `BatchRows` of the rows before it and the orientations are `BatchTags`; the right matrix is unchanged |
| `Engine.LinearAlgebraEngine.LoadOperands` | src/main/java/spl/lae/LinearAlgebraEngine.java:40-45 | the left operand is loaded row-major unless the node is a transpose; the right operand is loaded row-major when there is one, and the right scratch matrix is left untouched when there is not; no row object is shared |
| `Engine.LinearAlgebraEngine.CreateTasks` | src/main/java/spl/lae/LinearAlgebraEngine.java:46-63 | the batch built for the node's operation, run on the loaded operands, yields the node's value |
| `Engine.LinearAlgebraEngine.StageTranspose` | src/main/java/spl/lae/LinearAlgebraEngine.java:57-59 | a transpose loads its operand column-major, and its batch then yields the transpose |
| `Engine.LinearAlgebraEngine.LoadAndCompute` | src/main/java/spl/lae/LinearAlgebraEngine.java:37-66 | after one node is computed, the left matrix holds the node's value, all rows row-major, and the node resolves to that value as read back; the right scratch matrix holds the second operand, or is left untouched for a one-operand node |
| `Engine.LinearAlgebraEngine.Run` | src/main/java/spl/lae/LinearAlgebraEngine.java:21-35 | the loop terminates and returns the literal holding the whole tree's value |
| `Scenarios.AdditionOfTwoByTwo` | src/test/java/spl/lae/LinearAlgebraEngineTest.java:32-48 | [[1,2],[3,4]] + [[5,6],[7,8]] = [[6,8],[10,12]] |
| `Scenarios.MultiplicationOfTwoByTwo` | src/test/java/spl/lae/LinearAlgebraEngineTest.java:72-90 | [[1,2],[3,4]] * [[5,6],[7,8]] = [[19,22],[43,50]] |
| `Scenarios.MultiplicationByIdentity` | src/test/java/spl/lae/LinearAlgebraEngineTest.java:92-111 | the 2x3 operand times the 3x3 identity is itself |
| `Scenarios.TransposeOfTwoByThree` | src/test/java/spl/lae/LinearAlgebraEngineTest.java:149-169 | the transpose of [[1,2,3],[4,5,6]] is [[1,4],[2,5],[3,6]] |
| `Scenarios.RunAddThenNegate` | src/test/java/spl/lae/LinearAlgebraEngineTest.java:189-206 | a fresh engine run on NEGATE(ADD(A, B)) returns the literal [[-6,-8],[-10,-12]] |
| `Scenarios.AddThenNegate` | src/test/java/spl/lae/LinearAlgebraEngineTest.java:189-206 | in NEGATE(ADD(A, B)) the addition is resolved first, and the tree's value is [[-6,-8],[-10,-12]] |

## Left out

- The worker pool (TiredExecutor, TiredThread) and all locking: a batch runs as a sequential loop, and every lock call is a no-op. Each task writes only its own row object, which `Separated()` and the matrices' `Valid()` make distinct, so the order of the tasks does not affect the result.
- The engine constructor's thread count, the executor shutdown at the end of `run`, and the null `run` returns when that shutdown is interrupted: these are executor concerns.
- getWorkerReport: it only formats the executor's timing statistics.
- Floating point: elements are exact reals, so IEEE-754 rounding, overflow to infinity and NaN are not modelled.
- Array aliasing: the SharedVector constructor keeps the caller's array, and the model stores a value copy. The core only passes it arrays it has just allocated, so nothing observable depends on this.
- The expression tree's own class, its parser and associativeNesting are not part of this model. Nodes are a datatype addressed by paths, and resolving a node rebuilds the tree along the path instead of mutating the node.
- A node type outside the four operations, the source's "Unknown operation" branch, cannot be built in the model.
- `Engine.LinearAlgebraEngine.LoadAndCompute` and `Engine.LinearAlgebraEngine.Run` require the tree to have a value: exact arities, rectangular literals and fitting shapes. On other trees the source behaves as follows, and none of it is modelled:
  - A TRANSPOSE of an empty operand throws on the calling thread when loadColumnMajor reads the operand's row 0 (src/main/java/spl/lae/LinearAlgebraEngine.java:58, src/main/java/memory/SharedMatrix.java:40), so `run` throws. So does a TRANSPOSE operand with a row shorter than its row 0 (src/main/java/memory/SharedMatrix.java:44); a longer row has its extra elements dropped.
  - If the left matrix ends up with a row longer than its row 0, readRowMajor throws on the calling thread (src/main/java/memory/SharedMatrix.java:55-58). Shorter rows are padded with zeros, and a result comes back.
  - Some misfits do not throw at all. An ADD whose left operand has fewer rows than its right operand adds only the first right rows (src/main/java/spl/lae/LinearAlgebraEngine.java:71-77). An ADD or MULTIPLY with an empty left operand builds no task and resolves to the empty matrix.
  - An ADD or MULTIPLY with one child runs against whatever the right scratch matrix still holds, and children after the second are ignored.
  - A task can throw inside a worker: on a row-length mismatch, more left rows than right rows in ADD, or a width mismatch or short right row in MULTIPLY. The row then keeps its old contents. The wrapper in src/main/java/scheduling/TiredExecutor.java:35-42 still puts the worker back in the idle queue and decrements the in-flight count, so the batch completes. The worker's thread ends with its busy flag still set (src/main/java/scheduling/TiredThread.java:96-103). A later submit that picks that worker gets an IllegalStateException (src/main/java/scheduling/TiredThread.java:60-61), and it leaves `run` on the calling thread. Which worker is picked depends on fatigue and timing.
- A race in the worker pool, even when no task fails. The wrapper's `finally` (src/main/java/scheduling/TiredExecutor.java:35-42) returns the worker to the idle queue from inside the task's run. That happens before the worker clears its busy flag (src/main/java/scheduling/TiredThread.java:96-103). In a batch with more tasks than workers, the submitting thread can take that worker back while busy is still set. Its newTask call then throws IllegalStateException (src/main/java/scheduling/TiredThread.java:60-61). The sequential batch loop of the model has no such interleaving.
- `Memory.SharedMatrix.LoadColumnMajor` requires that no row is shorter than row 0. In the source a short row throws midway, after the row array has been replaced and only partly filled with nulls, a state the model cannot represent.
- writeLock/readLock and the matrix-wide lock helpers of SharedMatrix have no counterpart, because the model is sequential.
