/** A minimal stand-in for the expression tree (Java's ComputationNode): a node
    is a literal matrix or an operation over child nodes. The Java nodes are
    objects rewritten in place; here a node inside a tree is addressed by the
    path of child indices leading to it, and resolving it rebuilds the tree
    along that path. */
module Computation {
  import opened Outcomes
  import opened LinearAlgebra

  /** The operation node types; a literal is the MATRIX node type. */
  datatype OpKind = Add | Multiply | Negate | Transpose

  datatype Node =
    | Matrix(matrix: Mat)
    | Op(kind: OpKind, children: seq<Node>)

  /** Child indices from the root down to a node. */
  type Path = seq<nat>

  /** The number of operands each operation takes once the tree is binary. */
  function Arity(kind: OpKind): nat
  {
    match kind
    case Add => 2
    case Multiply => 2
    case Negate => 1
    case Transpose => 1
  }

  /** The value of a tree under the standard meaning of its operators, or None
      when an arity or a shape does not fit. A literal must be rectangular, a
      product needs a non-empty right operand and a transpose a non-empty
      operand. On a tree without a value the engine either fails or returns
      something other than the standard result; the engine's contracts cover
      only trees that have a value. */
  function Evaluate(n: Node): (r: Option<Mat>)
    ensures r.Some? ==> Rectangular(r.value)
  {
    match n
    case Matrix(m) => if Rectangular(m) then Some(m) else None
    case Op(kind, cs) =>
      if |cs| != Arity(kind) then None
      else
        match Evaluate(cs[0])
        case None => None
        case Some(a) =>
          match kind
          case Negate => Some(MatNeg(a))
          case Transpose =>
            if |a| > 0 then (RectangularHasNoShortRows(a); Some(Transposed(a))) else None
          case Add =>
            (match Evaluate(cs[1])
             case None => None
             case Some(b) =>
               if |a| == |b| && Width(a) == Width(b) then Some(MatAdd(a, b)) else None)
          case Multiply =>
            (match Evaluate(cs[1])
             case None => None
             case Some(b) =>
               if Width(a) == |b| && |b| > 0
               then (RectangularHasNoShortRows(b); Some(MatMul(a, b)))
               else None)
  }

  /** An operation whose operands are all literals: the next thing to compute. */
  predicate Resolvable(n: Node)
  {
    n.Op? && forall i :: 0 <= i < |n.children| ==> n.children[i].Matrix?
  }

  predicate ValidPath(n: Node, p: Path)
    decreases p
  {
    p == [] || (n.Op? && p[0] < |n.children| && ValidPath(n.children[p[0]], p[1..]))
  }

  /** The node that path p leads to. */
  function At(n: Node, p: Path): Node
    requires ValidPath(n, p)
    decreases p
  {
    if p == [] then n else At(n.children[p[0]], p[1..])
  }

  /** The tree with the node at path p replaced by v. */
  function Replace(n: Node, p: Path, v: Node): (r: Node)
    requires ValidPath(n, p)
    ensures ValidPath(r, p) && At(r, p) == v
    ensures p != [] ==>
              r.Op? && r.kind == n.kind && |r.children| == |n.children| &&
              forall k :: 0 <= k < |n.children| && k != p[0] ==> r.children[k] == n.children[k]
    decreases p
  {
    if p == [] then v
    else
      var c := Replace(n.children[p[0]], p[1..], v);
      var r := Op(n.kind, n.children[p[0] := c]);
      assert r.children[p[0]] == c;
      r
  }

  /** Along the path, resolving works node by node: the node k steps down the
      path becomes that node with the rest of the path resolved, so every
      ancestor of the resolved node keeps its kind and its other children. */
  lemma {:induction false} ReplaceAbove(n: Node, p: Path, v: Node, k: nat)
    requires ValidPath(n, p) && k <= |p|
    ensures ValidPath(n, p[..k]) && ValidPath(At(n, p[..k]), p[k..])
    ensures ValidPath(Replace(n, p, v), p[..k])
    ensures At(Replace(n, p, v), p[..k]) == Replace(At(n, p[..k]), p[k..], v)
    decreases k
  {
    if k == 0 {
      assert p[..k] == [] && p[k..] == p;
    } else {
      var c := n.children[p[0]];
      var q, rest := p[1..], p[..k];
      ReplaceAbove(c, q, v, k - 1);
      assert rest[0] == p[0] && rest[1..] == q[..k - 1];
      assert p[k..] == q[k - 1..];
      assert At(n, rest) == At(c, q[..k - 1]);
      var r := Replace(n, p, v);
      assert r.children[p[0]] == Replace(c, q, v);
      assert At(r, rest) == At(Replace(c, q, v), q[..k - 1]);
    }
  }

  /** Neither path is a prefix of the other: they lead to disjoint subtrees. */
  predicate Diverge(p: Path, q: Path)
    decreases p
  {
    p != [] && q != [] && (p[0] != q[0] || Diverge(p[1..], q[1..]))
  }

  /** Replacing the node at p leaves every node off p as it was: any path that
      diverges from p still leads to the same subtree. */
  lemma {:induction false} ReplaceElsewhere(n: Node, p: Path, v: Node, q: Path)
    requires ValidPath(n, p) && ValidPath(n, q) && Diverge(p, q)
    ensures ValidPath(Replace(n, p, v), q) && At(Replace(n, p, v), q) == At(n, q)
    decreases p
  {
    var r := Replace(n, p, v);
    if p[0] == q[0] {
      ReplaceElsewhere(n.children[p[0]], p[1..], v, q[1..]);
      assert r.children[q[0]] == Replace(n.children[p[0]], p[1..], v);
    } else {
      assert r.children[q[0]] == n.children[q[0]];
    }
  }

  /** The index of the first child that is an operation, or |cs| if none is. */
  function FirstOperation(cs: seq<Node>): (i: nat)
    ensures i <= |cs|
    ensures forall j :: 0 <= j < i ==> cs[j].Matrix?
    ensures i < |cs| ==> cs[i].Op?
  {
    if cs == [] then 0
    else if cs[0].Op? then 0
    else 1 + FirstOperation(cs[1..])
  }

  /** The node to compute next, found depth first: descend into the leftmost
      child that is still an operation; a node all of whose children are
      literals is the answer. None exactly when the tree is a literal. */
  function FindResolvable(n: Node): (r: Option<Path>)
    ensures r.None? <==> n.Matrix?
    ensures r.Some? ==> ValidPath(n, r.value) && Resolvable(At(n, r.value))
  {
    match n
    case Matrix(_) => None
    case Op(_, cs) =>
      var i := FirstOperation(cs);
      if i == |cs| then Some([])
      else
        var p := FindResolvable(cs[i]).value;
        assert ([i] + p)[1..] == p;
        Some([i] + p)
  }

  /** p comes no later than q in depth-first, left-to-right order: p is a
      prefix of q, or at the first index where they differ p's is smaller. */
  predicate LexLeq(p: Path, q: Path)
    decreases p
  {
    p == [] || (q != [] && (p[0] < q[0] || (p[0] == q[0] && LexLeq(p[1..], q[1..]))))
  }

  /** A resolvable node strictly below n lies under an operation child of n. */
  lemma ResolvableUnderOperation(n: Node, q: Path)
    requires ValidPath(n, q) && Resolvable(At(n, q)) && q != []
    ensures n.children[q[0]].Op?
  {
    if q[1..] == [] {
      assert At(n, q) == n.children[q[0]];
    }
  }

  /** The node the search returns is the leftmost resolvable node: it comes no
      later than any other resolvable node of the tree. */
  lemma {:induction false} FindResolvableIsLeftmost(n: Node, q: Path)
    requires ValidPath(n, q) && Resolvable(At(n, q))
    ensures FindResolvable(n).Some? && LexLeq(FindResolvable(n).value, q)
    decreases q
  {
    var cs := n.children;
    var i := FirstOperation(cs);
    if i < |cs| {
      assert q != [];
      ResolvableUnderOperation(n, q);
      var p := FindResolvable(cs[i]).value;
      assert FindResolvable(n).value == [i] + p;
      if q[0] == i {
        FindResolvableIsLeftmost(cs[i], q[1..]);
        assert ([i] + p)[1..] == p;
      }
    }
  }

  function Sum(s: seq<nat>): nat
  {
    if s == [] then 0 else s[0] + Sum(s[1..])
  }

  /** The number of operation nodes, which every resolution step decreases. */
  function OpCount(n: Node): nat
  {
    match n
    case Matrix(_) => 0
    case Op(_, cs) => 1 + Sum(seq(|cs|, i requires 0 <= i < |cs| => OpCount(cs[i])))
  }

  lemma {:induction false} SumUpdate(s: seq<nat>, i: nat, x: nat)
    requires i < |s|
    ensures Sum(s[i := x]) == Sum(s) - s[i] + x
  {
    if i > 0 {
      assert s[i := x][1..] == s[1..][i - 1 := x];
      SumUpdate(s[1..], i - 1, x);
    }
  }

  /** Replacing a subtree changes the operation count by the difference. */
  lemma {:induction false} OpCountReplace(n: Node, p: Path, v: Node)
    requires ValidPath(n, p)
    ensures OpCount(Replace(n, p, v)) == OpCount(n) - OpCount(At(n, p)) + OpCount(v)
    decreases p
  {
    if p != [] {
      var i := p[0];
      var cs := n.children;
      var c := Replace(cs[i], p[1..], v);
      OpCountReplace(cs[i], p[1..], v);
      var counts := seq(|cs|, k requires 0 <= k < |cs| => OpCount(cs[k]));
      var cs' := cs[i := c];
      assert seq(|cs'|, k requires 0 <= k < |cs'| => OpCount(cs'[k])) == counts[i := OpCount(c)];
      SumUpdate(counts, i, OpCount(c));
    }
  }

  /** Every subtree of a tree that has a value has a value. */
  lemma {:induction false} EvaluateAt(n: Node, p: Path)
    requires ValidPath(n, p) && Evaluate(n).Some?
    ensures Evaluate(At(n, p)).Some?
    decreases p
  {
    if p != [] {
      EvaluateAt(n.children[p[0]], p[1..]);
    }
  }

  /** Replacing a subtree by one with the same value leaves the tree's value
      unchanged: resolving a node never changes the final result. */
  lemma {:induction false} ReplacePreservesEvaluate(n: Node, p: Path, v: Node)
    requires ValidPath(n, p) && Evaluate(n).Some?
    requires Evaluate(v) == Evaluate(At(n, p))
    ensures Evaluate(Replace(n, p, v)) == Evaluate(n)
    decreases p
  {
    if p != [] {
      var i := p[0];
      var cs := n.children;
      ReplacePreservesEvaluate(cs[i], p[1..], v);
      var cs' := cs[i := Replace(cs[i], p[1..], v)];
      assert forall k :: 0 <= k < |cs| ==> Evaluate(cs'[k]) == Evaluate(cs[k]);
    }
  }
}
