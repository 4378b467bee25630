/**
 * The cost strategies of src/utils/Cost.java. Each `d` composes the static Matrix operations
 * with a null destination, so it never writes to its arguments and performs no up-front shape
 * check: every failure is a bounds failure of `get`.
 */
module Costs {
  import opened Results
  import A = MatrixAlgebra
  import Derivatives

  datatype Cost = Quadratic | CrossEntropy

  /** Entry (i, j) of g is (out(i, j) - res(i, j)) * derivative(sum(i, j)), for every entry of out. */
  predicate IsQuadraticGradient(g: A.Mat, out: A.Mat, res: A.Mat, sum: A.Mat, derivative: real -> real)
    requires A.Covers(out, res) && A.Covers(out, sum)
  {
    A.ShapeOf(g) == A.ShapeOf(out) &&
    forall i, j :: 0 <= i < out.rows && 0 <= j < out.cols ==>
      A.Get(g, i, j) == (A.Get(out, i, j) - A.Get(res, i, j)) * derivative(A.Get(sum, i, j))
  }

  /** Entry (i, j) of g is out(i, j) - res(i, j), for every entry of out. */
  predicate IsDifference(g: A.Mat, out: A.Mat, res: A.Mat)
    requires A.Covers(out, res)
  {
    A.ShapeOf(g) == A.ShapeOf(out) &&
    forall i, j :: 0 <= i < out.rows && 0 <= j < out.cols ==> A.Get(g, i, j) == A.Get(out, i, j) - A.Get(res, i, j)
  }

  lemma QuadraticGradient(out: A.Mat, res: A.Mat, sum: A.Mat, derivative: real -> real)
    requires A.Covers(out, res)
    ensures A.Covers(out, sum) ==>
      IsQuadraticGradient(A.Hadamard(A.Minus(out, res), A.Mapped(derivative, sum)), out, res, sum, derivative)
  {
    if A.Covers(out, sum) {
      var diff, slope := A.Minus(out, res), A.Mapped(derivative, sum);
      var g := A.Hadamard(diff, slope);
      forall i, j | 0 <= i < out.rows && 0 <= j < out.cols
        ensures A.Get(g, i, j) == (A.Get(out, i, j) - A.Get(res, i, j)) * derivative(A.Get(sum, i, j))
      {
        var d, s := A.Get(out, i, j) - A.Get(res, i, j), derivative(A.Get(sum, i, j));
        assert A.Get(diff, i, j) == d;
        assert A.Get(slope, i, j) == s;
        assert A.Get(g, i, j) == A.Get(diff, i, j) * A.Get(slope, i, j);
      }
    }
  }

  /**
   * `cost.d(out, res, sum, derivative)`: QUADRATIC is pro(sub(out, res, null), vec(sum, null,
   * derivative), null) and CROSS_ENTROPY is sub(out, res, null).
   */
  function D(cost: Cost, out: A.Mat, res: A.Mat, sum: A.Mat, derivative: real -> real): (r: Result<A.Mat>)
    ensures r.Success? <==> A.Covers(out, res) && (cost.Quadratic? ==> A.Covers(out, sum))
    ensures r.Failure? ==> r.error == OutOfBound
    ensures r.Success? ==> A.ShapeOf(r.value) == A.ShapeOf(out)
    ensures r.Success? && cost.Quadratic? ==> IsQuadraticGradient(r.value, out, res, sum, derivative)
    ensures r.Success? && cost.CrossEntropy? ==> IsDifference(r.value, out, res)
  {
    match cost
    case Quadratic =>
      var diff :- A.Sub(out, res, None);
      var slope := A.Vec(sum, None, derivative).value;
      QuadraticGradient(out, res, sum, derivative);
      A.Pro(diff, slope, None)
    case CrossEntropy =>
      A.Sub(out, res, None)
  }

  /** With the identity derivative the quadratic cost gradient is the cross-entropy one. */
  lemma QuadraticWithIdentityIsCrossEntropy(out: A.Mat, res: A.Mat, sum: A.Mat)
    requires A.Covers(out, sum)
    ensures D(Quadratic, out, res, sum, Derivatives.Identity) == D(CrossEntropy, out, res, sum, Derivatives.Identity)
  {
    var q, c := D(Quadratic, out, res, sum, Derivatives.Identity), D(CrossEntropy, out, res, sum, Derivatives.Identity);
    if q.Success? {
      A.Ext(q.value, c.value);
    }
  }

  /** The cross-entropy gradient depends on neither the weighted sums nor the derivative. */
  lemma CrossEntropyIgnoresSum(out: A.Mat, res: A.Mat, sum: A.Mat, sum': A.Mat, d: real -> real, d': real -> real)
    ensures D(CrossEntropy, out, res, sum, d) == D(CrossEntropy, out, res, sum', d')
  {
  }

  /**
   * Only the shapes decide success: a target with at least out's rows and columns is accepted,
   * extra rows and columns are ignored, and a smaller one fails on bounds.
   */
  lemma LargerTargetAccepted(cost: Cost, out: A.Mat, res: A.Mat, sum: A.Mat, d: real -> real)
    requires out.rows <= res.rows && out.cols <= res.cols && A.ShapeOf(sum) == A.ShapeOf(out)
    ensures D(cost, out, res, sum, d).Success?
  {
  }

  lemma SmallerTargetRejected(cost: Cost, out: A.Mat, res: A.Mat, sum: A.Mat, d: real -> real)
    requires out.rows > 0 && out.cols > 0 && (res.rows < out.rows || res.cols < out.cols)
    ensures D(cost, out, res, sum, d) == Failure(OutOfBound)
  {
  }
}
