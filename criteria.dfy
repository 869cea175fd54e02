/**
 * The three optimality criteria. The symmetric positive-definite inverse is
 * an uninterpreted parameter `invSympd`: it returns None exactly when the
 * library would report the matrix as singular (or not positive definite).
 */
module Criteria {
  import opened Types
  import opened LinearAlgebra

  /** The information matrix X^T X of X can be inverted. */
  predicate Invertible(X: Matrix, p: nat, invSympd: Matrix -> Option<Matrix>)
  {
    invSympd(Gram(X, p)).Some?
  }

  /**
   * The D-criterion exchange function: with V the inverse information
   * matrix, the gain of replacing design row x by candidate row y.
   * Putting a row back in place of itself gains nothing.
   */
  function Delta(V: Matrix, x: Row, y: Row): (d: real)
    ensures x == y ==> d == 0.0
  {
    - Form(V, x, x) + Form(V, y, y)
    + Form(V, y, x) * Form(V, y, x) - Form(V, x, x) * Form(V, y, y)
  }

  /**
   * The same gain written as (1 + d(y)) (1 - d(x)) + d(y, x)^2 - 1,
   * the usual form of Fedorov's exchange function.
   */
  lemma DeltaIsFedorovIncrement(V: Matrix, x: Row, y: Row)
    ensures Delta(V, x, y)
            == (1.0 + Form(V, y, y)) * (1.0 - Form(V, x, x)) + Form(V, y, x) * Form(V, y, x) - 1.0
  {
    var dx, dy, dyx := Form(V, x, x), Form(V, y, y), Form(V, y, x);
    assert (1.0 + dy) * (1.0 - dx) == 1.0 - dx + dy - dx * dy;
  }

  /** I-criterion trace((X^T X)^-1 M); None when X^T X is singular. */
  function IVariance(X: Matrix, moments: Matrix, p: nat, invSympd: Matrix -> Option<Matrix>): (v: Option<real>)
    ensures v.Some? <==> Invertible(X, p, invSympd)
  {
    match invSympd(Gram(X, p))
    case None => None
    case Some(V) => Some(Trace(Mul(V, moments, p), p))
  }

  /** A-criterion trace((X^T X)^-1); None when X^T X is singular. */
  function AVariance(X: Matrix, p: nat, invSympd: Matrix -> Option<Matrix>): (v: Option<real>)
    ensures v.Some? <==> Invertible(X, p, invSympd)
  {
    match invSympd(Gram(X, p))
    case None => None
    case Some(V) => Some(Trace(V, p))
  }

  /** The A-criterion is the I-criterion with the identity as moments matrix. */
  lemma AVarianceIsUnweightedIVariance(X: Matrix, p: nat, invSympd: Matrix -> Option<Matrix>)
    ensures AVariance(X, p, invSympd) == IVariance(X, Identity(p), p, invSympd)
  {
    match invSympd(Gram(X, p))
    case None =>
    case Some(V) => TraceOfProductWithIdentity(V, p);
  }

  /** The two variance criteria the I and A sweeps minimise. */
  datatype Objective = IOptimality(moments: Matrix) | AOptimality

  function Variance(obj: Objective, X: Matrix, p: nat, invSympd: Matrix -> Option<Matrix>): (v: Option<real>)
    ensures v.Some? <==> Invertible(X, p, invSympd)
  {
    match obj
    case IOptimality(moments) => IVariance(X, moments, p, invSympd)
    case AOptimality => AVariance(X, p, invSympd)
  }
}
