/**
 * The exact (real-valued) linear algebra the criteria are built from:
 * finite sums, the information matrix X^T X, products, traces and the
 * bilinear form u V w^T. Entries outside a matrix read as zero, so every
 * operation is total.
 */
module LinearAlgebra {
  import opened Types

  function At(u: Row, a: int): real
  {
    if 0 <= a < |u| then u[a] else 0.0
  }

  function Entry(A: Matrix, a: int, b: int): real
  {
    if 0 <= a < |A| then At(A[a], b) else 0.0
  }

  /** f(0) + f(1) + ... + f(n - 1) */
  function Sum(n: nat, f: nat -> real): real
  {
    if n == 0 then 0.0 else Sum(n - 1, f) + f(n - 1)
  }

  lemma {:induction false} SumPointwise(n: nat, f: nat -> real, g: nat -> real)
    requires forall k :: 0 <= k < n ==> f(k) == g(k)
    ensures Sum(n, f) == Sum(n, g)
  {
    if n > 0 {
      SumPointwise(n - 1, f, g);
    }
  }

  lemma {:induction false} SumOfZeros(n: nat, f: nat -> real)
    ensures (forall k :: 0 <= k < n ==> f(k) == 0.0) ==> Sum(n, f) == 0.0
  {
    if n > 0 {
      SumOfZeros(n - 1, f);
    }
  }

  /** A sum whose terms vanish except at index a equals its term at a. */
  lemma {:induction false} SumOfSingleTerm(n: nat, f: nat -> real, a: nat)
    requires a < n
    requires forall k :: 0 <= k < n && k != a ==> f(k) == 0.0
    ensures Sum(n, f) == f(a)
  {
    if a == n - 1 {
      SumOfZeros(n - 1, f);
    } else {
      SumOfSingleTerm(n - 1, f, a);
    }
  }

  /** The p x p information matrix X^T X of a design X with p columns. */
  function Gram(X: Matrix, p: nat): (G: Matrix)
    ensures |G| == p && Rectangular(G, p)
  {
    seq(p, a => seq(p, b => Sum(|X|, r => Entry(X, r, a) * Entry(X, r, b))))
  }

  /** X^T X is symmetric, which is what the symmetric positive-definite inverse relies on. */
  lemma GramSymmetric(X: Matrix, p: nat, a: nat, b: nat)
    requires a < p && b < p
    ensures Gram(X, p)[a][b] == Gram(X, p)[b][a]
  {
    SumPointwise(|X|, r => Entry(X, r, a) * Entry(X, r, b), r => Entry(X, r, b) * Entry(X, r, a));
  }

  /** The product A B of two p x p matrices. */
  function Mul(A: Matrix, B: Matrix, p: nat): (C: Matrix)
    ensures |C| == p && Rectangular(C, p)
  {
    seq(p, a => seq(p, b => Sum(p, k => Entry(A, a, k) * Entry(B, k, b))))
  }

  lemma {:induction false} SumNonNegative(n: nat, f: nat -> real)
    ensures (forall k :: 0 <= k < n ==> f(k) >= 0.0) ==> Sum(n, f) >= 0.0
  {
    if n > 0 {
      SumNonNegative(n - 1, f);
    }
  }

  /** The trace of a p x p matrix; a non-negative diagonal has a non-negative trace. */
  function Trace(A: Matrix, p: nat): (t: real)
    ensures (forall a :: 0 <= a < p ==> Entry(A, a, a) >= 0.0) ==> t >= 0.0
  {
    var diagonal := a => Entry(A, a, a);
    SumNonNegative(p, diagonal);
    Sum(p, diagonal)
  }

  function Identity(p: nat): (I: Matrix)
    ensures |I| == p && Rectangular(I, p)
  {
    seq(p, a => seq(p, b => if a == b then 1.0 else 0.0))
  }

  /** Weighting by the identity leaves the trace unchanged: trace(A I) == trace(A). */
  lemma {:induction false} TraceOfProductWithIdentity(A: Matrix, p: nat)
    ensures Trace(Mul(A, Identity(p), p), p) == Trace(A, p)
  {
    var P := Mul(A, Identity(p), p);
    forall a | 0 <= a < p
      ensures Entry(P, a, a) == Entry(A, a, a)
    {
      var term := k => Entry(A, a, k) * Entry(Identity(p), k, a);
      SumOfSingleTerm(p, term, a);
      assert P[a][a] == Sum(p, term);
    }
    SumPointwise(p, a => Entry(P, a, a), a => Entry(A, a, a));
  }

  /** The bilinear form q(u, w) = u V w^T of a row u, a matrix V and a row w; a zero row u gives 0. */
  function Form(V: Matrix, u: Row, w: Row): (q: real)
    ensures (forall a :: 0 <= a < |u| ==> u[a] == 0.0) ==> q == 0.0
  {
    var term := a => At(u, a) * Sum(|w|, b => Entry(V, a, b) * At(w, b));
    SumOfZeros(|u|, term);
    Sum(|u|, term)
  }
}
