/** Value types shared by every part of the model. */
module Types {

  datatype Option<T> = None | Some(value: T)

  datatype Result<T, E> = Success(value: T) | Failure(error: E)

  /** One row of a numeric matrix; double-precision entries are modelled as reals. */
  type Row = seq<real>

  /** A numeric matrix stored row by row (a design, a candidate list, a moments matrix). */
  type Matrix = seq<Row>

  /** Every way the routine can end without a result. */
  datatype Error =
    | TooFewRuns        // no more runs than parameters
    | InvalidDrawRange  // the random index generator is asked for indices in [0, -1]
    | SingularStart     // every resampled starting design was singular
    | SingularInSweep   // the inverse taken at the start of a D-sweep row failed

  /** Every row of X has exactly p columns (an Armadillo matrix is always rectangular). */
  predicate Rectangular(X: Matrix, p: nat)
  {
    forall i :: 0 <= i < |X| ==> |X[i]| == p
  }
}
