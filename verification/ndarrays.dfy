/** Values that flow through the nearest-neighbour ABC algorithms: numeric arrays of rank 0, 1
    or 2, the error conditions the algorithms raise, and the result wrapper that carries them. */
module NdArrays {

  /** One observation or one reference-table row: a vector of feature (or parameter) values. */
  type Row = seq<real>

  /** A numeric array as the algorithms receive it. A `Matrix` keeps its column count
      explicitly so that a table with no rows still has a width. */
  datatype Array =
    | Scalar(x: real)
    | Vector(v: Row)
    | Matrix(rows: seq<Row>, width: nat)
  {
    /** Number of dimensions, as `ndarray.ndim` reports it. */
    function Ndim(): (d: nat)
      ensures d <= 2
      ensures d == 2 <==> Matrix?
    {
      match this
      case Scalar(_) => 0
      case Vector(_) => 1
      case Matrix(_, _) => 2
    }
  }

  /** Every row of `rows` has exactly `width` entries. */
  predicate Rectangular(rows: seq<Row>, width: nat) {
    forall i :: 0 <= i < |rows| ==> |rows[i]| == width
  }

  /** An array as numpy holds it: a matrix is always rectangular. */
  type NdArray = a: Array | a.Matrix? ==> Rectangular(a.rows, a.width) witness Scalar(0.0)

  /** `np.atleast_2d`: a scalar becomes a 1x1 matrix, a vector a single-row matrix, and a
      matrix is left as it is. */
  function AtLeast2d(a: NdArray): (m: NdArray)
    ensures m.Matrix?
    ensures a.Matrix? ==> m == a
    ensures a.Vector? ==> m.rows == [a.v]
    ensures a.Scalar? ==> m.rows == [[a.x]]
  {
    match a
    case Scalar(x) => Matrix([[x]], 1)
    case Vector(v) => Matrix([v], |v|)
    case Matrix(_, _) => a
  }

  /** The error conditions raised by the algorithms (failed assertions, index and value
      errors, not-implemented hooks). */
  datatype Error =
    | DataNotTwoDimensional       // assertion on the training features' rank
    | ParamsNotTwoDimensional     // assertion on the training parameters' rank
    | RowCountMismatch            // assertion that features and parameters have as many rows
    | QueryNotTwoDimensional      // a query that must already be a matrix is not one
    | QueryHasNoRows              // the scaler's transform refuses a query with no observation
    | QueryWidthMismatch          // query columns differ from the reference table's
    | NumSamplesNotPositive       // the spatial index refuses fewer than one neighbour
    | TooFewReferenceRows         // more neighbours requested than the table has rows
    | LossNotImplemented          // the base subset-selection class has no loss
    | CompressorNotSupported      // subset selection offers no closed-form compressor
    | CompressorDataNotNone       // a static compressor was asked for one with data
    | RegressionInputInvalid      // the regression fit's input validation refuses its tables

  datatype Result<+T> = Ok(value: T) | Err(error: Error)

  datatype Option<+T> = None | Some(value: T)
}
