/** Failure-compatible wrappers shared by the whole model: an optional value
    (the source's `x ?? default` parameters) and a result that carries either
    a value or one of the errors the tensor code throws. */
module Wrappers {

  datatype Option<+T> = None | Some(value: T) {

    /** The value, or `default` when absent (JavaScript's `??`). */
    function GetOr(default: T): T {
      match this
      case Some(v) => v
      case None => default
    }
  }

  /** The synchronous failures of the tensor code, one variant per `throw`. */
  datatype Error =
    | EmptyDims                                  // constructor with `dims.length === 0`
    | ArityMismatch(expected: nat, received: nat)  // coordinate count differs from the rank
    | OutOfBounds(index: int, size: nat)         // a coordinate outside `[0, dims[axis])`
    | NotLastAxisRow                             // `vrow` prefix of the wrong length
    | AxisOutOfRange(axis: int, rank: nat)       // `slice` on a missing axis
    | ZeroStep                                   // `slice` with `step === 0`
    | NotMatrix                                  // matrix product on a non rank-2 operand
    | InnerMismatch(left: nat, right: nat)       // matrix product with `a.dims[1] !== b.dims[0]`
    | MissingRowSum                              // `normalize` finds no sum for a group

  datatype Result<+T> = Ok(value: T) | Err(error: Error) {

    predicate IsFailure() {
      Err?
    }

    function PropagateFailure<U>(): Result<U>
      requires Err?
    {
      Err(error)
    }

    function Extract(): T
      requires Ok?
    {
      value
    }
  }
}
