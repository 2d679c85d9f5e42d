/**
 * Failure-aware results for the PROCLUS model.  The Java code signals its
 * error conditions by throwing runtime exceptions; the model returns them
 * as values instead.
 */
module Outcomes {

  /** A value that may be absent, standing for a Java reference that may be null. */
  datatype Option<+T> = None | Some(value: T)

  /** The runtime exceptions the modelled code can raise. */
  datatype Fault =
    /** `Random.nextInt(0)`: a random draw from an empty list. */
    | RandomBoundNotPositive
    /** `List.get(i)` with `i` outside the list. */
    | IndexOutOfBounds
    /** The `IllegalStateException` `run` throws when the data has fewer than `l` dimensions. */
    | IllegalState
    /**
     * `getLocalities` with a single medoid: there is no other medoid to
     * give a radius, so `assert minDist != null` fails, or, with
     * assertions disabled, the range query is handed a null radius.
     */
    | NullRadius
    /**
     * Not a Java exception: the model's bound on the number of rounds of
     * the iterative phase ran out before the stop rule ended the loop.
     */
    | FuelExhausted

  /** Either a value or the exception that aborted the computation. */
  datatype Result<+T> = Ok(value: T) | Err(fault: Fault)
}
