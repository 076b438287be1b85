/** Errors and results of the model.

    The Python code never returns error codes: a failed lookup raises.
    Each kind of exception the core can raise becomes one `Error`
    constructor, and every operation that can raise returns a `Result`.
    `Option` stands for the optional `model_rates` argument. */
module Results {

  /** Cities are opaque labels (graph node names). */
  type City = string

  datatype Option<+T> = None | Some(value: T) {
    function GetOr(default: T): T {
      match this
      case Some(v) => v
      case None => default
    }
  }

  /** The exceptions of the core. */
  datatype Error =
    | UnknownCity(city: City)    // `list.index` raises ValueError
    | NotInGraph(city: City)     // `G[city]` raises KeyError
    | StepOutOfRange(step: int)  // numpy raises IndexError (also: empty horizon)

  datatype Result<+T> = Ok(value: T) | Err(error: Error) {
    predicate IsFailure() {
      Err?
    }

    function PropagateFailure<U>(): Result<U>
      requires Err?
    {
      Err(error)
    }

    function Extract(): T
      requires Ok?
    {
      value
    }
  }
}
