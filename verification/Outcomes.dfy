/** Results of the operations being modelled. */
module Outcomes {

  datatype Option<+T> = None | Some(value: T) {
    predicate IsFailure() {
      None?
    }

    function PropagateFailure<U>(): Option<U>
      requires None?
    {
      None
    }

    function Extract(): T
      requires Some?
    {
      value
    }
  }

  /** `Ok` and `Err` are the two values of a Rust `Result`; `Panic` is a run that aborts, as on an
      integer conversion that does not fit or an arithmetic overflow in checked arithmetic. */
  datatype Outcome<+T, +E> = Ok(value: T) | Err(error: E) | Panic {
    predicate IsFailure() {
      !Ok?
    }

    function PropagateFailure<U>(): Outcome<U, E>
      requires !Ok?
    {
      if Err? then Err(error) else Panic
    }

    function Extract(): T
      requires Ok?
    {
      value
    }

    /** The Rust `map_err`. */
    function MapErr<F>(wrap: E -> F): Outcome<T, F> {
      match this
      case Ok(v) => Ok(v)
      case Err(e) => Err(wrap(e))
      case Panic => Panic
    }
  }

  /** The Rust `ok_or`. */
  function OkOr<T, E>(o: Option<T>, error: E): Outcome<T, E> {
    match o
    case Some(v) => Ok(v)
    case None => Err(error)
  }
}
