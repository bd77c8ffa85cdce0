/** Optional values and the Python exceptions the analysis scripts can raise.

    A Python function that raises is modelled as returning `Raised(e)`; one
    that returns normally as `Ok(v)`. Only the exception kinds the modelled
    code can actually raise are listed. */
module Outcomes {

  /** Python's `Optional[T]`: `None` or a value. */
  datatype Option<+T> = None | Some(value: T)

  /** The built-in exceptions raised by the modelled code. */
  datatype PyException =
    | KeyError           // a dictionary key that is not there
    | TypeError          // `int(None)`, `float / None`, `np.polyfit` on an empty vector
    | IndexError         // a list index past the end
    | ZeroDivisionError  // float division by zero
    | UnboundLocalError  // a local variable read before it was assigned

  /** The outcome of calling a Python function: its return value, or the exception it raised. */
  datatype Outcome<+T> = Ok(value: T) | Raised(error: PyException)
}
