/** Values the login backend passes around that Python expresses with `None`
    and exceptions: an optional value, and the outcome of a call that either
    returns or raises. */
module Outcomes {

  /** Python's `None` versus a present value. */
  datatype Option<+T> = None | Some(value: T)

  /** The exceptions that the modelled code raises or lets escape. */
  datatype Exception =
    | ValueError      // errors.py: a code that is not in the catalogue
    | TypeError       // api.py: `len(None)` on a missing password
    | AttributeError  // api.py: `None.get(...)` on a missing request
    | DatabaseError   // db_interface.py: a failing commit, re-raised by session_scope

  /** A call either returns a value or raises an exception. */
  datatype Outcome<+T> = Returned(value: T) | Raised(exc: Exception)
}
