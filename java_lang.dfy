/** The few java.lang shapes the model needs: null-or-value, the two exceptions the core can
    raise, and the outcome of a call that may throw one of them. */
module JavaLang {

  datatype Option<+T> = None | Some(value: T)

  /** The unchecked exceptions that can escape the modelled code. */
  datatype JavaException =
    | IllegalArgumentException
    | StringIndexOutOfBoundsException

  /** A void call either returns normally or throws. */
  datatype Outcome = Completed | Threw(exception: JavaException)
}
