/** Small wrappers shared by the validators, the records and the services. */
module Common {

  /** A value that may be absent (Python `None`). */
  datatype Option<T> = None | Some(value: T) {
    function GetOr(default: T): T {
      match this
      case Some(v) => v
      case None => default
    }
  }

  /**
   * The outcome of running a schema's field validators: either the validated
   * value, or the list of fields whose validator raised, in the order the
   * schema declares its fields.
   */
  datatype Validated<T, F> = Accepted(value: T) | Rejected(fields: seq<F>)

  /** The singleton list `[f]` when field `f`'s validator raised, else nothing. */
  function Failing<F(==,!new)>(f: F, failed: bool): (r: seq<F>)
    ensures forall g :: g in r <==> failed && g == f
  {
    if failed then [f] else []
  }
}
