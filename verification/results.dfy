/** Outcomes shared by the whole model: an optional value, the exceptions the
    Python code lets escape, and a result that is either a value or one of them. */
module Results {

  /** `None` stands for Python's `None` (or an unset key / unbound local). */
  datatype Option<+T> = None | Some(value: T)

  /** The exceptions the modelled code raises and does not catch itself. */
  datatype Error =
    | ValueError(message: string)
    | KeyError(key: string)
    | UnboundLocal(name: string)   // UnboundLocalError: a local read before it was assigned
    | IndexError

  datatype Result<+T> = Ok(value: T) | Err(error: Error)

  /** The list held by an optional list, `[]` for `None`. */
  function OrEmpty<T>(o: Option<seq<T>>): seq<T>
  {
    match o
    case None => []
    case Some(xs) => xs
  }

  /** Python truthiness of an optional list: present and non-empty. */
  predicate Truthy<T>(o: Option<seq<T>>)
  {
    o.Some? && |o.value| > 0
  }
}
