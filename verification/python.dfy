/** The slice of Python's dynamic value world that the toolkit's argument
    checks can observe, and the two exceptions those checks raise. */
module Python {

  /** A Python argument value, as far as `isinstance` and `len` can tell it
      apart. `Int` also stands for `bool`, which Python treats as an `int`;
      `Other` is a value of any type that is none of these (not a float:
      floats are not part of the model). */
  datatype Value =
    | Str(s: string)
    | Int(i: int)
    | List(items: seq<Value>)
    | Tuple(items: seq<Value>)
    | Other
  {
    /** True for the values accepted by `isinstance(v, (list, tuple))`. */
    predicate IsListOrTuple() {
      List? || Tuple?
    }
  }

  /** The built-in exceptions the toolkit raises, with their messages. */
  datatype Exception =
    | TypeError(message: string)
    | ValueError(message: string)

  /** The outcome of a Python call: a returned value or a raised exception. */
  datatype Result<+T> = Ok(value: T) | Raise(exc: Exception)
}
