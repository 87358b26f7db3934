/** Value shapes of the library's JavaScript surface. */
module Values {

  /** A value that may be missing: a store reference that may be `null`, an
      omitted option, or the result of a context lookup. */
  datatype Option<+T> = None | Some(value: T)

  /** A call that either returns normally or throws an `Error` with a message. */
  datatype Result<+T> = Ok(value: T) | Thrown(message: string)

  /** An element handle as JavaScript sees it: `undefined`, `null` or an
      element object. Element objects are truthy, both nullish values falsy. */
  datatype Nullable<+E> = Undefined | Null | Present(value: E) {
    predicate Truthy() {
      Present?
    }
  }

  /** JavaScript `a || b` on element values. */
  function Or<E>(a: Nullable<E>, b: Nullable<E>): Nullable<E> {
    if a.Truthy() then a else b
  }

  /** A destructuring default: `const { x = d } = options` keeps an explicit
      value and falls back to `d` only when the field is `undefined`. */
  function WithDefault(v: Option<bool>, d: bool): bool {
    match v
    case Some(b) => b
    case None => d
  }
}
