/** The success-or-failure wrapper every parser in this model returns. */
module Options {

  /** A parser result: `None` is nom's `Err(Error)`, `Some` carries the parsed value. */
  datatype Option<+T> = None | Some(value: T) {

    /** nom's `alt!` between two alternatives: this one when it succeeded, else `other`. */
    function OrElse(other: Option<T>): (r: Option<T>) {
      if Some? then this else other
    }
  }
}
