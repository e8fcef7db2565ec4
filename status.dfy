/** The status values every fallible operation of the storage layer returns.
    A status is OK or one of five error kinds, each carrying two message parts. */
module Statuses {

  /** The second message part: either literal text, or the operating system's
      description of an errno value (the text strerror would give for it). */
  datatype Detail = Text(text: string) | ErrnoText(errno: int)

  datatype Status =
    | OK
    | NotFound(msg: string, detail: Detail)
    | Corruption(msg: string, detail: Detail)
    | NotSupported(msg: string, detail: Detail)
    | InvalidArgument(msg: string, detail: Detail)
    | IOError(msg: string, detail: Detail)
  {
    predicate IsOk() { OK? }
  }
}

/** An optional value, for results the source signals with a null pointer. */
module Options {
  datatype Option<T> = None | Some(value: T)
}
