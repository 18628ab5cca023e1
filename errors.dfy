/** The errors the build core returns, in place of Go's `error` values. */
module Errors {
  import opened Bytes

  datatype Error =
    /** An error from I/O, a subprocess or a library this model leaves out. */
    | External(message: string)
    /** oneLine: the output was empty. */
    | MustNotBeEmpty
    /** oneLine: the output did not end in a newline; carries the output. */
    | MustEndInNewline(output: Bytes)
    /** oneLine: the output held more than one line; carries it without its final newline. */
    | MustBeSingleLine(output: Bytes)
    /** markdown: the input has no newline, so no title line can be split off. */
    | MarkdownHasNoContent
    /** markdown: the rendered title could not be parsed back as HTML. */
    | CannotParseGeneratedHtml(cause: Error)
    /** markdown: the rendered title does not start with an `<h1>` element. */
    | DoesNotStartWithHeader
    /** processFile: a converter failed on `path`. */
    | BuildFailed(path: string, cause: Error)

  datatype Result<T> = Ok(value: T) | Err(error: Error)

  /** A Go `error` that may be nil. */
  datatype Option<T> = None | Some(value: T)
}
