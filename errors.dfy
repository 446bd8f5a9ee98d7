/** The errors of pkg/parser/errors.go, the two formatted errors of
    pkg/parser/api_wrapper.go, and the ways a handler call can end. */
module ParseErrors {
  import opened Wrappers

  datatype ParseError =
    | InvalidModuleDeclaration      // declared, never returned
    | InvalidGoVersion              // declared, never returned
    | InvalidRequire
    | InvalidReplace
    | InvalidExclude
    | InvalidRetract
    | UnrecognizedLine(line: string)  // "unrecognized line format: <line>"
    | UnknownBlockType(kind: string)  // "unknown block type: <kind>"

  /** Why a handler call does not complete: it returns an error value, or
      Go raises its run-time panic for an index out of range. */
  datatype Halt = Error(err: ParseError) | IndexPanic

  /** What a block-line handler does with one line: append one entry,
      accept the line and append nothing, or stop. */
  datatype LineOutcome<T> = Add(entry: T) | Skip | Stop(halt: Halt)

  /** The entries an outcome appends. */
  function Added<T>(o: LineOutcome<T>): seq<T> {
    if o.Add? then [o.entry] else []
  }

  /** The handler's error return: None for success, or why it stopped. */
  function HaltOf<T>(o: LineOutcome<T>): Option<Halt> {
    if o.Stop? then Some(o.halt) else None
  }

  /** Why a whole parse gives no module: the 1-based number of the offending
      line ("line N: <err>"), and what stopped its handler. */
  datatype LineFailure = LineFailure(line: nat, halt: Halt)
}
