/** Option and Result values, and the error kinds the core can report. */
module Wrappers {

  datatype Option<+T> = None | Some(value: T)

  /** The failures the core reports (src/models/error.rs and the variants used by the core's callers). */
  datatype KaguyaError =
    | Io(what: string)                  // a file system call failed
    | TomlParseError                    // the declarative config could not be parsed
    | Database(what: string)            // an index statement or transaction failed
    | QueryReturnedNoRows               // a single-row query found no row
    | DirectoryNotFound(what: string)
    | PathNotFound(what: string)
    | InvalidInput(what: string)
    | GameNotFound(id: string)
    | GameIdAlreadyExists(id: string)
    | Panic(what: string)               // `expect` or `todo!` aborts the process

  datatype Result<+T> = Ok(value: T) | Err(error: KaguyaError)

  /** `Result::ok()`: drop the error. */
  function ToOption<T>(r: Result<T>): (o: Option<T>)
    ensures o.Some? <==> r.Ok?
    ensures o.Some? ==> o.value == r.value
  {
    match r
    case Ok(v) => Some(v)
    case Err(_) => None
  }
}
