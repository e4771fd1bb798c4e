/** Failure-carrying values shared by every part of the model.  The Python
    source signals failure by raising; here each raise becomes an `Err`. */
module Results {

  datatype Option<+T> = None | Some(value: T) {
    function GetOr(default: T): T {
      match this
      case Some(v) => v
      case None => default
    }
  }

  /** The exceptions the source can raise on the paths that are modelled. */
  datatype Failure =
    | FetchFailed              // the HTTP request or its JSON decoding failed
    | MissingKey(key: string)  // `info["..."]` on a dict without that key
    | IndexOutOfRange          // `xs[i]` past the end of a list or string
    | DuplicateKey             // a PRIMARY KEY constraint violation
    | NoSuchRow                // `fetchone()` returned None and was subscripted
    | NoOpenTile               // an entry appended while no group tile exists

  datatype Result<+T> = Ok(value: T) | Err(failure: Failure)
}
