/** Failure-carrying values shared by every decoder and by the guest reader.

  - `Result` stands for Rust's `Result<T, E>`;
  - `Nom` stands for a nom parser result: either the unconsumed input and the
    parsed value, or a parse failure (nom's complete parsers fail only when the
    input runs out);
  - `Outcome` stands for `io::Result<()>`.
 */
module Results {

  import opened Bytes

  datatype Result<+T, +E> = Ok(value: T) | Err(error: E) {

    predicate IsFailure() {
      Err?
    }

    function PropagateFailure<U>(): Result<U, E>
      requires Err?
    {
      Err(error)
    }

    function Extract(): T
      requires Ok?
    {
      value
    }

    /** Rust's `unwrap_or_default`/`unwrap_or`. */
    function GetOr(default: T): T {
      if Ok? then value else default
    }
  }

  datatype Nom<+T> = Done(rest: seq<byte>, value: T) | Failed

  datatype Outcome<+E> = Pass | Fail(error: E)

  datatype Option<+T> = Nothing | Some(value: T)

  /** The crate's error enumeration (src/error.rs). */
  datatype CalfError =
    | Header
    | HeaderExtensionFeatures
    | HeaderExtensions
    | Level
    | SeekFile
    | ReadFile
    | ParseMbr
    | ExtendedPartition

  /** The `io::ErrorKind`s the guest reader produces. */
  datatype IoError = UnexpectedEof | NotFound | InvalidInput
}
