/** Result types and the errors of the format layer. */
module Wrappers {
  import opened Bytes

  datatype Option<+T> = None | Some(value: T)

  /** The error cases of the format layer that the modelled operations can produce.
      Panic stands for a slice panic of the original; range reads and shrinking
      truncates can only meet it on a file whose cells were damaged by an earlier I/O
      failure. */
  datatype FormatError =
    | Io
    | Crypto
    | BadManifest(why: string)
    | InvalidChunk(index: nat)
    | Full
    | FileNotFound(name: seq<Byte>)
    | InvalidName
    | AlreadyExists(name: seq<Byte>)
    | Overflow
    | SessionPoisoned
    | ManifestOverflow
    | CounterRollback(expected: nat, actual: nat)
    | HardwareKeyRequired
    | Panic

  /** What a parser says of a buffer it rejects. */
  predicate Malformed(e: FormatError) {
    e == InvalidName || e.BadManifest?
  }

  datatype Result<+T> = Success(value: T) | Failure(error: FormatError)
}
