/** The error kinds the core can report, and the Option/Result wrappers the
    operations return. Only the kinds the modelled code raises are kept; the
    diagnostic decoration around them is not modelled. */
module Errors {
  import opened Encoding

  datatype Option<+T> = None | Some(value: T)

  /** The field a corrupted container was found to be missing or cut short. */
  datatype Truncation =
    | FileTooSmall(size: nat)
    | V1TooSmall(size: nat)
    | BaseChecksum
    | OutputChecksum
    | MetadataLength
    | MetadataData
    | ForwardLength
    | ForwardData
    | ReverseLength
    | ReverseData

  datatype Error =
    | CorruptedPatch(field: Truncation)
    | UnsupportedVersion(version: Byte)
    | ChecksumMismatch(expected: string, actual: string)
    | InvalidPatch
    | PatchFailed
    | DiffFailed
    | MissingReversePatch

  datatype Result<+T> = Ok(value: T) | Err(error: Error) {
    predicate IsFailure() {
      Err?
    }

    function PropagateFailure<U>(): Result<U>
      requires Err?
    {
      Err(error)
    }

    function Extract(): T
      requires Ok?
    {
      value
    }
  }

  /** The human-readable detail each corruption error carries. */
  function Details(t: Truncation): string
  {
    match t
    case FileTooSmall(n) => "file too small (" + Decimal(n) + " bytes, expected at least 13)"
    case V1TooSmall(n) => "v1 patch too small (" + Decimal(n) + " bytes, expected at least 72)"
    case BaseChecksum => "truncated base checksum"
    case OutputChecksum => "truncated output checksum"
    case MetadataLength => "truncated metadata length"
    case MetadataData => "truncated metadata"
    case ForwardLength => "truncated forward patch length"
    case ForwardData => "truncated forward patch data"
    case ReverseLength => "truncated reverse patch length"
    case ReverseData => "truncated reverse patch data"
  }
}
