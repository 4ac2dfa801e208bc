/** Errors and cursor arithmetic common to every virtual stream. */
module Io {
  import opened Wrappers

  datatype IoError =
    | NoSpace | InvalidInput | NotFound | PermissionDenied | AlreadyExists
    | IsADirectory | NotADirectory | DirectoryNotEmpty | SourceFailure

  datatype SeekFrom = Start(off: nat) | End(delta: int) | Current(delta: int)

  /** Where a seek lands: never before the start and never past a 64-bit offset. */
  function SeekTarget(size: nat, pos: nat, from: SeekFrom): (r: Result<nat, IoError>)
    ensures r.Ok? ==> r.value <= U64_MAX
  {
    var target := match from
      case Start(off) => off
      case End(d) => size + d
      case Current(d) => pos + d;
    if 0 <= target <= U64_MAX then Ok(target) else Err(InvalidInput)
  }
}
