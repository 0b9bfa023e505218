/** The binary delta engine and the hasher, which are foreign code: the
    engine's diff, its header check and its patch run, and the 64-bit hash,
    are carried as functions, and only the way their failures are reported
    is modelled. */
module Delta {
  import opened Encoding
  import opened Errors
  import opened Digests

  /** A buffer whose length fits the 64-bit length fields of a container. */
  type Blob = s: seq<Byte> | |s| < TWO_64

  datatype Engine = Engine(
    diff: (seq<Byte>, seq<Byte>) -> Option<Blob>,
    valid: seq<Byte> -> bool,
    run: (seq<Byte>, seq<Byte>) -> Option<seq<Byte>>,
    hasher: Hasher)

  /** A delta taking `base` to `target`; a failing engine is `DiffFailed`. */
  function Create(e: Engine, base: seq<Byte>, target: seq<Byte>): (r: Result<Blob>)
    ensures r.Ok? <==> e.diff(base, target).Some?
    ensures r.Ok? ==> r.value == e.diff(base, target).value
    ensures r.Err? ==> r.error == DiffFailed
  {
    match e.diff(base, target)
    case Some(d) => Ok(d)
    case None => Err(DiffFailed)
  }

  /** Applies a delta: a delta whose header the engine rejects is
      `InvalidPatch` and nothing is run; a run that fails is `PatchFailed`. */
  function ApplyPatch(e: Engine, base: seq<Byte>, delta: seq<Byte>): (r: Result<seq<Byte>>)
    ensures !e.valid(delta) ==> r == Err(InvalidPatch)
    ensures e.valid(delta) && e.run(base, delta).None? ==> r == Err(PatchFailed)
    ensures r.Ok? <==> e.valid(delta) && e.run(base, delta).Some?
    ensures r.Ok? ==> r.value == e.run(base, delta).value
  {
    if !e.valid(delta) then Err(InvalidPatch)
    else match e.run(base, delta)
      case Some(out) => Ok(out)
      case None => Err(PatchFailed)
  }
}
