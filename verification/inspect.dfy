/** The header report for a delta file: whether the engine accepts it, its
    size, the output size recorded in the engine's header, and the digests
    of the older checksum wrapper, if any. */
module Inspect {
  import opened Encoding
  import opened Errors
  import opened Digests
  import Format
  import Checksum

  datatype PatchInfo = PatchInfo(
    patchSize: nat,
    expectedOutputSize: U64,
    formatVersion: string,
    isValid: bool,
    hasChecksums: bool,
    baseChecksum: Option<string>,
    outputChecksum: Option<string>)

  /** The two's-complement value of eight little-endian bytes (an `i64`). */
  function SignedLe64(s: seq<Byte>): (v: int)
    requires |s| == 8
    ensures -(TWO_63 as int) <= v < TWO_63
  {
    Pow256Widths();
    var u := LeValue(s);
    if u >= TWO_63 then u - TWO_64 else u
  }

  /** The reinterpreting cast of a signed 64-bit value to unsigned. */
  function AsU64(x: int): (r: U64)
    requires -(TWO_63 as int) <= x < TWO_63
    ensures x >= 0 ==> r == x
    ensures x < 0 ==> r == x + TWO_64
  {
    if x < 0 then x + TWO_64 else x
  }

  /** Reading the field as signed and casting it back loses nothing: it is
      the unsigned little-endian value of the same bytes. */
  lemma SignedThenCast(s: seq<Byte>)
    requires |s| == 8
    ensures AsU64(SignedLe64(s)) == LeValue(s)
  {
    Pow256Widths();
  }

  /** The engine header's new-size field, or 0 for a delta too short to
      hold it. */
  function OutputSizeField(payload: seq<Byte>): U64
  {
    if |payload| >= 32 then AsU64(SignedLe64(payload[24..32])) else 0
  }

  function Inspect(valid: seq<Byte> -> bool, data: seq<Byte>): (r: Result<PatchInfo>)
    ensures var u := Checksum.UnwrapPatch(data).value;
      && (r.Err? <==> !valid(u.payload))
      && (r.Err? ==> r.error == InvalidPatch)
      && (r.Ok? ==>
            && r.value.isValid
            && r.value.patchSize == |data|
            && r.value.expectedOutputSize == (if |u.payload| >= 32 then LeValue(u.payload[24..32]) else 0)
            && (r.value.hasChecksums <==> |data| > Checksum.WRAPPER_HEADER_SIZE && data[..8] == Format.MAGIC_V1)
            && r.value.formatVersion == (if r.value.hasChecksums then "RUSTINE1" else "BSDIFF4")
            && (r.value.baseChecksum.Some? <==> r.value.hasChecksums)
            && (r.value.outputChecksum.Some? <==> r.value.hasChecksums)
            && (r.value.hasChecksums ==>
                  && r.value.baseChecksum.value == HexEncode(data[8..40])
                  && r.value.outputChecksum.value == HexEncode(data[40..72])))
  {
    // Unwrapping never fails, so the `?` after `unwrap_patch` in `inspect` never fires.
    var u := Checksum.UnwrapPatch(data).value;
    if !valid(u.payload) then Err(InvalidPatch)
    else
      var size := OutputSizeField(u.payload);
      assert |u.payload| >= 32 ==> size == LeValue(u.payload[24..32]) by {
        if |u.payload| >= 32 {
          SignedThenCast(u.payload[24..32]);
        }
      }
      var hasChecksums := u.baseHash.Some?;
      Ok(PatchInfo(
        |data|,
        size,
        if hasChecksums then "RUSTINE1" else "BSDIFF4",
        true,
        hasChecksums,
        if hasChecksums then Some(HexEncode(u.baseHash.value)) else None,
        if u.outputHash.Some? then Some(HexEncode(u.outputHash.value)) else None))
  }

  /** A container in the current layout is not unwrapped: the whole buffer
      goes to the validity test and is reported without checksums. */
  lemma InspectContainer(valid: seq<Byte> -> bool, data: seq<Byte>)
    requires |data| >= 8 && data[..8] == Format.MAGIC_V2
    ensures Inspect(valid, data).Err? <==> !valid(data)
    ensures Inspect(valid, data).Ok? ==>
              && !Inspect(valid, data).value.hasChecksums
              && Inspect(valid, data).value.formatVersion == "BSDIFF4"
              && Inspect(valid, data).value.baseChecksum == None
  {
    assert data[..8][7] != Format.MAGIC_V1[7];
  }

  /** Inspecting a wrapped delta reports the wrapper's digests in hex. */
  lemma InspectWrapped(valid: seq<Byte> -> bool, baseHash: Digest, outputHash: Digest, patch: seq<Byte>)
    requires |patch| > 0 && valid(patch)
    ensures var r := Inspect(valid, Checksum.WrapPatch(baseHash, outputHash, patch));
      && r.Ok?
      && r.value.patchSize == Checksum.WRAPPER_HEADER_SIZE + |patch|
      && r.value.hasChecksums
      && r.value.baseChecksum == Some(HexEncode(baseHash))
      && r.value.outputChecksum == Some(HexEncode(outputHash))
  {
    Checksum.UnwrapWrap(baseHash, outputHash, patch);
  }
}
