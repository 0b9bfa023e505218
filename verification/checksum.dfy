/** The older checksum wrapper: "RUSTINE1", the base digest, the output
    digest, then the delta. It shares its magic with the legacy container
    layout but unwraps only buffers strictly longer than its header. The
    module's own `hash`, `verify_hash` and `hex_encode` are identical to the
    container's and are the ones in `Digests` and `Encoding`. */
module Checksum {
  import opened Encoding
  import opened Errors
  import opened Digests
  import Format

  const WRAPPER_HEADER_SIZE: nat := 72

  function WrapPatch(baseHash: Digest, outputHash: Digest, patch: seq<Byte>): (r: seq<Byte>)
    ensures |r| == WRAPPER_HEADER_SIZE + |patch|
  {
    Format.MAGIC_V1 + baseHash + outputHash + patch
  }

  /** The digests found in front of a delta, if any, and the delta itself. */
  datatype Unwrapped = Unwrapped(baseHash: Option<Digest>, outputHash: Option<Digest>, payload: seq<Byte>)

  /** Recognises the wrapper only on buffers longer than 72 bytes; every
      other buffer is handed back whole. Never fails. */
  function UnwrapPatch(data: seq<Byte>): (r: Result<Unwrapped>)
    ensures r.Ok?
    ensures r.value.baseHash.Some? <==> (|data| > WRAPPER_HEADER_SIZE && data[..8] == Format.MAGIC_V1)
    ensures r.value.baseHash.Some? <==> r.value.outputHash.Some?
    ensures r.value.baseHash.Some? ==>
              && data == Format.MAGIC_V1 + r.value.baseHash.value + r.value.outputHash.value + r.value.payload
              && |r.value.payload| > 0
    ensures r.value.baseHash.None? ==> r.value.payload == data
  {
    if |data| > WRAPPER_HEADER_SIZE && data[..8] == Format.MAGIC_V1 then
      var u := Unwrapped(Some(data[8..40]), Some(data[40..72]), data[72..]);
      assert data == data[..8] + data[8..40] + data[40..72] + data[72..];
      Ok(u)
    else
      Ok(Unwrapped(None, None, data))
  }

  /** Unwrapping a wrapped delta gives back both digests and the delta
      exactly when the delta is non-empty; an empty delta leaves a 72-byte
      buffer that is passed through unchanged. */
  lemma UnwrapWrap(baseHash: Digest, outputHash: Digest, patch: seq<Byte>)
    ensures UnwrapPatch(WrapPatch(baseHash, outputHash, patch)) == Ok(Unwrapped(Some(baseHash), Some(outputHash), patch))
            <==> |patch| > 0
    ensures |patch| == 0 ==>
              UnwrapPatch(WrapPatch(baseHash, outputHash, patch))
              == Ok(Unwrapped(None, None, WrapPatch(baseHash, outputHash, patch)))
  {
    var w := WrapPatch(baseHash, outputHash, patch);
    assert w[..8] == Format.MAGIC_V1;
    if |patch| > 0 {
      var u := UnwrapPatch(w).value;
      assert w[8..40] == baseHash;
      assert w[40..72] == outputHash;
      assert w[72..] == patch;
    }
  }

  /** The container decoder reads a wrapped buffer the same way, and also
      reads the empty-delta case the wrapper passes through. */
  lemma ContainerDecodesWrapped(baseHash: Digest, outputHash: Digest, patch: seq<Byte>)
    ensures Format.Deserialize(WrapPatch(baseHash, outputHash, patch))
            == Ok(Format.PatchData(Some(baseHash), Some(outputHash), patch, None, None))
  {
    var w := WrapPatch(baseHash, outputHash, patch);
    assert w[..8] == Format.MAGIC_V1;
    assert w[8..40] == baseHash;
    assert w[40..72] == outputHash;
    assert w[72..] == patch;
  }

  /** On every buffer the wrapper recognises, the container decoder agrees
      with it; the two framings differ only on a bare 72-byte header, which
      the decoder reads as an empty delta and the wrapper passes through. */
  lemma UnwrapAgreesWithDecode(data: seq<Byte>)
    requires |data| >= WRAPPER_HEADER_SIZE && data[..8] == Format.MAGIC_V1
    ensures var u := UnwrapPatch(data).value;
      |data| > WRAPPER_HEADER_SIZE ==>
        Format.Deserialize(data) == Ok(Format.PatchData(u.baseHash, u.outputHash, u.payload, None, None))
    ensures |data| == WRAPPER_HEADER_SIZE ==>
              && UnwrapPatch(data).value.baseHash.None?
              && Format.Deserialize(data).Ok?
              && Format.Deserialize(data).value.forwardPatch == []
  {
  }
}
