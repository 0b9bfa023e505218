/** The patch container: the versioned ("RUSTINE2") layout that is always
    written, and the three layouts that are read back (versioned, legacy
    "RUSTINE1" with a fixed 72-byte header, and raw un-framed deltas). */
module Format {
  import opened Encoding
  import opened Errors
  import opened Digests

  /** "RUSTINE2" in ASCII. */
  const MAGIC_V2: seq<Byte> := [0x52, 0x55, 0x53, 0x54, 0x49, 0x4E, 0x45, 0x32]
  /** "RUSTINE1" in ASCII. */
  const MAGIC_V1: seq<Byte> := [0x52, 0x55, 0x53, 0x54, 0x49, 0x4E, 0x45, 0x31]
  const VERSION: Byte := 2

  const FLAG_BASE_CHECKSUM: nat := 1
  const FLAG_OUTPUT_CHECKSUM: nat := 2
  const FLAG_REVERSE_PATCH: nat := 4
  const FLAG_METADATA: nat := 8

  /** Magic (8) + version (1) + flags (4). */
  const HEADER_SIZE: nat := 13
  /** Magic (8) + base digest (32) + output digest (32) of the legacy layout. */
  const V1_HEADER_SIZE: nat := 72

  /** A decoded container. The metadata is kept as its UTF-8 bytes. */
  datatype PatchData = PatchData(
    baseChecksum: Option<Digest>,
    outputChecksum: Option<Digest>,
    forwardPatch: seq<Byte>,
    reversePatch: Option<seq<Byte>>,
    metadata: Option<seq<Byte>>)

  /** A container holding only a forward delta. */
  function New(forward: seq<Byte>): (p: PatchData)
    ensures p.forwardPatch == forward
    ensures p.baseChecksum.None? && p.outputChecksum.None?
    ensures p.reversePatch.None? && p.metadata.None?
  {
    PatchData(None, None, forward, None, None)
  }

  function WithChecksums(p: PatchData, base: Digest, output: Digest): (q: PatchData)
    ensures q.baseChecksum == Some(base) && q.outputChecksum == Some(output)
    ensures q.forwardPatch == p.forwardPatch && q.reversePatch == p.reversePatch && q.metadata == p.metadata
  {
    p.(baseChecksum := Some(base), outputChecksum := Some(output))
  }

  function WithReverse(p: PatchData, reverse: seq<Byte>): (q: PatchData)
    ensures q.reversePatch == Some(reverse)
    ensures q.baseChecksum == p.baseChecksum && q.outputChecksum == p.outputChecksum
    ensures q.forwardPatch == p.forwardPatch && q.metadata == p.metadata
  {
    p.(reversePatch := Some(reverse))
  }

  function WithMetadata(p: PatchData, metadata: seq<Byte>): (q: PatchData)
    ensures q.metadata == Some(metadata)
    ensures q.baseChecksum == p.baseChecksum && q.outputChecksum == p.outputChecksum
    ensures q.forwardPatch == p.forwardPatch && q.reversePatch == p.reversePatch
  {
    p.(metadata := Some(metadata))
  }

  // ---------------------------------------------------------------- flags

  /** Whether the single-bit `flag` is set in `flags` (`flags & flag != 0`). */
  predicate HasFlag(flags: nat, flag: nat)
    requires flag in {1, 2, 4, 8}
  {
    (flags / flag) % 2 == 1
  }

  /** The flag word written for `p`: one bit per optional field present. */
  function Flags(p: PatchData): (f: nat)
    ensures f < 16
    ensures HasFlag(f, FLAG_BASE_CHECKSUM) <==> p.baseChecksum.Some?
    ensures HasFlag(f, FLAG_OUTPUT_CHECKSUM) <==> p.outputChecksum.Some?
    ensures HasFlag(f, FLAG_REVERSE_PATCH) <==> p.reversePatch.Some?
    ensures HasFlag(f, FLAG_METADATA) <==> p.metadata.Some?
  {
    var a := if p.baseChecksum.Some? then 1 else 0;
    var b := if p.outputChecksum.Some? then 1 else 0;
    var c := if p.reversePatch.Some? then 1 else 0;
    var d := if p.metadata.Some? then 1 else 0;
    var f := a * FLAG_BASE_CHECKSUM + b * FLAG_OUTPUT_CHECKSUM + c * FLAG_REVERSE_PATCH + d * FLAG_METADATA;
    FlagBits(a, b, c, d);
    f
  }

  lemma FlagBits(a: nat, b: nat, c: nat, d: nat)
    requires a < 2 && b < 2 && c < 2 && d < 2
    ensures var f := a + 2 * b + 4 * c + 8 * d;
      && (f / 1) % 2 == a && (f / 2) % 2 == b && (f / 4) % 2 == c && (f / 8) % 2 == d
  {
  }

  /** Only the low four bits of a flag word are ever consulted. */
  lemma HasFlagLowBits(flags: nat, flag: nat)
    requires flag in {1, 2, 4, 8}
    ensures HasFlag(flags, flag) <==> HasFlag(flags % 16, flag)
  {
    if flag == 1 {
      LowBit1(flags);
    } else if flag == 2 {
      LowBit2(flags);
    } else if flag == 4 {
      LowBit4(flags);
    } else {
      LowBit8(flags);
    }
  }

  /** Euclidean division by a positive `d` is fixed by any split of `n`
      into a multiple of `d` and a remainder below `d`. */
  lemma DivUnique(n: int, d: int, k: int, b: int)
    requires d in {2, 4, 8} && 0 <= b < d && n == d * k + b
    ensures n / d == k && n % d == b
  {
    if d == 2 {
      assert n == 2 * k + b;
    } else if d == 4 {
      assert n == 4 * k + b;
    } else {
      assert n == 8 * k + b;
    }
  }

  /** `n` split as sixteen times its quotient plus its remainder. */
  lemma Split16(n: nat) returns (q: nat, r: nat)
    ensures n == 16 * q + r && r == n % 16 && r < 16
  {
    q, r := n / 16, n % 16;
  }

  lemma LowBit1(flags: nat)
    ensures (flags / 1) % 2 == ((flags % 16) / 1) % 2
  {
    var q, r := Split16(flags);
    DivUnique(r, 2, r / 2, r % 2);
    DivUnique(16 * q + r, 2, 8 * q + r / 2, r % 2);
  }

  lemma LowBit2(flags: nat)
    ensures (flags / 2) % 2 == ((flags % 16) / 2) % 2
  {
    var q, r := Split16(flags);
    DivUnique(r, 2, r / 2, r % 2);
    DivUnique(16 * q + r, 2, 8 * q + r / 2, r % 2);
    DivUnique(r / 2, 2, r / 4, (r / 2) % 2);
    DivUnique(8 * q + r / 2, 2, 4 * q + r / 4, (r / 2) % 2);
  }

  lemma LowBit4(flags: nat)
    ensures (flags / 4) % 2 == ((flags % 16) / 4) % 2
  {
    var q, r := Split16(flags);
    DivUnique(r, 4, r / 4, r % 4);
    DivUnique(16 * q + r, 4, 4 * q + r / 4, r % 4);
    DivUnique(r / 4, 2, r / 8, (r / 4) % 2);
    DivUnique(4 * q + r / 4, 2, 2 * q + r / 8, (r / 4) % 2);
  }

  lemma LowBit8(flags: nat)
    ensures (flags / 8) % 2 == ((flags % 16) / 8) % 2
  {
    var q, r := Split16(flags);
    DivUnique(r, 8, r / 8, r % 8);
    DivUnique(16 * q + r, 8, 2 * q + r / 8, r % 8);
    DivUnique(2 * q + r / 8, 2, q, r / 8);
  }

  // ------------------------------------------------------------ serialize

  /** The length limits that the `as u32` / `as u64` casts in `serialize` rely on. */
  predicate Encodable(p: PatchData)
  {
    && (p.metadata.Some? ==> |p.metadata.value| < TWO_32)
    && |p.forwardPatch| < TWO_64
    && (p.reversePatch.Some? ==> |p.reversePatch.value| < TWO_64)
  }

  function OptionalDigest(d: Option<Digest>): (r: seq<Byte>)
    ensures |r| == if d.Some? then 32 else 0
  {
    if d.Some? then d.value else []
  }

  /** A little-endian length prefix of `width` bytes followed by the payload. */
  function Framed(payload: seq<Byte>, width: nat): (r: seq<Byte>)
    requires |payload| < Pow256(width)
    ensures |r| == width + |payload|
  {
    LeBytes(|payload|, width) + payload
  }

  function OptionalFramed(payload: Option<seq<Byte>>, width: nat): (r: seq<Byte>)
    requires payload.Some? ==> |payload.value| < Pow256(width)
    ensures |r| == if payload.Some? then width + |payload.value| else 0
  {
    if payload.Some? then Framed(payload.value, width) else []
  }

  function MetadataSection(p: PatchData): (r: seq<Byte>)
    requires Encodable(p)
    ensures |r| == if p.metadata.Some? then 4 + |p.metadata.value| else 0
  {
    Pow256Widths();
    OptionalFramed(p.metadata, 4)
  }

  function ForwardSection(p: PatchData): (r: seq<Byte>)
    requires Encodable(p)
    ensures |r| == 8 + |p.forwardPatch|
  {
    Pow256Widths();
    Framed(p.forwardPatch, 8)
  }

  function ReverseSection(p: PatchData): (r: seq<Byte>)
    requires Encodable(p)
    ensures |r| == if p.reversePatch.Some? then 8 + |p.reversePatch.value| else 0
  {
    Pow256Widths();
    OptionalFramed(p.reversePatch, 8)
  }

  function Header(p: PatchData): (r: seq<Byte>)
    ensures |r| == HEADER_SIZE
    ensures r[..8] == MAGIC_V2 && r[8] == VERSION
    ensures LeValue(r[9..13]) == Flags(p)
  {
    Pow256Widths();
    var r := MAGIC_V2 + [VERSION] + LeBytes(Flags(p), 4);
    assert r[9..13] == LeBytes(Flags(p), 4);
    LeValueOfLeBytes(Flags(p), 4);
    r
  }

  /** The capacity `serialize` reserves before writing: the header, each
      present digest, the framed metadata, the framed forward delta and the
      framed reverse delta. */
  function EncodedSize(p: PatchData): nat
  {
    HEADER_SIZE
    + (if p.baseChecksum.Some? then 32 else 0)
    + (if p.outputChecksum.Some? then 32 else 0)
    + (if p.metadata.Some? then 4 + |p.metadata.value| else 0)
    + 8 + |p.forwardPatch|
    + (if p.reversePatch.Some? then 8 + |p.reversePatch.value| else 0)
  }

  /** The versioned encoding; legacy and raw layouts are never written. */
  function Serialize(p: PatchData): (r: seq<Byte>)
    requires Encodable(p)
    ensures |r| == EncodedSize(p)
    ensures r[..8] == MAGIC_V2 && r[8] == VERSION
    ensures LeValue(r[9..13]) == Flags(p)
  {
    var h := Header(p);
    var r := h + OptionalDigest(p.baseChecksum) + OptionalDigest(p.outputChecksum)
             + MetadataSection(p) + ForwardSection(p) + ReverseSection(p);
    HeaderKept(h, OptionalDigest(p.baseChecksum), OptionalDigest(p.outputChecksum),
               MetadataSection(p), ForwardSection(p), ReverseSection(p));
    r
  }

  /** Appending sections after a 13-byte header leaves the header's fields
      in place. */
  lemma HeaderKept(h: seq<Byte>, a: seq<Byte>, b: seq<Byte>, c: seq<Byte>, d: seq<Byte>, e: seq<Byte>)
    requires |h| == HEADER_SIZE
    ensures var r := h + a + b + c + d + e;
      r[..8] == h[..8] && r[8] == h[8] && r[9..13] == h[9..13]
  {
    var r := h + a + b + c + d + e;
    forall i | 0 <= i < HEADER_SIZE
      ensures r[i] == h[i]
    {
    }
  }

  // ---------------------------------------------------------- deserialize

  /** A value read from a buffer and the offset just past it. */
  datatype Read<+T> = Read(value: T, next: nat)

  /** Read a 32-byte digest at `off` when its flag is set. */
  function ReadDigest(data: seq<Byte>, off: nat, present: bool, field: Truncation): (r: Result<Read<Option<Digest>>>)
    requires off <= |data|
    ensures r.Ok? ==> off <= r.value.next <= |data|
  {
    if !present then Ok(Read(None, off))
    else if |data| < off + 32 then Err(CorruptedPatch(field))
    else Ok(Read(Some(data[off..off + 32]), off + 32))
  }

  /** Read a `width`-byte little-endian length and then that many bytes. */
  function ReadFramed(data: seq<Byte>, off: nat, width: nat, lengthField: Truncation, dataField: Truncation)
    : (r: Result<Read<seq<Byte>>>)
    requires off <= |data|
    ensures r.Ok? ==> off <= r.value.next <= |data|
  {
    if |data| < off + width then Err(CorruptedPatch(lengthField))
    else
      var n := LeValue(data[off..off + width]);
      if |data| < off + width + n then Err(CorruptedPatch(dataField))
      else Ok(Read(data[off + width..off + width + n], off + width + n))
  }

  function ReadOptionalFramed(data: seq<Byte>, off: nat, present: bool, width: nat,
                              lengthField: Truncation, dataField: Truncation)
    : (r: Result<Read<Option<seq<Byte>>>>)
    requires off <= |data|
    ensures r.Ok? ==> off <= r.value.next <= |data|
  {
    if !present then Ok(Read(None, off))
    else
      var f :- ReadFramed(data, off, width, lengthField, dataField);
      Ok(Read(Some(f.value), f.next))
  }

  /** Decode a buffer: anything shorter than the versioned header is corrupt,
      then the legacy magic, then raw passthrough, then the versioned layout. */
  function Deserialize(data: seq<Byte>): (r: Result<PatchData>)
    ensures |data| < HEADER_SIZE ==> r == Err(CorruptedPatch(FileTooSmall(|data|)))
    ensures |data| >= HEADER_SIZE && data[..8] == MAGIC_V1 ==> r == DeserializeV1(data)
    ensures |data| >= HEADER_SIZE && data[..8] != MAGIC_V1 && data[..8] != MAGIC_V2 ==> r == Ok(New(data))
    ensures |data| >= HEADER_SIZE && data[..8] == MAGIC_V2 && data[8] != VERSION ==> r == Err(UnsupportedVersion(data[8]))
  {
    if |data| < HEADER_SIZE then Err(CorruptedPatch(FileTooSmall(|data|)))
    else if data[..8] == MAGIC_V1 then DeserializeV1(data)
    else if data[..8] != MAGIC_V2 then Ok(New(data))
    else DeserializeV2(data)
  }

  /** The legacy layout: both digests, then the forward delta to the end. */
  function DeserializeV1(data: seq<Byte>): (r: Result<PatchData>)
    ensures |data| < V1_HEADER_SIZE ==> r == Err(CorruptedPatch(V1TooSmall(|data|)))
    ensures |data| >= V1_HEADER_SIZE ==> r.Ok?
    ensures r.Ok? ==> && r.value.baseChecksum.Some? && r.value.outputChecksum.Some?
                      && data[8..] == r.value.baseChecksum.value + r.value.outputChecksum.value + r.value.forwardPatch
                      && r.value.reversePatch.None? && r.value.metadata.None?
  {
    if |data| < V1_HEADER_SIZE then Err(CorruptedPatch(V1TooSmall(|data|)))
    else Ok(PatchData(Some(data[8..40]), Some(data[40..72]), data[72..], None, None))
  }

  function DeserializeV2(data: seq<Byte>): (r: Result<PatchData>)
    requires |data| >= HEADER_SIZE
  {
    if data[8] != VERSION then Err(UnsupportedVersion(data[8]))
    else DecodeFields(data, LeValue(data[9..13]))
  }

  /** The flagged digests after the header, then the remaining sections. */
  function DecodeFields(data: seq<Byte>, flags: nat): (r: Result<PatchData>)
    requires |data| >= HEADER_SIZE
  {
    var base :- ReadDigest(data, HEADER_SIZE, HasFlag(flags, FLAG_BASE_CHECKSUM), BaseChecksum);
    var output :- ReadDigest(data, base.next, HasFlag(flags, FLAG_OUTPUT_CHECKSUM), OutputChecksum);
    DecodeSections(data, flags, base.value, output.value, output.next)
  }

  /** The flagged metadata, the forward delta and the flagged reverse delta,
      starting at `off`; bytes after the last section read are ignored. */
  function DecodeSections(data: seq<Byte>, flags: nat, base: Option<Digest>, output: Option<Digest>, off: nat)
    : (r: Result<PatchData>)
    requires off <= |data|
  {
    var meta :- ReadOptionalFramed(data, off, HasFlag(flags, FLAG_METADATA), 4, MetadataLength, MetadataData);
    var forward :- ReadFramed(data, meta.next, 8, ForwardLength, ForwardData);
    var reverse :- ReadOptionalFramed(data, forward.next, HasFlag(flags, FLAG_REVERSE_PATCH), 8, ReverseLength, ReverseData);
    Ok(PatchData(base, output, forward.value, reverse.value, meta.value))
  }

  // --------------------------------------------------------------- proofs

  /** Offsets of the sections of `Serialize(p)`, in their fixed order. */
  function OutputOffset(p: PatchData): nat
  {
    HEADER_SIZE + (if p.baseChecksum.Some? then 32 else 0)
  }

  function MetadataOffset(p: PatchData): nat
  {
    OutputOffset(p) + (if p.outputChecksum.Some? then 32 else 0)
  }

  function ForwardOffset(p: PatchData): nat
  {
    MetadataOffset(p) + (if p.metadata.Some? then 4 + |p.metadata.value| else 0)
  }

  function ReverseOffset(p: PatchData): nat
  {
    ForwardOffset(p) + 8 + |p.forwardPatch|
  }

  /** Where each section of `Serialize(p)` sits. */
  lemma SerializedSections(p: PatchData)
    requires Encodable(p)
    ensures var s := Serialize(p);
      && ReverseOffset(p) + |ReverseSection(p)| == |s|
      && s[HEADER_SIZE..OutputOffset(p)] == OptionalDigest(p.baseChecksum)
      && s[OutputOffset(p)..MetadataOffset(p)] == OptionalDigest(p.outputChecksum)
      && s[MetadataOffset(p)..ForwardOffset(p)] == MetadataSection(p)
      && s[ForwardOffset(p)..ReverseOffset(p)] == ForwardSection(p)
      && s[ReverseOffset(p)..] == ReverseSection(p)
  {
    SixParts(Header(p), OptionalDigest(p.baseChecksum), OptionalDigest(p.outputChecksum),
             MetadataSection(p), ForwardSection(p), ReverseSection(p));
  }

  /** Each part of a six-part concatenation sits at the sum of the lengths
      before it. */
  lemma SixParts(h: seq<Byte>, a: seq<Byte>, b: seq<Byte>, c: seq<Byte>, d: seq<Byte>, e: seq<Byte>)
    ensures var s := h + a + b + c + d + e;
      var o1 := |h| + |a|;
      var o2 := o1 + |b|;
      var o3 := o2 + |c|;
      var o4 := o3 + |d|;
      && s[|h|..o1] == a && s[o1..o2] == b && s[o2..o3] == c && s[o3..o4] == d && s[o4..] == e
  {
    var s1 := h + a;
    var s2 := s1 + b;
    var s3 := s2 + c;
    var s4 := s3 + d;
    var s := s4 + e;
    SplitConcat(s4, e);
    SplitConcat(s3, d);
    SplitConcat(s2, c);
    SplitConcat(s1, b);
    SplitConcat(h, a);
    ThroughPrefix(s, s4, |s3|, |s4|, d);
    ThroughPrefix(s4, s3, |s2|, |s3|, c);
    ThroughPrefix(s, s4, |s2|, |s3|, c);
    ThroughPrefix(s3, s2, |s1|, |s2|, b);
    ThroughPrefix(s4, s3, |s1|, |s2|, b);
    ThroughPrefix(s, s4, |s1|, |s2|, b);
    ThroughPrefix(s2, s1, |h|, |s1|, a);
    ThroughPrefix(s3, s2, |h|, |s1|, a);
    ThroughPrefix(s4, s3, |h|, |s1|, a);
    ThroughPrefix(s, s4, |h|, |s1|, a);
  }

  /** A slice that lies inside a prefix of `s` is that slice of the prefix. */
  lemma ThroughPrefix(s: seq<Byte>, p: seq<Byte>, lo: nat, hi: nat, f: seq<Byte>)
    requires |p| <= |s| && s[..|p|] == p
    requires lo <= hi <= |p| && p[lo..hi] == f
    ensures s[lo..hi] == f
  {
    forall i | lo <= i < hi
      ensures s[i] == p[i]
    {
      assert s[..|p|][i] == s[i];
    }
  }

  lemma SplitConcat(x: seq<Byte>, y: seq<Byte>)
    ensures (x + y)[..|x|] == x && (x + y)[|x|..] == y
  {
  }

  /** Reading a digest section from a buffer cut at `k`. */
  lemma ReadDigestAt(s: seq<Byte>, k: nat, off: nat, d: Option<Digest>, field: Truncation)
    requires off <= k <= |s|
    requires off + |OptionalDigest(d)| <= |s|
    requires s[off..off + |OptionalDigest(d)|] == OptionalDigest(d)
    ensures ReadDigest(s[..k], off, d.Some?, field)
            == if k < off + |OptionalDigest(d)| then Err(CorruptedPatch(field))
               else Ok(Read(d, off + |OptionalDigest(d)|))
  {
    if d.Some? && off + 32 <= k {
      SubSlice(s, k, off, OptionalDigest(d), 0, 32);
      assert OptionalDigest(d)[0..32] == d.value;
    }
  }

  /** A slice of a cut buffer inside a known section is a slice of that
      section. */
  lemma SubSlice(s: seq<Byte>, k: nat, off: nat, f: seq<Byte>, lo: nat, hi: nat)
    requires off + |f| <= |s| && s[off..off + |f|] == f
    requires lo <= hi <= |f| && off + hi <= k <= |s|
    ensures s[..k][off + lo..off + hi] == f[lo..hi]
  {
    forall i | 0 <= i < hi - lo
      ensures s[..k][off + lo..off + hi][i] == f[lo..hi][i]
    {
      assert s[off..off + |f|][lo + i] == f[lo + i];
    }
  }

  /** Reading a length-prefixed section from a buffer cut at `k`. */
  lemma ReadFramedAt(s: seq<Byte>, k: nat, off: nat, payload: seq<Byte>, width: nat,
                     lengthField: Truncation, dataField: Truncation)
    requires |payload| < Pow256(width)
    requires off <= k <= |s|
    requires off + width + |payload| <= |s|
    requires s[off..off + width + |payload|] == Framed(payload, width)
    ensures ReadFramed(s[..k], off, width, lengthField, dataField)
            == if k < off + width then Err(CorruptedPatch(lengthField))
               else if k < off + width + |payload| then Err(CorruptedPatch(dataField))
               else Ok(Read(payload, off + width + |payload|))
  {
    if off + width <= k {
      FramedLengthAt(s, k, off, payload, width);
      if off + width + |payload| <= k {
        FramedPayloadAt(s, k, off, payload, width);
      }
    }
    ReadFramedCut(s[..k], off, width, payload, lengthField, dataField);
  }

  /** `ReadFramed` on any buffer whose length field, where present, reads
      as `|payload|` and whose data, where present, is `payload`. */
  lemma ReadFramedCut(d: seq<Byte>, off: nat, width: nat, payload: seq<Byte>,
                      lengthField: Truncation, dataField: Truncation)
    requires off <= |d|
    requires off + width <= |d| ==> LeValue(d[off..off + width]) == |payload|
    requires off + width + |payload| <= |d| ==> d[off + width..off + width + |payload|] == payload
    ensures ReadFramed(d, off, width, lengthField, dataField)
            == if |d| < off + width then Err(CorruptedPatch(lengthField))
               else if |d| < off + width + |payload| then Err(CorruptedPatch(dataField))
               else Ok(Read(payload, off + width + |payload|))
  {
  }

  lemma FramedParts(payload: seq<Byte>, width: nat)
    requires |payload| < Pow256(width)
    ensures Framed(payload, width)[0..width] == LeBytes(|payload|, width)
    ensures Framed(payload, width)[width..width + |payload|] == payload
  {
    SplitConcat(LeBytes(|payload|, width), payload);
  }

  /** The length prefix of a framed section inside a cut buffer reads back
      as the payload length. */
  lemma FramedLengthAt(s: seq<Byte>, k: nat, off: nat, payload: seq<Byte>, width: nat)
    requires |payload| < Pow256(width)
    requires off + width <= k <= |s|
    requires off + width + |payload| <= |s|
    requires s[off..off + width + |payload|] == Framed(payload, width)
    ensures LeValue(s[..k][off..off + width]) == |payload|
  {
    SubSlice(s, k, off, Framed(payload, width), 0, width);
    FramedParts(payload, width);
    LeValueOfLeBytes(|payload|, width);
  }

  lemma FramedPayloadAt(s: seq<Byte>, k: nat, off: nat, payload: seq<Byte>, width: nat)
    requires |payload| < Pow256(width)
    requires off + width + |payload| <= k <= |s|
    requires s[off..off + width + |payload|] == Framed(payload, width)
    ensures s[..k][off + width..off + width + |payload|] == payload
  {
    SubSlice(s, k, off, Framed(payload, width), width, width + |payload|);
    FramedParts(payload, width);
  }

  lemma ReadOptionalFramedAt(s: seq<Byte>, k: nat, off: nat, payload: Option<seq<Byte>>, width: nat,
                             lengthField: Truncation, dataField: Truncation)
    requires payload.Some? ==> |payload.value| < Pow256(width)
    requires off <= k <= |s|
    requires off + |OptionalFramed(payload, width)| <= |s|
    requires s[off..off + |OptionalFramed(payload, width)|] == OptionalFramed(payload, width)
    ensures ReadOptionalFramed(s[..k], off, payload.Some?, width, lengthField, dataField)
            == if payload.Some? && k < off + width then Err(CorruptedPatch(lengthField))
               else if k < off + |OptionalFramed(payload, width)| then Err(CorruptedPatch(dataField))
               else Ok(Read(payload, off + |OptionalFramed(payload, width)|))
  {
    if payload.Some? {
      ReadFramedAt(s, k, off, payload.value, width, lengthField, dataField);
    }
  }

  /** `ReadFramedAt` for a section known by its value and its end. */
  lemma ReadFramedSection(s: seq<Byte>, k: nat, off: nat, next: nat, payload: seq<Byte>, section: seq<Byte>,
                          width: nat, lengthField: Truncation, dataField: Truncation)
    requires |payload| < Pow256(width)
    requires section == Framed(payload, width) && next == off + width + |payload|
    requires off <= k <= |s| && next <= |s| && s[off..next] == section
    ensures ReadFramed(s[..k], off, width, lengthField, dataField)
            == if k < off + width then Err(CorruptedPatch(lengthField))
               else if k < next then Err(CorruptedPatch(dataField))
               else Ok(Read(payload, next))
  {
    ReadFramedAt(s, k, off, payload, width, lengthField, dataField);
  }

  /** `ReadOptionalFramedAt` for a section known by its value and its end. */
  lemma ReadOptionalFramedSection(s: seq<Byte>, k: nat, off: nat, next: nat, payload: Option<seq<Byte>>,
                                  section: seq<Byte>, width: nat, lengthField: Truncation, dataField: Truncation)
    requires payload.Some? ==> |payload.value| < Pow256(width)
    requires section == OptionalFramed(payload, width) && next == off + |section|
    requires off <= k <= |s| && next <= |s| && s[off..next] == section
    ensures ReadOptionalFramed(s[..k], off, payload.Some?, width, lengthField, dataField)
            == if payload.Some? && k < off + width then Err(CorruptedPatch(lengthField))
               else if k < next then Err(CorruptedPatch(dataField))
               else Ok(Read(payload, next))
  {
    ReadOptionalFramedAt(s, k, off, payload, width, lengthField, dataField);
  }

  /** The field that a versioned encoding cut short at byte `k` is missing:
      the one whose bytes span position `k`, in the fixed field order. */
  function FieldAt(p: PatchData, k: nat): Truncation
  {
    if k < OutputOffset(p) then BaseChecksum
    else if k < MetadataOffset(p) then OutputChecksum
    else if p.metadata.Some? && k < MetadataOffset(p) + 4 then MetadataLength
    else if k < ForwardOffset(p) then MetadataData
    else if k < ForwardOffset(p) + 8 then ForwardLength
    else if k < ReverseOffset(p) then ForwardData
    else if k < ReverseOffset(p) + 8 then ReverseLength
    else ReverseData
  }

  /** A cut of an encoding that keeps the header is dispatched to the
      versioned decoder and sees the flag word of `p`. */
  lemma DecodePrefixHeader(p: PatchData, k: nat)
    requires Encodable(p)
    requires HEADER_SIZE <= k <= |Serialize(p)|
    ensures var d := Serialize(p)[..k];
      && |d| >= HEADER_SIZE
      && Deserialize(d) == DecodeFields(d, Flags(p))
  {
    CutKeepsHeader(Serialize(p), k, Flags(p));
  }

  /** A cut that keeps a versioned header is decoded with that header's
      flag word. */
  lemma CutKeepsHeader(s: seq<Byte>, k: nat, flags: nat)
    requires HEADER_SIZE <= k <= |s|
    requires s[..8] == MAGIC_V2 && s[8] == VERSION && LeValue(s[9..13]) == flags
    ensures var d := s[..k];
      && |d| >= HEADER_SIZE
      && Deserialize(d) == DecodeFields(d, flags)
  {
    var d := s[..k];
    assert d[..8] == MAGIC_V2;
    assert d[..8] != MAGIC_V1 by {
      assert d[..8][7] != MAGIC_V1[7];
    }
    assert d[9..13] == s[9..13];
  }

  lemma ReadMetadataSection(s: seq<Byte>, k: nat, p: PatchData)
    requires Encodable(p)
    requires MetadataOffset(p) <= k <= |s| && ForwardOffset(p) <= |s|
    requires s[MetadataOffset(p)..ForwardOffset(p)] == MetadataSection(p)
    ensures ReadOptionalFramed(s[..k], MetadataOffset(p), p.metadata.Some?, 4, MetadataLength, MetadataData)
            == if p.metadata.Some? && k < MetadataOffset(p) + 4 then Err(CorruptedPatch(MetadataLength))
               else if k < ForwardOffset(p) then Err(CorruptedPatch(MetadataData))
               else Ok(Read(p.metadata, ForwardOffset(p)))
  {
    MetadataFramed(p);
    ReadOptionalFramedSection(s, k, MetadataOffset(p), ForwardOffset(p), p.metadata, MetadataSection(p), 4,
                              MetadataLength, MetadataData);
  }

  lemma MetadataFramed(p: PatchData)
    requires Encodable(p)
    ensures p.metadata.Some? ==> |p.metadata.value| < Pow256(4)
    ensures MetadataSection(p) == OptionalFramed(p.metadata, 4)
  {
    Pow256Widths();
  }

  lemma ReadForwardSection(s: seq<Byte>, k: nat, p: PatchData)
    requires Encodable(p)
    requires ForwardOffset(p) <= k <= |s| && ReverseOffset(p) <= |s|
    requires s[ForwardOffset(p)..ReverseOffset(p)] == ForwardSection(p)
    ensures ReadFramed(s[..k], ForwardOffset(p), 8, ForwardLength, ForwardData)
            == if k < ForwardOffset(p) + 8 then Err(CorruptedPatch(ForwardLength))
               else if k < ReverseOffset(p) then Err(CorruptedPatch(ForwardData))
               else Ok(Read(p.forwardPatch, ReverseOffset(p)))
  {
    ForwardFramed(p);
    ReadFramedSection(s, k, ForwardOffset(p), ReverseOffset(p), p.forwardPatch, ForwardSection(p), 8,
                      ForwardLength, ForwardData);
  }

  lemma ForwardFramed(p: PatchData)
    requires Encodable(p)
    ensures |p.forwardPatch| < Pow256(8)
    ensures ForwardSection(p) == Framed(p.forwardPatch, 8)
  {
    Pow256Widths();
  }

  lemma ReadReverseSection(s: seq<Byte>, k: nat, p: PatchData)
    requires Encodable(p)
    requires ReverseOffset(p) <= k <= |s|
    requires s[ReverseOffset(p)..] == ReverseSection(p)
    ensures ReadOptionalFramed(s[..k], ReverseOffset(p), p.reversePatch.Some?, 8, ReverseLength, ReverseData)
            == if p.reversePatch.Some? && k < ReverseOffset(p) + 8 then Err(CorruptedPatch(ReverseLength))
               else if k < |s| then Err(CorruptedPatch(ReverseData))
               else Ok(Read(p.reversePatch, |s|))
  {
    ReverseFramed(p);
    assert s[ReverseOffset(p)..|s|] == s[ReverseOffset(p)..];
    ReadOptionalFramedSection(s, k, ReverseOffset(p), |s|, p.reversePatch, ReverseSection(p), 8,
                              ReverseLength, ReverseData);
  }

  lemma ReverseFramed(p: PatchData)
    requires Encodable(p)
    ensures p.reversePatch.Some? ==> |p.reversePatch.value| < Pow256(8)
    ensures ReverseSection(p) == OptionalFramed(p.reversePatch, 8)
  {
    Pow256Widths();
  }

  /** The sections after the digests, read from a cut of the encoding. */
  lemma DecodeSectionsPrefix(p: PatchData, k: nat)
    requires Encodable(p)
    requires MetadataOffset(p) <= k <= |Serialize(p)|
    ensures DecodeSections(Serialize(p)[..k], Flags(p), p.baseChecksum, p.outputChecksum, MetadataOffset(p))
            == if k == |Serialize(p)| then Ok(p) else Err(CorruptedPatch(FieldAt(p, k)))
  {
    var s := Serialize(p);
    SerializedSections(p);
    ReadMetadataSection(s, k, p);
    if k < ForwardOffset(p) {
      return;
    }
    ReadForwardSection(s, k, p);
    if k < ReverseOffset(p) {
      return;
    }
    ReadReverseSection(s, k, p);
  }

  lemma DecodePrefix(p: PatchData, k: nat)
    requires Encodable(p)
    requires HEADER_SIZE <= k <= |Serialize(p)|
    ensures Deserialize(Serialize(p)[..k])
            == if k == |Serialize(p)| then Ok(p) else Err(CorruptedPatch(FieldAt(p, k)))
  {
    DecodePrefixHeader(p, k);
    DecodeFieldsPrefix(p, k);
  }

  /** The digests and the sections, read from a cut of the encoding. */
  lemma DecodeFieldsPrefix(p: PatchData, k: nat)
    requires Encodable(p)
    requires HEADER_SIZE <= k <= |Serialize(p)|
    ensures DecodeFields(Serialize(p)[..k], Flags(p))
            == if k == |Serialize(p)| then Ok(p) else Err(CorruptedPatch(FieldAt(p, k)))
  {
    ReadBaseDigest(p, k);
    if k < OutputOffset(p) {
      return;
    }
    ReadOutputDigest(p, k);
    if k < MetadataOffset(p) {
      return;
    }
    DecodeSectionsPrefix(p, k);
  }

  lemma ReadBaseDigest(p: PatchData, k: nat)
    requires Encodable(p)
    requires HEADER_SIZE <= k <= |Serialize(p)|
    ensures ReadDigest(Serialize(p)[..k], HEADER_SIZE, HasFlag(Flags(p), FLAG_BASE_CHECKSUM), BaseChecksum)
            == if k < OutputOffset(p) then Err(CorruptedPatch(BaseChecksum))
               else Ok(Read(p.baseChecksum, OutputOffset(p)))
  {
    SerializedSections(p);
    ReadDigestAt(Serialize(p), k, HEADER_SIZE, p.baseChecksum, BaseChecksum);
  }

  lemma ReadOutputDigest(p: PatchData, k: nat)
    requires Encodable(p)
    requires OutputOffset(p) <= k <= |Serialize(p)|
    ensures ReadDigest(Serialize(p)[..k], OutputOffset(p), HasFlag(Flags(p), FLAG_OUTPUT_CHECKSUM), OutputChecksum)
            == if k < MetadataOffset(p) then Err(CorruptedPatch(OutputChecksum))
               else Ok(Read(p.outputChecksum, MetadataOffset(p)))
  {
    SerializedSections(p);
    ReadDigestAt(Serialize(p), k, OutputOffset(p), p.outputChecksum, OutputChecksum);
  }

  /** Round trip: every container, whichever optional fields it carries,
      decodes from its own encoding. */
  lemma RoundTrip(p: PatchData)
    requires Encodable(p)
    ensures Deserialize(Serialize(p)) == Ok(p)
  {
    var s := Serialize(p);
    DecodePrefix(p, |s|);
    assert s[..|s|] == s;
  }

  /** Truncation safety: a versioned encoding cut anywhere past its 13-byte
      header fails to decode, naming the field the cut falls in; a cut inside
      the header is reported as too small. */
  lemma TruncationNamesField(p: PatchData, k: nat)
    requires Encodable(p)
    requires k < |Serialize(p)|
    ensures k < HEADER_SIZE ==> Deserialize(Serialize(p)[..k]) == Err(CorruptedPatch(FileTooSmall(k)))
    ensures k >= HEADER_SIZE ==> Deserialize(Serialize(p)[..k]) == Err(CorruptedPatch(FieldAt(p, k)))
  {
    if k >= HEADER_SIZE {
      DecodePrefix(p, k);
    }
  }

  // ------------------------------------------------ bytes that are ignored

  lemma ReadDigestExtend(data: seq<Byte>, extra: seq<Byte>, off: nat, present: bool, field: Truncation)
    requires off <= |data|
    requires ReadDigest(data, off, present, field).Ok?
    ensures ReadDigest(data + extra, off, present, field) == ReadDigest(data, off, present, field)
  {
    if present {
      assert (data + extra)[off..off + 32] == data[off..off + 32];
    }
  }

  lemma ReadFramedExtend(data: seq<Byte>, extra: seq<Byte>, off: nat, width: nat, lengthField: Truncation, dataField: Truncation)
    requires off <= |data|
    requires ReadFramed(data, off, width, lengthField, dataField).Ok?
    ensures ReadFramed(data + extra, off, width, lengthField, dataField) == ReadFramed(data, off, width, lengthField, dataField)
  {
    assert (data + extra)[off..off + width] == data[off..off + width];
    var n := LeValue(data[off..off + width]);
    assert (data + extra)[off + width..off + width + n] == data[off + width..off + width + n];
  }

  lemma ReadOptionalFramedExtend(data: seq<Byte>, extra: seq<Byte>, off: nat, present: bool, width: nat,
                                 lengthField: Truncation, dataField: Truncation)
    requires off <= |data|
    requires ReadOptionalFramed(data, off, present, width, lengthField, dataField).Ok?
    ensures ReadOptionalFramed(data + extra, off, present, width, lengthField, dataField)
            == ReadOptionalFramed(data, off, present, width, lengthField, dataField)
  {
    if present {
      ReadFramedExtend(data, extra, off, width, lengthField, dataField);
    }
  }

  lemma DecodeSectionsExtend(data: seq<Byte>, extra: seq<Byte>, flags: nat, base: Option<Digest>, output: Option<Digest>, off: nat)
    requires off <= |data|
    requires DecodeSections(data, flags, base, output, off).Ok?
    ensures DecodeSections(data + extra, flags, base, output, off) == DecodeSections(data, flags, base, output, off)
  {
    var meta := ReadOptionalFramed(data, off, HasFlag(flags, FLAG_METADATA), 4, MetadataLength, MetadataData);
    ReadOptionalFramedExtend(data, extra, off, HasFlag(flags, FLAG_METADATA), 4, MetadataLength, MetadataData);
    var forward := ReadFramed(data, meta.value.next, 8, ForwardLength, ForwardData);
    ReadFramedExtend(data, extra, meta.value.next, 8, ForwardLength, ForwardData);
    ReadOptionalFramedExtend(data, extra, forward.value.next, HasFlag(flags, FLAG_REVERSE_PATCH), 8, ReverseLength, ReverseData);
  }

  /** Bytes after the last section a versioned container declares are never
      read: appending anything to a decodable versioned buffer decodes to the
      same container. */
  lemma TrailingBytesIgnored(data: seq<Byte>, extra: seq<Byte>)
    requires |data| >= HEADER_SIZE && data[..8] == MAGIC_V2
    requires Deserialize(data).Ok?
    ensures Deserialize(data + extra) == Deserialize(data)
  {
    var d := data + extra;
    assert d[..8] == data[..8];
    assert d[9..13] == data[9..13];
    var flags := LeValue(data[9..13]);
    assert Deserialize(data) == DecodeFields(data, flags);
    var base := ReadDigest(data, HEADER_SIZE, HasFlag(flags, FLAG_BASE_CHECKSUM), BaseChecksum);
    ReadDigestExtend(data, extra, HEADER_SIZE, HasFlag(flags, FLAG_BASE_CHECKSUM), BaseChecksum);
    var output := ReadDigest(data, base.value.next, HasFlag(flags, FLAG_OUTPUT_CHECKSUM), OutputChecksum);
    ReadDigestExtend(data, extra, base.value.next, HasFlag(flags, FLAG_OUTPUT_CHECKSUM), OutputChecksum);
    DecodeSectionsExtend(data, extra, flags, base.value.value, output.value.value, output.value.next);
  }

  /** Two buffers that agree from position `from` on, read past `from`. */
  predicate SameFrom(d1: seq<Byte>, d2: seq<Byte>, from: nat)
  {
    |d1| == |d2| && from <= |d1| && d1[from..] == d2[from..]
  }

  lemma SameFromSlice(d1: seq<Byte>, d2: seq<Byte>, from: nat, lo: nat, hi: nat)
    requires SameFrom(d1, d2, from)
    requires from <= lo <= hi <= |d1|
    ensures d1[lo..hi] == d2[lo..hi]
  {
    forall i | lo <= i < hi
      ensures d1[i] == d2[i]
    {
      assert d1[i] == d1[from..][i - from];
      assert d2[i] == d2[from..][i - from];
    }
  }

  lemma ReadDigestSame(d1: seq<Byte>, d2: seq<Byte>, from: nat, off: nat, present: bool, field: Truncation)
    requires SameFrom(d1, d2, from) && from <= off <= |d1|
    ensures ReadDigest(d1, off, present, field) == ReadDigest(d2, off, present, field)
  {
    if present && off + 32 <= |d1| {
      SameFromSlice(d1, d2, from, off, off + 32);
    }
  }

  lemma ReadFramedSame(d1: seq<Byte>, d2: seq<Byte>, from: nat, off: nat, width: nat, lengthField: Truncation, dataField: Truncation)
    requires SameFrom(d1, d2, from) && from <= off <= |d1|
    ensures ReadFramed(d1, off, width, lengthField, dataField) == ReadFramed(d2, off, width, lengthField, dataField)
  {
    if off + width <= |d1| {
      SameFromSlice(d1, d2, from, off, off + width);
      var n := LeValue(d1[off..off + width]);
      if off + width + n <= |d1| {
        SameFromSlice(d1, d2, from, off + width, off + width + n);
      }
    }
  }

  lemma ReadOptionalFramedSame(d1: seq<Byte>, d2: seq<Byte>, from: nat, off: nat, present: bool, width: nat,
                               lengthField: Truncation, dataField: Truncation)
    requires SameFrom(d1, d2, from) && from <= off <= |d1|
    ensures ReadOptionalFramed(d1, off, present, width, lengthField, dataField)
            == ReadOptionalFramed(d2, off, present, width, lengthField, dataField)
  {
    if present {
      ReadFramedSame(d1, d2, from, off, width, lengthField, dataField);
    }
  }

  lemma DecodeSectionsSame(d1: seq<Byte>, d2: seq<Byte>, from: nat, flags: nat, base: Option<Digest>, output: Option<Digest>, off: nat)
    requires SameFrom(d1, d2, from) && from <= off <= |d1|
    ensures DecodeSections(d1, flags, base, output, off) == DecodeSections(d2, flags, base, output, off)
  {
    var meta := ReadOptionalFramed(d1, off, HasFlag(flags, FLAG_METADATA), 4, MetadataLength, MetadataData);
    ReadOptionalFramedSame(d1, d2, from, off, HasFlag(flags, FLAG_METADATA), 4, MetadataLength, MetadataData);
    if meta.Ok? {
      var forward := ReadFramed(d1, meta.value.next, 8, ForwardLength, ForwardData);
      ReadFramedSame(d1, d2, from, meta.value.next, 8, ForwardLength, ForwardData);
      if forward.Ok? {
        ReadOptionalFramedSame(d1, d2, from, forward.value.next, HasFlag(flags, FLAG_REVERSE_PATCH), 8, ReverseLength, ReverseData);
      }
    }
  }

  /** Only the four defined flag bits influence decoding: a versioned buffer
      whose flag word has any of the other 28 bits set decodes exactly as the
      same buffer with those bits cleared. */
  lemma UnknownFlagsIgnored(flags: nat, rest: seq<Byte>)
    requires flags < TWO_32
    ensures Deserialize(MAGIC_V2 + [VERSION] + LeBytes(flags, 4) + rest)
            == Deserialize(MAGIC_V2 + [VERSION] + LeBytes(flags % 16, 4) + rest)
  {
    var d1 := MAGIC_V2 + [VERSION] + LeBytes(flags, 4) + rest;
    var d2 := MAGIC_V2 + [VERSION] + LeBytes(flags % 16, 4) + rest;
    VersionedDecodes(flags, rest);
    VersionedDecodes(flags % 16, rest);
    HasFlagLowBits(flags, FLAG_BASE_CHECKSUM);
    HasFlagLowBits(flags, FLAG_OUTPUT_CHECKSUM);
    HasFlagLowBits(flags, FLAG_METADATA);
    HasFlagLowBits(flags, FLAG_REVERSE_PATCH);
    DecodeFieldsSame(d1, d2, flags, flags % 16);
  }

  /** A versioned buffer is decoded with the flag word written in its header. */
  lemma VersionedDecodes(flags: nat, rest: seq<Byte>)
    requires flags < TWO_32
    ensures var d := MAGIC_V2 + [VERSION] + LeBytes(flags, 4) + rest;
            && |d| >= HEADER_SIZE && d[HEADER_SIZE..] == rest
            && Deserialize(d) == DecodeFields(d, flags)
  {
    Pow256Widths();
    var d := MAGIC_V2 + [VERSION] + LeBytes(flags, 4) + rest;
    assert d[..8] == MAGIC_V2;
    assert d[9..13] == LeBytes(flags, 4);
    assert d[HEADER_SIZE..] == rest;
    LeValueOfLeBytes(flags, 4);
  }

  /** Two flag words that agree on the four defined bits. */
  predicate SameFlagBits(f1: nat, f2: nat)
  {
    && HasFlag(f1, FLAG_BASE_CHECKSUM) == HasFlag(f2, FLAG_BASE_CHECKSUM)
    && HasFlag(f1, FLAG_OUTPUT_CHECKSUM) == HasFlag(f2, FLAG_OUTPUT_CHECKSUM)
    && HasFlag(f1, FLAG_METADATA) == HasFlag(f2, FLAG_METADATA)
    && HasFlag(f1, FLAG_REVERSE_PATCH) == HasFlag(f2, FLAG_REVERSE_PATCH)
  }

  /** Buffers that agree after the header, read with flag words that agree
      on the defined bits, decode alike. */
  lemma DecodeFieldsSame(d1: seq<Byte>, d2: seq<Byte>, f1: nat, f2: nat)
    requires |d1| >= HEADER_SIZE && |d2| >= HEADER_SIZE && d1[HEADER_SIZE..] == d2[HEADER_SIZE..]
    requires SameFlagBits(f1, f2)
    ensures DecodeFields(d1, f1) == DecodeFields(d2, f2)
  {
    assert SameFrom(d1, d2, HEADER_SIZE);
    var base := ReadDigest(d1, HEADER_SIZE, HasFlag(f1, FLAG_BASE_CHECKSUM), BaseChecksum);
    ReadDigestSame(d1, d2, HEADER_SIZE, HEADER_SIZE, HasFlag(f1, FLAG_BASE_CHECKSUM), BaseChecksum);
    if base.Ok? {
      var output := ReadDigest(d1, base.value.next, HasFlag(f1, FLAG_OUTPUT_CHECKSUM), OutputChecksum);
      ReadDigestSame(d1, d2, HEADER_SIZE, base.value.next, HasFlag(f1, FLAG_OUTPUT_CHECKSUM), OutputChecksum);
      if output.Ok? {
        DecodeSectionsSame(d1, d2, HEADER_SIZE, f1, base.value.value, output.value.value, output.value.next);
        DecodeSectionsFlags(d2, f1, f2, base.value.value, output.value.value, output.value.next);
      }
    }
  }

  lemma DecodeSectionsFlags(d: seq<Byte>, f1: nat, f2: nat, base: Option<Digest>, output: Option<Digest>, off: nat)
    requires off <= |d| && SameFlagBits(f1, f2)
    ensures DecodeSections(d, f1, base, output, off) == DecodeSections(d, f2, base, output, off)
  {
  }
}
