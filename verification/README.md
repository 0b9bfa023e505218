# rustine: patch container, checksum wrapper, change preview and pipelines

rustine distributes file updates as binary deltas. `generate` diffs a base
file against a patched file and writes a patch container. `apply` decodes a
container, picks the forward or the reverse delta, checks the stored
digests, runs the delta engine and writes the result. `inspect` reports what
a delta file holds.

This project models the core of that tool as pure Dafny functions and proves
properties about them:

- `encoding.dfy` (`Encoding`): the byte-level pieces. These are octets,
  fixed-width little-endian integers, lower-case hex and decimal text.
- `errors.dfy` (`Errors`): the error kinds the core raises, and the
  `Option`/`Result` wrappers.
- `digests.dfy` (`Digests`): the 32-byte digest. It is a 64-bit hash widened
  with zeros, plus `verify_hash`.
- `format.dfy` (`Format`): the patch container (`PatchData`).
  - Its builders and its flag word.
  - The versioned encoder.
  - The decoder, with its four outcomes: too small, legacy layout, raw
    passthrough, versioned layout.
- `checksum.dfy` (`Checksum`): the older `RUSTINE1` checksum wrapper
  (`wrap_patch` / `unwrap_patch`).
- `preview.dfy` (`Preview`): `find_changes` and `preview_summary`.
- `inspect.dfy` (`Inspect`): the `inspect` report.
- `level.dfy` (`Ui`): the verbosity level derived from the command-line
  flags.
- `engine.dfy` (`Delta`): the foreign delta engine and hasher. They are
  carried as function values, and the model only says how their failures
  are reported.
- `pipeline.dfy` (`Pipeline`): the decision logic of `generate` and
  `apply`.
  - Each `apply` returns an `ApplyRun`, a trace of the steps that reach the
    engine, the hasher or the disk, together with the outcome.
  - The trace lets ordering claims be stated, such as "aborts before the
    patch runs" or "a dry run only skips the write".

The checksum wrapper defines `hash`, `verify_hash` and `hex_encode`
identically to the container module. Each is modelled once, in `Digests`
and `Encoding`, and both source locations are cited below.

## Model

| member | source | states |
|---|---|---|
| Encoding.LeValueOfLeBytes | src/core/format.rs:211-220 | reading back a value written as n little-endian bytes gives the value |
| Encoding.LeBytesOfLeValue | src/core/format.rs:143 | a fixed-width field is determined by its little-endian value, so re-encoding the value gives the same bytes |
| Encoding.HexEncode | src/core/format.rs:324-326 | two characters per byte, high nibble first, every one a lower-case hex digit |
| Encoding.HexRoundTrip | src/core/checksum.rs:60-62 | the hex rendering consists of hex digits and decodes back to the original bytes |
| Encoding.HexEncodeInjective | src/core/format.rs:324-330 | different byte strings never render to the same hex text |
| Encoding.DecimalRoundTrip | src/core/preview.rs:98-104 | the decimal rendering of a count reads back as that count |
| Digests.Hash | src/core/format.rs:297-309 | the digest's first 8 bytes are the 64-bit hash in little-endian order; bytes 8 to 31 are zero |
| Digests.HashEqualIff | src/core/checksum.rs:8-21 | two buffers have equal digests exactly when their 64-bit hashes are equal |
| Digests.VerifyHash | src/core/format.rs:312-322 | succeeds exactly when the expected digest is one the hasher produces for the data; a failure is ChecksumMismatch carrying the expected and actual digests in hex |
| Digests.DigestOfIsHash | src/core/checksum.rs:48-58 | a digest passes verification exactly when it equals the computed digest |
| Format.New | src/core/format.rs:30-38 | a container holding only the forward delta |
| Format.WithChecksums | src/core/format.rs:41-45 | sets both digests and changes no other field |
| Format.WithReverse | src/core/format.rs:48-51 | sets the reverse delta and changes no other field |
| Format.WithMetadata | src/core/format.rs:54-57 | sets the metadata and changes no other field |
| Format.Flags | src/core/format.rs:61-81 | the flag word is below 16, and each defined bit is set exactly when its optional field is present |
| Format.HasFlagLowBits | src/core/format.rs:143-161 | a flag test depends only on the low four bits of the flag word |
| Format.Serialize | src/core/format.rs:60-115 | the encoding starts with "RUSTINE2" and version 2, has the little-endian flag word at bytes 9..13, and has length 13 + 32 per digest + (4 + metadata) + 8 + forward + (8 + reverse) |
| Format.SerializedSections | src/core/format.rs:85-112 | the encoding is the header, then the digests, the metadata frame, the forward frame and the reverse frame, at their fixed offsets |
| Format.ReadDigest | src/core/format.rs:147-173 | a successful digest read ends within the buffer, never before its start |
| Format.ReadFramed | src/core/format.rs:204-230 | a successful length-prefixed read ends within the buffer |
| Format.Deserialize | src/core/format.rs:118-141 | under 13 bytes is FileTooSmall even for raw data; the legacy magic goes to the legacy reader; an unknown magic is raw passthrough with every optional field empty; a bad version is UnsupportedVersion carrying the byte |
| Format.DeserializeV1 | src/core/format.rs:275-294 | under 72 bytes is V1TooSmall; otherwise both digests and the forward delta are read in order from byte 8, with no reverse delta and no metadata |
| Format.DecodePrefix | src/core/format.rs:118-271 | every cut of an encoding that keeps the header decodes to the container when complete, and otherwise to CorruptedPatch naming the field the cut falls in |
| Format.RoundTrip | src/core/format.rs:60-271 | every encodable container decodes from its own encoding, whatever combination of optional fields it has |
| Format.TruncationNamesField | src/core/format.rs:120-257 | a truncated encoding is always rejected: below 13 bytes as too small, and past the header with the field-specific error |
| Format.TrailingBytesIgnored | src/core/format.rs:258-270 | bytes after the last declared section of a decodable versioned buffer do not change its decoding |
| Format.UnknownFlagsIgnored | src/core/format.rs:143-262 | a flag word decodes exactly like its low four bits, so undefined bits are ignored |
| Checksum.WrapPatch | src/core/checksum.rs:24-31 | the wrapped buffer is 72 bytes longer than the delta |
| Checksum.UnwrapPatch | src/core/checksum.rs:34-45 | never fails; finds digests exactly on buffers over 72 bytes that start with "RUSTINE1", and then the buffer is magic, digests and payload; every other buffer is returned whole |
| Checksum.UnwrapWrap | src/core/checksum.rs:24-45 | unwrapping a wrapped delta returns the digests and delta exactly when the delta is non-empty; an empty one is passed through |
| Checksum.ContainerDecodesWrapped | src/core/format.rs:275-294 | the container decoder reads any wrapped buffer, an empty delta included, as the legacy layout with its digests and delta |
| Checksum.UnwrapAgreesWithDecode | src/core/checksum.rs:36 | on "RUSTINE1" buffers over 72 bytes the wrapper and the container decoder agree; at exactly 72 bytes the wrapper finds nothing while the decoder reads an empty delta |
| Preview.RegionEnd | src/core/preview.rs:22-26 | the inner scan advances past a differing start byte, stops on two equal bytes in a row or at the shared length, and never crosses two equal bytes in a row |
| Preview.TailChange | src/core/preview.rs:41-55 | there is no tail region when the lengths are equal; otherwise exactly one, at the shorter length, holding the longer side's suffix against nothing |
| Preview.ScanRegions | src/core/preview.rs:14-38 | every region of the shared-prefix scan lies below the shared length, has equal non-empty old and new parts that copy the inputs, starts and ends on a differing byte, and has no two equal bytes in a row |
| Preview.ScanSeparated | src/core/preview.rs:14-38 | regions come in increasing order, with at least two bytes between one region's end and the next region's start |
| Preview.ScanCovers | src/core/preview.rs:14-38 | every differing index of the shared prefix lies in some region |
| Preview.CoveredOnce | src/core/preview.rs:14-38 | no differing index lies in two regions |
| Preview.OutsideRegionsEqual | src/core/preview.rs:14-38 | bytes of the shared prefix outside every region are equal |
| Preview.ScanSame | src/core/preview.rs:14-38 | the scan of a buffer against itself finds no region |
| Preview.FindChanges | src/core/preview.rs:10-58 | there are no change regions exactly when the two buffers are equal: comparing a buffer with itself finds nothing, and any differing byte or length difference yields a region |
| Preview.FindChangesStructure | src/core/preview.rs:10-58 | the result is the prefix regions, well formed, separated and covering, followed by exactly one tail region iff the lengths differ |
| Preview.ScanTotalsBalance | src/core/preview.rs:28-32 | the prefix regions hold as many old bytes as new bytes |
| Preview.TotalsAppend | src/core/preview.rs:94-95 | the byte totals of two region lists add up |
| Preview.TotalsDifference | src/core/preview.rs:41-55 | the old total minus the new total is the old length minus the new length |
| Preview.PreviewSummary | src/core/preview.rs:89-105 | no regions gives "No changes detected"; otherwise the text reports the region count ("region" singular iff one) and the summed old and new byte counts |
| Inspect.SignedLe64 | src/core/inspect.rs:37 | the eight bytes read as a signed 64-bit value lie in the i64 range |
| Inspect.AsU64 | src/core/inspect.rs:37 | the cast keeps non-negative values and adds 2^64 to negative ones |
| Inspect.SignedThenCast | src/core/inspect.rs:36-40 | reading the field as i64 and casting to u64 gives its unsigned little-endian value |
| Inspect.Inspect | src/core/inspect.rs:16-55 | the result is InvalidPatch exactly when the engine rejects the unwrapped payload. On success it reports: is_valid set; patch_size as the whole input length; the output size as the u64 at payload bytes 24..32, or 0 below 32 bytes; checksums, RUSTINE1 format and the hex digests exactly when the wrapper was found |
| Inspect.InspectContainer | src/core/inspect.rs:18-31 | a "RUSTINE2" container is not unwrapped: it is valid or invalid as a whole and is reported without checksums |
| Inspect.InspectWrapped | src/core/inspect.rs:42-54 | a wrapped non-empty valid delta is reported with its size and both digests in hex |
| Ui.FromFlags | src/ui/level.rs:9-15 | quiet wins over verbose, verbose alone gives Verbose, and neither gives Normal |
| Ui.IsQuiet | src/ui/level.rs:17-19 | `quiet()` holds exactly for the level the quiet flag produces, whatever the verbose flag says |
| Ui.FromFlagsCovers | src/ui/level.rs:9-19 | every level arises from some flag pair, and the quiet test on a level from flags is the quiet flag |
| Delta.Create | src/core/diff.rs:6-16 | a failing diff is DiffFailed; otherwise the engine's delta |
| Delta.ApplyPatch | src/core/patch.rs:6-16 | a delta the engine rejects is InvalidPatch and is not run; a failing run is PatchFailed; otherwise the engine's output |
| Pipeline.GenerateContainer | src/main.rs:145-166 | the container holds the forward diff, both digests iff checksums are asked for, the reverse diff iff reverse is asked for, and never metadata; it fails with DiffFailed exactly when a needed diff fails |
| Pipeline.Generate | src/main.rs:145-169 | the written bytes exist exactly when the container does, and start with "RUSTINE2" |
| Pipeline.GenerateDecodes | src/main.rs:145-169 | the written bytes decode to the container `generate` built |
| Pipeline.Select | src/main.rs:237-254 | forward uses the forward delta with the stored digest roles; reverse uses the reverse delta with the roles swapped; a missing reverse delta is MissingReversePatch |
| Pipeline.ApplyContainer | src/main.rs:236-298 | a failed apply consists only of digest checks and the engine run, so it never previews or writes; asking for reverse without a reverse delta fails before any step |
| Pipeline.ApplyFile | src/main.rs:233-234 | a file that does not decode fails with the decoder's error before any step |
| Pipeline.MissingReverseFirst | src/main.rs:237-247 | asking for reverse without a reverse delta fails before any check or engine call |
| Pipeline.ReverseIsSwappedForward | src/main.rs:237-254 | applying in reverse is applying forward the container whose forward delta is the reverse one and whose digests are exchanged |
| Pipeline.InputMismatchStops | src/main.rs:256-274 | with verification on, a mismatching input digest stops the run after the check, with ChecksumMismatch, before the engine runs |
| Pipeline.OutputMismatchStops | src/main.rs:274-298 | with verification on, a mismatching output digest fails with ChecksumMismatch naming the stored and the actual output digest in hex, and the steps are exactly the optional input check, the engine run and the output check, so nothing is previewed or written |
| Pipeline.UnverifiedIgnoresDigests | src/main.rs:256-282 | without verification, the stored digests change nothing and no check happens |
| Pipeline.DryRunOnlySkipsWrite | src/main.rs:284-298 | a dry run has the same outcome and the same steps as a real run, minus the final write |
| Pipeline.ApplySucceeded | src/main.rs:234-298 | a successful run returns the engine's output for the selected delta, every checked digest matched, the preview appears iff verbose and the write appears iff not a dry run |
| Pipeline.GenerateThenApply | src/main.rs:145-298 | applying a generated container forward to its base gives the patched file whenever the engine's delta reproduces it |
| Pipeline.GenerateThenApplyReverse | src/main.rs:145-298 | applying a generated bidirectional container in reverse to the patched file gives the base whenever the reverse delta reproduces it |
| Pipeline.HashChecks | src/main.rs:152-153 | the digests `generate` stores pass the checks `apply` makes |

## Left out

- The qbsdiff delta engine (src/core/diff.rs, src/core/patch.rs, the header check in src/core/inspect.rs:21). It is foreign code and appears only as the function fields of `Delta.Engine`. The model proves nothing about deltas themselves, so the generate-then-apply lemmas assume the engine reproduces its input.
- The streaming variants `write_to` in diff.rs and patch.rs. They are I/O.
- `DefaultHasher` inside `hash`. It is an unspecified standard-library hash and becomes the `Hasher` parameter. Only its widening to 32 bytes is modelled.
- `format_hex_dump` (src/core/preview.rs:61-86). Its layout comes from the pretty_hex crate.
- File reading, writing, existence and overwrite checks, and default output paths. These are I/O. The `Write` step records the bytes that would be written and never fails.
- Command-line parsing, the help path and every message, spinner and colour.
  - This includes `show_gen_result`, `show_apply_result` and the inspect printout, which reads a reverse-delta flag that `PatchInfo` does not have.
  - This is presentation, not decision logic.
- The diagnostic decoration of errors. `Errors.Error` keeps only the kinds and their data. `Errors.Details` holds the corruption texts.
- Format.Serialize: the `as u32` truncation of the metadata length and the `usize` arithmetic are not modelled. `Encodable` requires lengths below 2^32 and 2^64, and the decoder's `offset + len` sums are unbounded integers, so a length field near 2^64, which would overflow on a real machine, is simply reported as truncated.
- Format.PatchData: metadata is kept as bytes and taken to be valid UTF-8. The `from_utf8_lossy` replacement of invalid sequences is not modelled.
- Inspect.Inspect: `patch_size` is an unbounded length rather than a `u64`.
- `inspect` unwraps with the older checksum wrapper rather than decoding the container. So a versioned container is validated whole and never reports checksums. `PatchInfo` has no reverse-delta field.
