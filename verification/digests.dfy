/** The 32-byte digests stored in containers. The underlying 64-bit hasher
    is an unspecified standard-library hash, so it is a parameter here: only
    the way its value is widened to 32 bytes, and how digests are checked, are
    modelled. */
module Digests {
  import opened Encoding
  import opened Errors

  type U64 = x: nat | x < TWO_64

  /** A fixed-width digest, Rust's `[u8; 32]`. */
  type Digest = s: seq<Byte> | |s| == 32 witness Zeros(32)

  /** The opaque 64-bit hash of a buffer. */
  type Hasher = seq<Byte> -> U64

  /** The 64-bit hash, little-endian in the first 8 bytes, zero-padded to 32. */
  function Hash(h: Hasher, data: seq<Byte>): (r: Digest)
    ensures LeValue(r[..8]) == h(data)
    ensures forall k :: 8 <= k < 32 ==> r[k] == 0
  {
    Pow256Widths();
    var low := LeBytes(h(data), 8);
    LeValueOfLeBytes(h(data), 8);
    var r := low + Zeros(24);
    assert r[..8] == low;
    r
  }

  /** Two buffers get the same digest exactly when their 64-bit hashes agree. */
  lemma HashEqualIff(h: Hasher, a: seq<Byte>, b: seq<Byte>)
    ensures Hash(h, a) == Hash(h, b) <==> h(a) == h(b)
  {
    if h(a) == h(b) {
      assert Hash(h, a)[..8] == Hash(h, b)[..8] by {
        LeValueInjective(Hash(h, a)[..8], Hash(h, b)[..8]);
      }
      assert Hash(h, a) == Hash(h, a)[..8] + Hash(h, a)[8..];
      assert Hash(h, b) == Hash(h, b)[..8] + Hash(h, b)[8..];
      assert Hash(h, a)[8..] == Hash(h, b)[8..];
    }
  }

  /** Whether `expected` is a digest the hasher can produce for `data`. */
  predicate DigestOf(h: Hasher, data: seq<Byte>, expected: Digest)
  {
    && LeValue(expected[..8]) == h(data)
    && forall k :: 8 <= k < 32 ==> expected[k] == 0
  }

  /** Succeeds exactly when `expected` is the digest of `data`; otherwise the
      mismatch reports both digests in lower-case hex. */
  function VerifyHash(h: Hasher, data: seq<Byte>, expected: Digest): (r: Result<()>)
    ensures r.Ok? <==> DigestOf(h, data, expected)
    ensures r.Err? ==> r.error == ChecksumMismatch(HexEncode(expected), HexEncode(Hash(h, data)))
  {
    var actual := Hash(h, data);
    DigestOfIsHash(h, data, expected);
    if actual != expected then Err(ChecksumMismatch(HexEncode(expected), HexEncode(actual)))
    else Ok(())
  }

  lemma DigestOfIsHash(h: Hasher, data: seq<Byte>, expected: Digest)
    ensures DigestOf(h, data, expected) <==> expected == Hash(h, data)
  {
    var actual := Hash(h, data);
    if DigestOf(h, data, expected) {
      LeValueInjective(expected[..8], actual[..8]);
      assert expected == expected[..8] + expected[8..];
      assert actual == actual[..8] + actual[8..];
      assert expected[8..] == actual[8..];
    }
  }
}
