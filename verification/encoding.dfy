/** Byte-level building blocks shared by the container codec, the digest
    helpers and the change preview: octets, little-endian integers of a
    fixed width, lower-case hexadecimal and decimal rendering. */
module Encoding {

  /** One octet, Rust's `u8`. */
  type Byte = b: int | 0 <= b < 256

  const TWO_32: nat := 0x1_0000_0000
  const TWO_63: nat := 0x8000_0000_0000_0000
  const TWO_64: nat := 0x1_0000_0000_0000_0000

  function Pow256(n: nat): (r: nat)
    ensures r >= 1
  {
    if n == 0 then 1 else 256 * Pow256(n - 1)
  }

  lemma Pow256Widths()
    ensures Pow256(4) == TWO_32
    ensures Pow256(8) == TWO_64
  {
  }

  /** `n` zero bytes. */
  function Zeros(n: nat): (r: seq<Byte>)
    ensures |r| == n
    ensures forall k :: 0 <= k < n ==> r[k] == 0
  {
    seq(n, _ => 0)
  }

  /** The `n`-byte little-endian encoding of `v` (`to_le_bytes` of a u32/u64). */
  function LeBytes(v: nat, n: nat): (r: seq<Byte>)
    requires v < Pow256(n)
    ensures |r| == n
    decreases n
  {
    if n == 0 then [] else [v % 256] + LeBytes(v / 256, n - 1)
  }

  /** The unsigned value of a little-endian byte string (`from_le_bytes`). */
  function LeValue(s: seq<Byte>): (v: nat)
    ensures v < Pow256(|s|)
  {
    if |s| == 0 then 0
    else
      var rest := LeValue(s[1..]);
      assert rest <= Pow256(|s| - 1) - 1;
      assert 256 * rest <= 256 * Pow256(|s| - 1) - 256;
      s[0] + 256 * rest
  }

  /** Decoding an encoded value gives the value back. */
  lemma {:induction false} LeValueOfLeBytes(v: nat, n: nat)
    requires v < Pow256(n)
    ensures LeValue(LeBytes(v, n)) == v
    decreases n
  {
    if n > 0 {
      var s := LeBytes(v, n);
      assert s[1..] == LeBytes(v / 256, n - 1);
      LeValueOfLeBytes(v / 256, n - 1);
    }
  }

  /** Encoding a decoded byte string at its own width gives the bytes back,
      so the little-endian value of a fixed-width field determines it. */
  lemma {:induction false} LeBytesOfLeValue(s: seq<Byte>)
    ensures LeBytes(LeValue(s), |s|) == s
  {
    if |s| > 0 {
      LeBytesOfLeValue(s[1..]);
      var v := LeValue(s);
      assert v % 256 == s[0];
      assert v / 256 == LeValue(s[1..]);
    }
  }

  lemma LeValueInjective(a: seq<Byte>, b: seq<Byte>)
    requires |a| == |b|
    requires LeValue(a) == LeValue(b)
    ensures a == b
  {
    LeBytesOfLeValue(a);
    LeBytesOfLeValue(b);
  }

  /** The lower-case hexadecimal digit for a nibble. */
  function HexDigit(v: nat): (c: char)
    requires v < 16
    ensures IsHexDigit(c)
  {
    if v < 10 then ('0' as int + v) as char else ('a' as int + v - 10) as char
  }

  predicate IsHexDigit(c: char)
  {
    '0' <= c <= '9' || 'a' <= c <= 'f'
  }

  function HexDigitValue(c: char): (v: nat)
    requires IsHexDigit(c)
    ensures v < 16 && HexDigit(v) == c
  {
    if '0' <= c <= '9' then (c - '0') as nat else (c - 'a') as nat + 10
  }

  /** Lower-case hexadecimal, two characters per byte, high nibble first
      (`format!("{:02x}", b)` for every byte, concatenated). */
  function HexEncode(bytes: seq<Byte>): (r: string)
    ensures |r| == 2 * |bytes|
    ensures forall i :: 0 <= i < |bytes| ==>
              r[2 * i] == HexDigit(bytes[i] / 16) && r[2 * i + 1] == HexDigit(bytes[i] % 16)
  {
    if |bytes| == 0 then ""
    else
      var rest := HexEncode(bytes[1..]);
      HexPairsCons(bytes, rest);
      [HexDigit(bytes[0] / 16), HexDigit(bytes[0] % 16)] + rest
  }

  /** `r` holds the two hex digits of each byte of `bytes`, in order. */
  predicate HexPairs(r: string, bytes: seq<Byte>)
  {
    && |r| == 2 * |bytes|
    && forall i :: 0 <= i < |bytes| ==>
         r[2 * i] == HexDigit(bytes[i] / 16) && r[2 * i + 1] == HexDigit(bytes[i] % 16)
  }

  lemma HexPairsCons(bytes: seq<Byte>, rest: string)
    requires |bytes| > 0
    requires HexPairs(rest, bytes[1..])
    ensures HexPairs([HexDigit(bytes[0] / 16), HexDigit(bytes[0] % 16)] + rest, bytes)
  {
    var r := [HexDigit(bytes[0] / 16), HexDigit(bytes[0] % 16)] + rest;
    forall i | 1 <= i < |bytes|
      ensures r[2 * i] == HexDigit(bytes[i] / 16) && r[2 * i + 1] == HexDigit(bytes[i] % 16)
    {
      assert bytes[1..][i - 1] == bytes[i];
      assert r[2 * i] == rest[2 * (i - 1)];
      assert r[2 * i + 1] == rest[2 * (i - 1) + 1];
    }
  }

  /** The inverse of `HexEncode`, used to state that the rendering loses nothing. */
  function HexDecode(s: string): (r: seq<Byte>)
    requires |s| % 2 == 0
    requires forall k :: 0 <= k < |s| ==> IsHexDigit(s[k])
    ensures 2 * |r| == |s|
  {
    if |s| == 0 then []
    else [16 * HexDigitValue(s[0]) + HexDigitValue(s[1])] + HexDecode(s[2..])
  }

  lemma HexEncodeDigits(bytes: seq<Byte>)
    ensures forall k :: 0 <= k < |HexEncode(bytes)| ==> IsHexDigit(HexEncode(bytes)[k])
  {
    var h := HexEncode(bytes);
    forall k | 0 <= k < |h|
      ensures IsHexDigit(h[k])
    {
      var i := k / 2;
      assert h[2 * i] == HexDigit(bytes[i] / 16);
      assert k == 2 * i || k == 2 * i + 1;
    }
  }

  lemma {:induction false} HexRoundTrip(bytes: seq<Byte>)
    ensures forall k :: 0 <= k < |HexEncode(bytes)| ==> IsHexDigit(HexEncode(bytes)[k])
    ensures HexDecode(HexEncode(bytes)) == bytes
  {
    HexEncodeDigits(bytes);
    if |bytes| > 0 {
      var h := HexEncode(bytes);
      HexRoundTrip(bytes[1..]);
      assert h[2..] == HexEncode(bytes[1..]);
      assert h[0] == HexDigit(bytes[0] / 16);
      assert h[1] == HexDigit(bytes[0] % 16);
    }
  }

  /** Two byte strings render to the same hex text only if they are equal. */
  lemma HexEncodeInjective(a: seq<Byte>, b: seq<Byte>)
    requires HexEncode(a) == HexEncode(b)
    ensures a == b
  {
    HexRoundTrip(a);
    HexRoundTrip(b);
  }

  /** Decimal rendering of a natural number (`format!("{}", n)`). */
  function Decimal(n: nat): (r: string)
    ensures |r| >= 1
    ensures forall k :: 0 <= k < |r| ==> '0' <= r[k] <= '9'
  {
    if n < 10 then [('0' as int + n) as char]
    else Decimal(n / 10) + [('0' as int + n % 10) as char]
  }

  function DecimalValue(s: string): nat
    requires forall k :: 0 <= k < |s| ==> '0' <= s[k] <= '9'
  {
    if |s| == 0 then 0
    else 10 * DecimalValue(s[..|s| - 1]) + (s[|s| - 1] - '0') as nat
  }

  /** Reading the decimal text back gives the number that was rendered. */
  lemma {:induction false} DecimalRoundTrip(n: nat)
    ensures DecimalValue(Decimal(n)) == n
  {
    if n >= 10 {
      DecimalRoundTrip(n / 10);
      var d := Decimal(n);
      assert d[..|d| - 1] == Decimal(n / 10);
    }
  }
}
