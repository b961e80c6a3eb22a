/**
 The decoders the compressor is judged against: DEFLATE (RFC 1951, sections 3.1.1 and 3.2.3 to 3.2.6)
 and the zlib container around it (RFC 1950, section 2.2).
 Nothing here refers to the compressor.
 */
module Inflate {
  import opened Bits

  /** A k-bit numeric field, least significant bit first. */
  function Field(bits: seq<bool>, k: nat): (r: Reading<nat>)
    ensures r.Got? ==> |r.rest| == |bits| - k
  {
    if |bits| < k then Bad else Got(LowValue(bits[..k]), bits[k..])
  }

  /** One literal/length symbol of the fixed Huffman code (RFC 1951, section 3.2.6). */
  function Symbol(bits: seq<bool>): (r: Reading<nat>)
    ensures r.Got? ==> |r.rest| < |bits|
  {
    match Code(bits, 7)
    case Bad => Bad
    case Got(v7, rest7) =>
      if v7 <= 0x17 then Got(256 + v7, rest7)
      else match Code(bits, 8)
      case Bad => Bad
      case Got(v8, rest8) =>
        if 0x30 <= v8 <= 0xBF then Got(v8 - 0x30, rest8)
        else if 0xC0 <= v8 <= 0xC7 then Got(280 + (v8 - 0xC0), rest8)
        else match Code(bits, 9)
        case Bad => Bad
        case Got(v9, rest9) => if 0x190 <= v9 <= 0x1FF then Got(144 + (v9 - 0x190), rest9) else Bad
  }

  // RFC 1951, section 3.2.5: base value and number of extra bits of length codes 257..285
  const LENGTH_BASE: seq<nat> :=
    [3, 4, 5, 6, 7, 8, 9, 10, 11, 13, 15, 17, 19, 23, 27, 31, 35, 43, 51, 59, 67, 83, 99, 115, 131, 163, 195, 227, 258]
  const LENGTH_EXTRA: seq<nat> :=
    [0, 0, 0, 0, 0, 0, 0, 0, 1, 1, 1, 1, 2, 2, 2, 2, 3, 3, 3, 3, 4, 4, 4, 4, 5, 5, 5, 5, 0]

  // and of distance codes 0..29
  const DIST_BASE: seq<nat> :=
    [1, 2, 3, 4, 5, 7, 9, 13, 17, 25, 33, 49, 65, 97, 129, 193, 257, 385, 513, 769, 1025, 1537, 2049, 3073,
     4097, 6145, 8193, 12289, 16385, 24577]
  const DIST_EXTRA: seq<nat> :=
    [0, 0, 0, 0, 1, 1, 2, 2, 3, 3, 4, 4, 5, 5, 6, 6, 7, 7, 8, 8, 9, 9, 10, 10, 11, 11, 12, 12, 13, 13]

  function LengthBase(j: nat): nat requires j < 29 { LENGTH_BASE[j] }
  function LengthExtra(j: nat): nat requires j < 29 { LENGTH_EXTRA[j] }
  function DistBase(k: nat): nat requires k < 30 { DIST_BASE[k] }
  function DistExtra(k: nat): nat requires k < 30 { DIST_EXTRA[k] }

  /** Copies n bytes from dist back, one at a time, so a copy may read bytes it has just written. */
  function CopyBack(out: seq<byte>, dist: nat, n: nat): seq<byte>
    requires 1 <= dist <= |out|
    decreases n
  {
    if n == 0 then out else CopyBack(out + [out[|out| - dist]], dist, n - 1)
  }

  /** The <length, distance> pair that follows length symbol 257 + index. */
  function LengthDistance(index: nat, bits: seq<bool>): (r: Reading<(nat, nat)>)
    requires index < 29
    ensures r.Got? ==> |r.rest| < |bits|
  {
    match Field(bits, LengthExtra(index))
    case Bad => Bad
    case Got(lengthExtra, rest) =>
      match Code(rest, 5)
      case Bad => Bad
      case Got(distCode, rest') =>
        if distCode >= 30 then Bad
        else match Field(rest', DistExtra(distCode))
        case Bad => Bad
        case Got(distExtra, rest'') =>
          Got((LengthBase(index) + lengthExtra, DistBase(distCode) + distExtra), rest'')
  }

  /** Decodes symbols up to the end-of-block symbol, appending to what is already decoded. */
  function Codes(bits: seq<bool>, out: seq<byte>): (r: Reading<seq<byte>>)
    ensures r.Got? ==> |r.rest| < |bits|
    decreases |bits|
  {
    match Symbol(bits)
    case Bad => Bad
    case Got(symbol, rest) =>
      if symbol < 256 then Codes(rest, out + [symbol])
      else if symbol == 256 then Got(out, rest)
      else if symbol > 285 then Bad
      else match LengthDistance(symbol - 257, rest)
      case Bad => Bad
      case Got((length, dist), rest') =>
        if dist == 0 || dist > |out| then Bad
        else Codes(rest', CopyBack(out, dist, length))
  }

  function TakeBytes(bits: seq<bool>, n: nat): seq<byte>
    requires 8 * n <= |bits|
    decreases n
  {
    if n == 0 then [] else
    SmallPowers();
    [LowValue(bits[..8]) as byte] + TakeBytes(bits[8..], n - 1)
  }

  /** Skips to the next byte boundary; the stream as a whole is a whole number of bytes. */
  function Align(bits: seq<bool>): seq<bool> {
    bits[|bits| % 8..]
  }

  /** A stored block (RFC 1951, section 3.2.4). */
  function Stored(bits: seq<bool>, out: seq<byte>): (r: Reading<seq<byte>>)
    ensures r.Got? ==> |r.rest| < |bits|
  {
    match Field(Align(bits), 16)
    case Bad => Bad
    case Got(len, rest) =>
      match Field(rest, 16)
      case Bad => Bad
      case Got(nlen, rest') =>
        if len + nlen != 0xFFFF || |rest'| < 8 * len then Bad
        else Got(out + TakeBytes(rest', len), rest'[8 * len..])
  }

  /** The blocks of a stream (RFC 1951, section 3.2.3); blocks with dynamic Huffman codes are not accepted. */
  function Blocks(bits: seq<bool>, out: seq<byte>): Reading<seq<byte>>
    decreases |bits|
  {
    match Field(bits, 1)
    case Bad => Bad
    case Got(final, rest) =>
      match Field(rest, 2)
      case Bad => Bad
      case Got(kind, rest') =>
        var block := if kind == 0 then Stored(rest', out) else if kind == 1 then Codes(rest', out) else Bad;
        if block.Bad? || final == 1 then block
        else Blocks(block.rest, block.value)
  }

  // ---------- Adler-32 (RFC 1950, sections 2.2 and 8.2) ----------

  const ADLER_BASE: nat := 65521

  /** The pair (s1, s2) after the bytes of d, both kept modulo 65521 at every byte. */
  function Adler(d: seq<byte>): (r: (nat, nat))
    ensures r.0 < ADLER_BASE && r.1 < ADLER_BASE
  {
    if d == [] then (1, 0) else
    var (s1, s2) := Adler(d[..|d| - 1]);
    var s1' := (s1 + d[|d| - 1]) % ADLER_BASE;
    (s1', (s2 + s1') % ADLER_BASE)
  }

  /** s2 * 65536 + s1, most significant byte first. */
  function AdlerBytes(d: seq<byte>): seq<byte> {
    var (s1, s2) := Adler(d);
    [s2 / 256, s2 % 256, s1 / 256, s1 % 256]
  }

  /** The data of a zlib stream, provided the stream is well formed and nothing follows it. */
  function ZlibDecode(z: seq<byte>): Option<seq<byte>> {
    if |z| < 6 then None
    else if z[0] % 16 != 8 || z[0] / 16 > 7 || (z[0] as int * 256 + z[1]) % 31 != 0 || z[1] / 32 % 2 == 1 then None
    else match Blocks(ByteBits(z[2..]), [])
    case Bad => None
    case Got(data, rest) =>
      if |Align(rest)| == 32 && TakeBytes(Align(rest), 4) == AdlerBytes(data) then Some(data) else None
  }
}
