/**
 The whole compressor: one fixed-Huffman block, or stored blocks when that comes out longer,
 followed by the Adler-32 checksum.
 */
module Zlib {
  import opened Bits
  import opened Inflate
  import opened Matcher
  import opened ZlibWriter
  import opened TokenCode

  const HEADER: seq<byte> := [0x78, 0x5E]
  const MAX_STORED: nat := 32767

  /** Keeps the low eight bits of a two's complement number. */
  function Uchar(v: int): byte {
    v % 256
  }

  // ---------- Adler-32 with the modulo deferred ----------

  /** Both running sums are right modulo the base. */
  ghost predicate SumsUpTo(s1: nat, s2: nat, d: seq<byte>) {
    (s1 % ADLER_BASE, s2 % ADLER_BASE) == Adler(d)
  }

  /** Adds one block of at most 5552 bytes without reducing; neither sum leaves 32 bits. */
  method SumBlock(data: seq<byte>, j: nat, blocklen: nat, t1: nat, t2: nat) returns (s1: nat, s2: nat)
    requires j + blocklen <= |data| && blocklen <= 5552
    requires t1 < ADLER_BASE && t2 < ADLER_BASE && SumsUpTo(t1, t2, data[..j])
    ensures SumsUpTo(s1, s2, data[..j + blocklen])
    ensures s1 < 0x1_0000_0000 && s2 < 0x1_0000_0000
  {
    hide SumsUpTo;
    s1, s2 := t1, t2;
    for i := 0 to blocklen
      invariant s1 <= 65520 + 255 * i && s2 <= 65520 + 65520 * i + 255 * Triangle(i)
      invariant s1 < 0x1_0000_0000 && s2 < 0x1_0000_0000
      invariant SumsUpTo(s1, s2, data[..j + i])
    {
      TriangleBound(i + 1);
      assert data[..j + i + 1] == data[..j + i] + [data[j + i]];
      SumNext(s1, s2, data[..j + i], data[j + i]);
      s1 := s1 + data[j + i];
      s2 := s2 + s1;
    }
  }

  /** The blockwise sums are those of the per-byte definition, also when the first block is empty. */
  method Adler32(data: seq<byte>) returns (s1: nat, s2: nat)
    ensures (s1, s2) == Adler(data)
  {
    hide SumsUpTo;
    s1, s2 := 1, 0;
    NoSums();
    var blocklen := |data| % 5552;
    var j := 0;
    ghost var full: int := |data| / 5552;
    while j < |data|
      invariant 0 <= j <= |data|
      invariant j == |data| || (|data| - j == blocklen + 5552 * full && full >= 0)
      invariant j == |data| || (0 <= blocklen <= 5552 && (blocklen == 5552 || j == 0))
      invariant s1 < ADLER_BASE && s2 < ADLER_BASE && SumsUpTo(s1, s2, data[..j])
      decreases |data| - j, if blocklen == 0 then 1 else 0
    {
      s1, s2 := SumBlock(data, j, blocklen, s1, s2);
      SumsReduced(s1, s2, data[..j + blocklen]);
      s1, s2 := s1 % ADLER_BASE, s2 % ADLER_BASE;
      j := j + blocklen;
      blocklen := 5552;
      full := full - 1;
    }
    assert data[..j] == data;
    SumsReduced(s1, s2, data);
  }

  lemma NoSums()
    ensures SumsUpTo(1, 0, [])
  {
  }

  lemma SumsReduced(s1: nat, s2: nat, d: seq<byte>)
    ensures SumsUpTo(s1, s2, d) ==> SumsUpTo(s1 % ADLER_BASE, s2 % ADLER_BASE, d)
    ensures SumsUpTo(s1, s2, d) && s1 < ADLER_BASE && s2 < ADLER_BASE ==> (s1, s2) == Adler(d)
  {
    hide Adler;
  }

  /** 1 + 2 + ... + n. */
  function Triangle(n: nat): nat {
    if n == 0 then 0 else n + Triangle(n - 1)
  }

  lemma {:induction false} TriangleClosed(n: nat)
    ensures 2 * Triangle(n) == n * (n + 1)
  {
    if n > 0 {
      TriangleClosed(n - 1);
    }
  }

  lemma {:induction false} TriangleBound(n: nat)
    requires n <= 5552
    ensures Triangle(n) <= 15415128
    decreases 5552 - n
  {
    if n == 5552 {
      TriangleClosed(n);
    } else {
      TriangleBound(n + 1);
    }
  }

  /** Reducing modulo the base early or late gives the same sums. */
  lemma SumNext(s1: nat, s2: nat, d: seq<byte>, b: byte)
    requires SumsUpTo(s1, s2, d)
    ensures SumsUpTo(s1 + b, s2 + (s1 + b), d + [b])
  {
    AdlerNext(d, b);
    hide Adler;
    ModAdd(s1, b);
    ModAdd(s2, s1 + b);
    ModAdd(s1 + b, s2 % ADLER_BASE);
  }

  lemma AdlerNext(d: seq<byte>, b: byte)
    ensures var (s1, s2) := Adler(d);
            Adler(d + [b]) == ((s1 + b) % ADLER_BASE, (s2 + (s1 + b) % ADLER_BASE) % ADLER_BASE)
  {
    assert (d + [b])[..|d|] == d;
  }

  lemma ModAdd(a: nat, b: nat)
    ensures (a % ADLER_BASE + b) % ADLER_BASE == (a + b) % ADLER_BASE
  {
  }

  // ---------- the two forms of the compressed data ----------

  /** The bits of the fixed-Huffman block: BFINAL = 1, BTYPE = 1, the tokens, end of block. */
  ghost function FixedBlock(ts: seq<Token>): seq<bool>
    requires forall t :: t in ts ==> Encodable(t)
  {
    [true] + [true, false] + TokensBits(ts) + SymbolBits(256)
  }

  ghost function EmptyTable(): (table: seq<seq<nat>>)
    ensures |table| == BUCKETS && forall h :: 0 <= h < BUCKETS ==> table[h] == []
  {
    seq(BUCKETS, h => [])
  }

  /** The tokens of the whole data, starting from empty buckets. */
  ghost function AllTokens(data: seq<byte>, quality: nat): (ts: seq<Token>)
    requires quality >= 1
    ensures forall t :: t in ts ==> Encodable(t)
  {
    EmptyTableIsGood(data, EmptyTable(), quality);
    Tokens(data, EmptyTable(), 0, quality)
  }

  /** z is the header, the fixed-Huffman block of the data, and zero bits up to a byte boundary. */
  ghost predicate FixedForm(data: seq<byte>, quality: nat, z: seq<byte>)
    requires quality >= 1
  {
    && |z| >= 2 && z[..2] == HEADER
    && exists k: nat :: k < 8 && ByteBits(z[2..]) == FixedBlock(AllTokens(data, quality)) + Zeros(k)
  }

  /** A stored block's five leading bytes. */
  function StoredHead(final: bool, len: int): (head: seq<byte>)
    requires 0 <= len <= MAX_STORED
    ensures |head| == 5
  {
    [if final then 1 else 0, Uchar(len), Uchar(len / 256), Uchar(-len - 1), Uchar((-len - 1) / 256)]
  }

  function StoredBlocks(data: seq<byte>, j: nat): seq<byte>
    requires j <= |data|
    decreases |data| - j
  {
    if j == |data| then [] else
    var len := if |data| - j > MAX_STORED then MAX_STORED else |data| - j;
    StoredHead(|data| - j == len, len) + data[j..j + len] + StoredBlocks(data, j + len)
  }

  /** Storing costs five bytes for every block begun. */
  lemma {:induction false} StoredLength(data: seq<byte>, j: nat)
    requires j <= |data|
    ensures |StoredBlocks(data, j)| == |data| - j + 5 * ((|data| - j + 32766) / 32767)
    decreases |data| - j
  {
    if j < |data| {
      var len := if |data| - j > MAX_STORED then MAX_STORED else |data| - j;
      StoredLength(data, j + len);
    }
  }

  /** The length from which the data is stored instead. */
  function Limit(n: nat): nat {
    n + 2 + (n + 32766) / 32767 * 5
  }

  /** It is the length of the stored form, so the data is stored exactly if that is shorter. */
  lemma LimitIs(data: seq<byte>)
    ensures Limit(|data|) == |HEADER + StoredBlocks(data, 0)|
  {
    hide StoredBlocks;
    StoredLength(data, 0);
  }

  /** The modulus of RFC 1950, and the checksum of "abc". */
  lemma AdlerValue()
    ensures ADLER_BASE == 65521 && AdlerBytes([97, 98, 99]) == [0x02, 0x4D, 0x01, 0x27]
  {
    AdlerOfAbc();
    hide Adler;
  }

  lemma AdlerOfAbc()
    ensures Adler([97, 98, 99]) == (0x127, 0x24D)
  {
    hide Adler;
    NoSums();
    AdlerNext([], 97);
    AdlerNext([97], 98);
    AdlerNext([97, 98], 99);
    assert [] + [97] == [97] && [97] + [98] == [97, 98] && [97, 98] + [99] == [97, 98, 99];
  }

  // ---------- reading bytes back ----------

  lemma {:induction false} TakeBytesOf(a: seq<byte>, rest: seq<bool>)
    ensures TakeBytes(ByteBits(a) + rest, |a|) == a
  {
    hide LowBits, LowValue, Pow2;
    if a != [] {
      SmallPowers();
      LowValueOfLowBits(a[0], 8);
      var bits := ByteBits(a) + rest;
      assert bits == LowBits(a[0], 8) + (ByteBits(a[1..]) + rest);
      assert bits[..8] == LowBits(a[0], 8);
      assert bits[8..] == ByteBits(a[1..]) + rest;
      TakeBytesOf(a[1..], rest);
    }
  }

  /** Bytes with the same bits are the same bytes, up to the shorter. */
  lemma ByteBitsPrefix(a: seq<byte>, b: seq<byte>, rest: seq<bool>)
    requires ByteBits(a) == ByteBits(b) + rest
    ensures |b| <= |a| && a[..|b|] == b && ByteBits(a[|b|..]) == rest
  {
    hide TakeBytes, ByteBits;
    var front, back := a[..|b|], a[|b|..];
    ByteBitsConcat(front, back);
    assert a == front + back;
    TakeBytesOf(b, rest);
    TakeBytesOf(front, ByteBits(back));
    assert rest == (ByteBits(b) + rest)[8 * |b|..];
  }

  lemma AlignOf(pad: seq<bool>, s: seq<bool>)
    requires |pad| < 8 && |s| % 8 == 0
    ensures Align(pad + s) == s
  {
    assert |pad + s| % 8 == |pad|;
  }

  lemma DecodeParts(z: seq<byte>, data: seq<byte>, rest: seq<bool>)
    requires |z| >= 6 && z[0] == 0x78 && z[1] == 0x5E && Blocks(ByteBits(z[2..]), []) == Got(data, rest)
    requires |Align(rest)| == 32 && TakeBytes(Align(rest), 4) == AdlerBytes(data)
    ensures ZlibDecode(z) == Some(data)
  {
    hide Blocks, Adler, AdlerBytes, Align, TakeBytes, ByteBits;
  }

  /** The checksum bytes after the blocks are what the zlib decoder expects to find. */
  lemma TrailerOf(body: seq<byte>, data: seq<byte>, k: nat)
    requires k < 8
    requires Blocks(ByteBits(body) + ByteBits(AdlerBytes(data)), []) == Got(data, Zeros(k) + ByteBits(AdlerBytes(data)))
    ensures ZlibDecode(HEADER + body + AdlerBytes(data)) == Some(data)
  {
    hide Blocks, Adler, Align, TakeBytes, ZlibDecode;
    var trailer := AdlerBytes(data);
    assert |trailer| == 4;
    var all := HEADER + body + trailer;
    assert all[2..] == body + trailer;
    ByteBitsConcat(body, trailer);
    var rest := Zeros(k) + ByteBits(trailer);
    AlignOf(Zeros(k), ByteBits(trailer));
    TakeBytesOf(trailer, []);
    assert ByteBits(trailer) + [] == ByteBits(trailer);
    assert all[0] == HEADER[0] && all[1] == HEADER[1];
    DecodeParts(all, data, rest);
  }

  /** Inflating the fixed-Huffman form gives back the data. */
  lemma FixedDecodes(data: seq<byte>, quality: nat, z: seq<byte>)
    requires quality >= 1 && FixedForm(data, quality, z)
    ensures ZlibDecode(z + AdlerBytes(data)) == Some(data)
  {
    hide SymbolBits, ByteBits, AdlerBytes, ZlibDecode, Blocks, Codes, FixedBlock, AllTokens, Covers, Zeros;
    var ts := AllTokens(data, quality);
    var k: nat :| k < 8 && ByteBits(z[2..]) == FixedBlock(ts) + Zeros(k);
    var trailer := ByteBits(AdlerBytes(data));
    AllTokensCover(data, quality);
    CodesOfCover(data, 0, ts, Zeros(k) + trailer);
    FixedBlockOf(data, ts, Zeros(k) + trailer);
    assert FixedBlock(ts) + (Zeros(k) + trailer) == ByteBits(z[2..]) + trailer;
    TrailerOf(z[2..], data, k);
    assert z == HEADER + z[2..];
  }

  lemma AllTokensCover(data: seq<byte>, quality: nat)
    requires quality >= 1
    ensures Covers(data, 0, AllTokens(data, quality))
  {
    hide GoodTable, Covers, Tokens;
    EmptyTableIsGood(data, EmptyTable(), quality);
    TokensCover(data, EmptyTable(), 0, quality);
    AllTokensFrom(data, EmptyTable(), quality);
  }

  lemma FixedBlockOf(data: seq<byte>, ts: seq<Token>, rest: seq<bool>)
    requires forall t :: t in ts ==> Encodable(t)
    requires Codes(TokensBits(ts) + (SymbolBits(256) + rest), data[..0]) == Got(data, rest)
    ensures Blocks(FixedBlock(ts) + rest, []) == Got(data, rest)
  {
    hide Codes, TokensBits, SymbolBits, LowBits;
    var body := TokensBits(ts) + (SymbolBits(256) + rest);
    assert FixedBlock(ts) + rest == [true] + ([true, false] + body);
    StartBits();
    FieldOf(1, 1, [true, false] + body);
    FieldOf(1, 2, body);
  }

  // ---------- stored blocks ----------

  lemma SixteenBits(v: nat)
    requires v < 65536
    ensures LowBits(v, 16) == LowBits(v % 256, 8) + LowBits(v / 256, 8)
    ensures ByteBits([v % 256, v / 256]) == LowBits(v, 16)
  {
    LowBitsSplit8(v, 8);
    ByteBitsConcat([v % 256], [v / 256]);
    ByteBitsSingleton(v % 256);
    ByteBitsSingleton(v / 256);
    assert [v % 256, v / 256] == [v % 256] + [v / 256];
  }

  lemma StoredHeadIs(final: bool, len: int)
    requires 0 <= len <= MAX_STORED
    ensures var n := 65535 - len;
            StoredHead(final, len) == [if final then 1 else 0] + ([len % 256, len / 256] + [n % 256, n / 256])
  {
    var n := 65535 - len;
    assert Uchar(-len - 1) == n % 256 && Uchar((-len - 1) / 256) == n / 256;
  }

  /** The block head reads as its flags, five skipped bits, the length and its complement. */
  lemma StoredHeadBits(final: bool, len: int)
    requires 0 <= len <= MAX_STORED
    ensures ByteBits(StoredHead(final, len))
         == [final] + ([false, false] + (Zeros(5) + (LowBits(len, 16) + LowBits(65535 - len, 16))))
  {
    hide LowBits, ByteBits, Zeros, StoredHead;
    var n := 65535 - len;
    var lens := [len % 256, len / 256] + [n % 256, n / 256];
    var fields := LowBits(len, 16) + LowBits(n, 16);
    StoredHeadIs(final, len);
    SixteenBits(len);
    SixteenBits(n);
    ByteBitsConcat([len % 256, len / 256], [n % 256, n / 256]);
    ByteBitsFront(if final then 1 else 0, lens);
    FlagByte(final);
    Reassociate([final], [false, false] + Zeros(5), fields);
    Reassociate([false, false], Zeros(5), fields);
  }

  lemma FlagByte(final: bool)
    ensures LowBits(if final then 1 else 0, 8) == [final] + ([false, false] + Zeros(5))
  {
    LowBitsOfZero(7);
    assert LowBits(if final then 1 else 0, 8) == [final] + LowBits(0, 7);
    assert Zeros(7) == [false, false] + Zeros(5);
  }

  lemma StoredBy(bits: seq<bool>, out: seq<byte>, len: nat, fields: seq<bool>, payload: seq<bool>)
    requires len <= 65535 && 8 * len <= |payload|
    requires Field(Align(bits), 16) == Got(len, fields) && Field(fields, 16) == Got(65535 - len, payload)
    ensures Stored(bits, out) == Got(out + TakeBytes(payload, len), payload[8 * len..])
  {
    hide Align, Field, TakeBytes;
  }

  /** The payload of a stored block, behind the length fields. */
  lemma StoredOf(chunk: seq<byte>, rest: seq<bool>, out: seq<byte>)
    requires |chunk| <= MAX_STORED && |rest| % 8 == 0
    ensures Stored(Zeros(5) + (LowBits(|chunk|, 16) + (LowBits(65535 - |chunk|, 16) + (ByteBits(chunk) + rest))), out)
         == Got(out + chunk, rest)
  {
    hide LowBits, TakeBytes, ByteBits, Pow2, Field, Align, Stored;
    var len := |chunk|;
    var payload := ByteBits(chunk) + rest;
    var fields := LowBits(65535 - len, 16) + payload;
    var sizes := LowBits(len, 16) + fields;
    AlignOf(Zeros(5), sizes);
    SmallPowers();
    FieldOf(len, 16, fields);
    FieldOf(65535 - len, 16, payload);
    StoredBy(Zeros(5) + sizes, out, len, fields, payload);
    TakeBytesOf(chunk, rest);
    assert payload[8 * len..] == rest;
  }

  lemma StoredBlockOf(final: bool, chunk: seq<byte>, rest: seq<bool>, out: seq<byte>)
    requires |chunk| <= MAX_STORED && |rest| % 8 == 0
    ensures Blocks(ByteBits(StoredHead(final, |chunk|)) + (ByteBits(chunk) + rest), out)
         == if final then Got(out + chunk, rest) else Blocks(rest, out + chunk)
  {
    hide LowBits, StoredHead, ByteBits, Stored, Field, Pow2;
    var len := |chunk|;
    var aligned := Zeros(5) + (LowBits(len, 16) + (LowBits(65535 - len, 16) + (ByteBits(chunk) + rest)));
    StoredHeadBits(final, len);
    var bits := ByteBits(StoredHead(final, len)) + (ByteBits(chunk) + rest);
    assert bits == [final] + ([false, false] + aligned);
    FlagFields(final, aligned);
    StoredOf(chunk, rest, out);
  }

  lemma FlagFields(final: bool, rest: seq<bool>)
    ensures Field([final] + ([false, false] + rest), 1) == Got(if final then 1 else 0, [false, false] + rest)
    ensures Field([false, false] + rest, 2) == Got(0, rest)
  {
    assert LowBits(if final then 1 else 0, 1) == [final];
    FieldOf(if final then 1 else 0, 1, [false, false] + rest);
    LowBitsOfZero(2);
    assert Zeros(2) == [false, false];
    FieldOf(0, 2, rest);
  }

  /** The stored blocks from j on continue the data to its end. */
  lemma {:induction false} StoredBlocksDecode(data: seq<byte>, j: nat, rest: seq<bool>)
    requires j < |data| && |rest| % 8 == 0
    ensures Blocks(ByteBits(StoredBlocks(data, j)) + rest, data[..j]) == Got(data, rest)
    decreases |data| - j
  {
    hide Blocks, StoredHead, ByteBits;
    var len := if |data| - j > MAX_STORED then MAX_STORED else |data| - j;
    var head, chunk, more := StoredHead(|data| - j == len, len), data[j..j + len], StoredBlocks(data, j + len);
    ConcatThree(head, chunk, more, rest);
    StoredBlockOf(|data| - j == len, chunk, ByteBits(more) + rest, data[..j]);
    assert data[..j] + chunk == data[..j + len];
    if j + len < |data| {
      StoredBlocksDecode(data, j + len, rest);
    } else {
      assert data[..j + len] == data;
      assert more == [];
      assert ByteBits([]) + rest == rest;
    }
  }

  lemma ConcatThree(head: seq<byte>, chunk: seq<byte>, more: seq<byte>, rest: seq<bool>)
    ensures ByteBits(head + chunk + more) + rest == ByteBits(head) + (ByteBits(chunk) + (ByteBits(more) + rest))
  {
    hide ByteBits;
    ByteBitsConcat(head + chunk, more);
    ByteBitsConcat(head, chunk);
  }

  /** Inflating the stored form gives back any data that is not empty. */
  lemma StoredDecodes(data: seq<byte>)
    requires |data| >= 1
    ensures ZlibDecode(HEADER + StoredBlocks(data, 0) + AdlerBytes(data)) == Some(data)
  {
    hide Blocks, StoredBlocks, ByteBits, AdlerBytes, ZlibDecode;
    var rest := ByteBits(AdlerBytes(data));
    StoredBlocksDecode(data, 0, rest);
    assert data[..0] == [];
    assert Zeros(0) + rest == rest;
    TrailerOf(StoredBlocks(data, 0), data, 0);
  }

  /** For no data at all the stored form has no block, so there is nothing to inflate. */
  lemma EmptyDoesNotDecode()
    ensures ZlibDecode(HEADER + StoredBlocks([], 0) + AdlerBytes([])) == None
  {
    var trailer: seq<byte> := [0, 0, 0, 1];
    assert AdlerBytes([]) == trailer;
    EmptyBlocks();
    hide Blocks, Adler, AdlerBytes;
    var z := HEADER + StoredBlocks([], 0) + AdlerBytes([]);
    assert z[2..] == trailer;
    assert z[0] == 0x78 && z[1] == 0x5E;
  }

  /** The checksum of nothing, read as blocks: a stored block whose length field is cut off. */
  lemma EmptyBlocks()
    ensures Blocks(ByteBits([0, 0, 0, 1]), []) == Bad
  {
    FlagByte(false);
    hide ByteBits, LowBits, Zeros, Stored, Align, Field, Blocks;
    var tail := ByteBits([0, 0, 1]);
    var rest := Zeros(5) + tail;
    ByteBitsFront(0, [0, 0, 1]);
    assert [0] + [0, 0, 1] == [0, 0, 0, 1];
    assert [false] + ([false, false] + Zeros(5)) + tail == [false] + ([false, false] + rest);
    FlagFields(false, rest);
    AlignOf(Zeros(5), tail);
    CutOff(rest);
    StoredIsBad(ByteBits([0, 0, 0, 1]), [false, false] + rest, rest);
  }

  lemma StoredIsBad(bits: seq<bool>, bits1: seq<bool>, bits2: seq<bool>)
    requires Field(bits, 1) == Got(0, bits1) && Field(bits1, 2) == Got(0, bits2) && Stored(bits2, []) == Bad
    ensures Blocks(bits, []) == Bad
  {
    hide Field, Stored, Codes;
  }

  lemma CutOff(bits: seq<bool>)
    requires |Align(bits)| == 24
    ensures Stored(bits, []) == Bad
  {
    hide Align, LowValue;
  }

  // ---------- the compressor ----------

  ghost function LengthBits(length: nat): seq<bool>
    requires 3 <= length <= MAX_MATCH
  {
    SymbolBits(257 + LengthIndex(length)) +
      LowBits(length - Lengthc(LengthIndex(length)), Lengtheb(LengthIndex(length)))
  }

  ghost function DistBits(dist: nat): seq<bool>
    requires 1 <= dist <= 32767
  {
    HighBits(DistIndex(dist), 5) + LowBits(dist - Distc(DistIndex(dist)), Disteb(DistIndex(dist)))
  }

  method EmitLength(w: Writer, length: nat)
    requires w.Valid() && 3 <= length <= MAX_MATCH
    modifies w, w.data
    ensures w.Valid() && (w.data == old(w.data) || fresh(w.data))
    ensures w.data.Length >= old(w.data.Length)
    ensures w.Stream() == old(w.Stream()) + LengthBits(length)
  {
    hide SymbolBits, LowBits, HighBits, Lengthc, Lengtheb, LengthIndex, Pow2, ByteBits;
    ghost var start := w.Stream();
    var j := FindLength(length);
    LengthRangesAreDisjoint(j, LengthIndex(length), length);
    LengthExtraFits(j, length);
    w.Huff(257 + j);
    if Lengtheb(j) > 0 {
      w.Add(length - Lengthc(j), Lengtheb(j));
    } else {
      assert LowBits(length - Lengthc(j), Lengtheb(j)) == [];
    }
    assert w.Stream() == start + LengthBits(length);
  }

  method EmitDist(w: Writer, dist: nat)
    requires w.Valid() && 1 <= dist <= 32767
    modifies w, w.data
    ensures w.Valid() && (w.data == old(w.data) || fresh(w.data))
    ensures w.data.Length >= old(w.data.Length)
    ensures w.Stream() == old(w.Stream()) + DistBits(dist)
  {
    hide LowBits, HighBits, Distc, Disteb, DistIndex, Pow2, ByteBits;
    ghost var start := w.Stream();
    var k := FindDist(dist);
    DistRangesAreDisjoint(k, DistIndex(dist), dist);
    DistExtraFits(k, dist);
    w.HuffAdd(k, 5);
    if Disteb(k) > 0 {
      w.Add(dist - Distc(k), Disteb(k));
    } else {
      assert LowBits(dist - Distc(k), Disteb(k)) == [];
    }
    assert w.Stream() == start + DistBits(dist);
  }

  method EmitToken(w: Writer, t: Token)
    requires w.Valid() && Encodable(t)
    modifies w, w.data
    ensures w.Valid() && (w.data == old(w.data) || fresh(w.data))
    ensures w.data.Length >= old(w.data.Length)
    ensures w.Stream() == old(w.Stream()) + TokenBits(t)
  {
    hide SymbolBits, LengthIndex, DistIndex, Pow2, ByteBits, LengthBits, DistBits, CopyBits;
    match t
    case Literal(b) =>
      w.HuffLiteral(b);
    case Copy(length, dist) =>
      EmitLength(w, length);
      EmitDist(w, dist);
      CopyBitsAre(length, dist);
  }

  lemma CopyBitsAre(length: nat, dist: nat)
    requires 3 <= length <= MAX_MATCH && 1 <= dist <= 32767
    ensures CopyBits(length, dist) == LengthBits(length) + DistBits(dist)
  {
    hide SymbolBits, LowBits, HighBits, Lengthc, Lengtheb, Distc, Disteb;
  }

  /** Writes out the final bytes, which are too few to be hashed. */
  method EmitLiterals(w: Writer, data: seq<byte>, from: nat)
    requires w.Valid() && from <= |data|
    modifies w, w.data
    ensures w.Valid() && (w.data == old(w.data) || fresh(w.data))
    ensures w.data.Length >= old(w.data.Length)
    ensures w.Stream() == old(w.Stream()) + TokensBits(Literals(data, from))
  {
    hide ByteBits, LowBits, SymbolBits, Pow2;
    ghost var all := w.Stream() + TokensBits(Literals(data, from));
    var i := from;
    while i < |data|
      invariant from <= i <= |data|
      invariant w.Valid() && (w.data == old(w.data) || fresh(w.data))
      invariant w.data.Length >= old(w.data.Length)
      invariant w.Stream() + TokensBits(Literals(data, i)) == all
    {
      ghost var written := w.Stream();
      w.HuffLiteral(data[i]);
      LiteralsUnfold(data, i);
      i := i + 1;
      assert written + (SymbolBits(data[i - 1]) + TokensBits(Literals(data, i))) == all;
    }
    assert w.Stream() + [] == w.Stream();
  }

  /** Emits the tokens of the data, choosing them as it goes. */
  method EmitTokens(w: Writer, data: seq<byte>, quality: nat)
    requires w.Valid() && quality >= 1
    modifies w, w.data
    ensures w.Valid() && (w.data == old(w.data) || fresh(w.data))
    ensures w.data.Length >= old(w.data.Length)
    ensures w.Stream() == old(w.Stream()) + TokensBits(AllTokens(data, quality))
  {
    hide GoodBucket, Insert, Choice, IsChosen, Bucket, TokenBits, AllTokens, ByteBits;
    hide LowBits, SymbolBits, Tokens, Pow2, TokensBits, Literals;
    var table := new seq<nat>[BUCKETS](h => []);
    assert table[..] == EmptyTable();
    EmptyTableIsGood(data, table[..], quality);
    ghost var all := w.Stream() + TokensBits(AllTokens(data, quality));
    AllTokensFrom(data, table[..], quality);
    var i := 0;
    while i < |data| - 3
      invariant 0 <= i <= |data| && GoodTable(data, table[..], i, quality)
      invariant w.Valid() && (w.data == old(w.data) || fresh(w.data))
      invariant w.data.Length >= old(w.data.Length)
      invariant w.Stream() + TokensBits(Tokens(data, table[..], i, quality)) == all
    {
      ghost var before, written := table[..], w.Stream();
      StepIsGood(data, before, i, quality);
      var t := Step(data, table, i, quality);
      EmitToken(w, t);
      TokensUnfold(data, before, i, quality);
      i := i + Span(t);
      ghost var more := TokensBits(Tokens(data, table[..], i, quality));
      assert written + (TokenBits(t) + more) == written + TokenBits(t) + more;
    }
    TokensEnd(data, table[..], i, quality);
    EmitLiterals(w, data, i);
  }

  lemma AllTokensFrom(data: seq<byte>, table: seq<seq<nat>>, quality: nat)
    requires quality >= 1 && table == EmptyTable() && GoodTable(data, table, 0, quality)
    ensures AllTokens(data, quality) == Tokens(data, table, 0, quality)
  {
  }

  /** The tokens after the one chosen at i. */
  ghost function Following(data: seq<byte>, table: seq<seq<nat>>, i: nat, quality: nat): (ts: seq<Token>)
    requires i + 3 < |data| && quality >= 1 && GoodTable(data, table, i, quality)
    ensures forall t :: t in ts ==> Encodable(t)
  {
    hide Choice, Insert, GoodBucket, Reproduces;
    StepIsGood(data, table, i, quality);
    Tokens(data, Insert(data, table, i, quality), i + Span(Choice(data, table, i, quality)), quality)
  }

  lemma TokensUnfold(data: seq<byte>, table: seq<seq<nat>>, i: nat, quality: nat)
    requires i + 3 < |data| && quality >= 1 && GoodTable(data, table, i, quality)
    ensures Encodable(Choice(data, table, i, quality))
    ensures TokensBits(Tokens(data, table, i, quality))
         == TokenBits(Choice(data, table, i, quality)) + TokensBits(Following(data, table, i, quality))
  {
    hide Choice, Insert, GoodBucket, TokenBits, Reproduces;
    StepIsGood(data, table, i, quality);
    var more := Following(data, table, i, quality);
    assert Tokens(data, table, i, quality) == [Choice(data, table, i, quality)] + more;
  }

  lemma TokensEnd(data: seq<byte>, table: seq<seq<nat>>, i: nat, quality: nat)
    requires i <= |data| <= i + 3 && quality >= 1 && GoodTable(data, table, i, quality)
    ensures Tokens(data, table, i, quality) == Literals(data, i)
  {
  }

  lemma LiteralsUnfold(data: seq<byte>, i: nat)
    requires i < |data|
    ensures TokensBits(Literals(data, i)) == SymbolBits(data[i]) + TokensBits(Literals(data, i + 1))
  {
    hide SymbolBits;
    assert Literals(data, i)[1..] == Literals(data, i + 1);
  }

  method PushTwo(w: Writer, a: byte, b: byte)
    requires w.Valid()
    modifies w, w.data
    ensures w.Valid() && (w.data == old(w.data) || fresh(w.data))
    ensures w.data.Length >= old(w.data.Length)
    ensures w.Contents() == old(w.Contents()) + [a, b]
  {
    hide Pow2;
    w.Push(a);
    w.Push(b);
  }

  method PushHead(w: Writer, final: bool, blocklen: int)
    requires w.Valid() && 0 <= blocklen <= MAX_STORED
    modifies w, w.data
    ensures w.Valid() && (w.data == old(w.data) || fresh(w.data))
    ensures w.data.Length >= old(w.data.Length)
    ensures w.Contents() == old(w.Contents()) + StoredHead(final, blocklen)
  {
    hide Pow2, Uchar;
    w.Push(if final then 1 else 0);
    PushTwo(w, Uchar(blocklen), Uchar(blocklen / 256));
    PushTwo(w, Uchar(-blocklen - 1), Uchar((-blocklen - 1) / 256));
  }

  method StoreBlock(w: Writer, data: seq<byte>, j: nat, blocklen: nat)
    requires w.Valid() && w.n + 5 + blocklen < w.data.Length
    requires blocklen <= MAX_STORED && j + blocklen <= |data|
    modifies w, w.data
    ensures w.Valid() && (w.data == old(w.data) || fresh(w.data))
    ensures w.data.Length >= old(w.data.Length)
    ensures w.Contents() == old(w.Contents()) + (StoredHead(|data| - j == blocklen, blocklen) + data[j..j + blocklen])
  {
    hide Pow2, StoredHead;
    PushHead(w, |data| - j == blocklen, blocklen);
    w.CopyUnchecked(data[j..j + blocklen]);
  }

  /** One pass of the loop over the stored blocks. */
  method StoreNext(w: Writer, data: seq<byte>, j: nat) returns (next: nat)
    requires w.Valid() && j < |data| && w.n + |StoredBlocks(data, j)| < w.data.Length
    modifies w, w.data
    ensures w.Valid() && (w.data == old(w.data) || fresh(w.data))
    ensures j < next <= |data| && w.n + |StoredBlocks(data, next)| < w.data.Length
    ensures w.Contents() + StoredBlocks(data, next) == old(w.Contents()) + StoredBlocks(data, j)
  {
    hide Pow2, StoredHead;
    var blocklen := |data| - j;
    if blocklen > 32767 {
      blocklen := 32767;
    }
    next := j + blocklen;
    ghost var before, more := w.Contents(), StoredBlocks(data, next);
    ghost var block := StoredHead(|data| - j == blocklen, blocklen) + data[j..next];
    assert StoredBlocks(data, j) == block + more;
    hide StoredBlocks;
    StoreBlock(w, data, j, blocklen);
    assert before + (block + more) == before + block + more;
  }

  /** Replaces whatever was written by stored blocks; the buffer is known to be large enough already. */
  method Store(w: Writer, data: seq<byte>)
    requires w.Valid() && w.n >= 2 && w.Contents()[..2] == HEADER && w.n > Limit(|data|)
    modifies w, w.data
    ensures w.Valid() && (w.data == old(w.data) || fresh(w.data))
    ensures w.Contents() == HEADER + StoredBlocks(data, 0)
  {
    hide Pow2, StoredBlocks;
    StoredLength(data, 0);
    w.Truncate(2);
    var j := 0;
    while j < |data|
      invariant 0 <= j <= |data|
      invariant w.Valid() && (w.data == old(w.data) || fresh(w.data))
      invariant w.n + |StoredBlocks(data, j)| < w.data.Length
      invariant w.Contents() + StoredBlocks(data, j) == HEADER + StoredBlocks(data, 0)
    {
      j := StoreNext(w, data, j);
    }
    NothingStored(data);
    assert w.Contents() + [] == w.Contents();
  }

  lemma NothingStored(data: seq<byte>)
    ensures StoredBlocks(data, |data|) == []
  {
  }

  lemma StartBits()
    ensures LowBits(0, 0) == [] && LowBits(1, 1) == [true] && LowBits(1, 2) == [true, false]
    ensures Pow2(1) == 2 && Pow2(2) == 4
  {
  }

  /** Starts the output: the zlib header, BFINAL = 1 and BTYPE = 1. */
  method WriteStart() returns (w: Writer)
    ensures fresh(w) && fresh(w.data) && w.Valid()
    ensures w.Stream() == ByteBits(HEADER) + ([true] + [true, false])
  {
    StartBits();
    hide LowBits, ByteBits, Pow2;
    w := new Writer();
    w.Push(0x78);
    w.Push(0x5E);
    assert w.Contents() == HEADER;
    w.Add(1, 1);
    w.Add(1, 2);
    assert w.Stream() == ByteBits(HEADER) + ([true] + [true, false]);
  }

  /** Writes the header and the padded fixed-Huffman block. */
  method WriteFixed(data: seq<byte>, quality: nat) returns (w: Writer)
    requires quality >= 1
    ensures fresh(w) && fresh(w.data) && w.Valid() && FixedForm(data, quality, w.Contents())
  {
    hide Pow2, AllTokens, TokensBits, SymbolBits, LowBits, ByteBits;
    w := WriteStart();
    ghost var ts := AllTokens(data, quality);
    EmitTokens(w, data, quality);
    w.Huff(256);
    ghost var block := w.Stream();
    assert block == ByteBits(HEADER) + FixedBlock(ts);
    w.Pad();
    ghost var k: nat :| k < 8 && w.Stream() == block + Zeros(k);
    ghost var z := w.Contents();
    assert ByteBits(z) == ByteBits(HEADER) + (FixedBlock(ts) + Zeros(k));
    ByteBitsPrefix(z, HEADER, FixedBlock(ts) + Zeros(k));
  }

  method AppendAdler(w: Writer, data: seq<byte>)
    requires w.Valid()
    modifies w, w.data
    ensures w.Valid() && (w.data == old(w.data) || fresh(w.data))
    ensures w.Contents() == old(w.Contents()) + AdlerBytes(data)
  {
    hide Pow2, Adler;
    var s1, s2 := Adler32(data);
    PushTwo(w, Uchar(s2 / 256), Uchar(s2));
    PushTwo(w, Uchar(s1 / 256), Uchar(s1));
  }

  /**
   stbi_zlib_compress. The output is the fixed-Huffman form, or the stored form when the former is too long,
   and the checksum. A zlib decoder gets the data back unless there is none, when it gets nothing.
   */
  method Compress(data: seq<byte>, quality: int) returns (out: seq<byte>, ghost fixed: seq<byte>)
    ensures FixedForm(data, if quality < 5 then 5 else quality, fixed)
    ensures out == (if |fixed| > Limit(|data|) then HEADER + StoredBlocks(data, 0) else fixed) + AdlerBytes(data)
    ensures ZlibDecode(out) == if |data| >= 1 then Some(data) else None
    ensures |out| <= Limit(|data|) + 4
    ensures |out| >= 2 && out[..2] == [0x78, 0x5E]
  {
    hide Pow2, FixedForm, StoredBlocks, ZlibDecode, Adler;
    var q := if quality < 5 then 5 else quality;
    var w := WriteFixed(data, q);
    fixed := w.Contents();
    FixedStartsWithHeader(data, q, fixed);
    if w.n > |data| + 2 + ((|data| + 32766) / 32767) * 5 {
      Store(w, data);
      StoredLength(data, 0);
    }
    AppendAdler(w, data);
    out := w.Contents();
    if |data| >= 1 {
      StoredDecodes(data);
      FixedDecodes(data, q, fixed);
    } else {
      EmptyFixedIsLong(q, fixed);
      EmptyDoesNotDecode();
    }
  }

  lemma FixedStartsWithHeader(data: seq<byte>, quality: nat, z: seq<byte>)
    requires quality >= 1 && FixedForm(data, quality, z)
    ensures |z| >= 2 && z[..2] == HEADER
  {
  }

  /** The empty block alone takes ten bits, two bytes, so no data at all is stored, and in no block. */
  lemma EmptyFixedIsLong(quality: nat, z: seq<byte>)
    requires quality >= 1 && FixedForm([], quality, z)
    ensures |z| == 4 > Limit(0)
  {
    EmptyTableIsGood([], EmptyTable(), quality);
    assert AllTokens([], quality) == [];
  }
}
