/**
 How tokens become bits, and the proof that the RFC 1951 decoder reads them back.
 */
module TokenCode {
  import opened Bits
  import opened Inflate
  import opened Matcher
  import ZlibWriter

  // the compressor's own tables, each base table with one entry more than there are codes
  const LENGTHC: seq<nat> :=
    [3, 4, 5, 6, 7, 8, 9, 10, 11, 13, 15, 17, 19, 23, 27, 31, 35, 43, 51, 59, 67, 83, 99, 115, 131, 163, 195, 227,
     258, 259]
  const LENGTHEB: seq<nat> :=
    [0, 0, 0, 0, 0, 0, 0, 0, 1, 1, 1, 1, 2, 2, 2, 2, 3, 3, 3, 3, 4, 4, 4, 4, 5, 5, 5, 5, 0]
  const DISTC: seq<nat> :=
    [1, 2, 3, 4, 5, 7, 9, 13, 17, 25, 33, 49, 65, 97, 129, 193, 257, 385, 513, 769, 1025, 1537, 2049, 3073,
     4097, 6145, 8193, 12289, 16385, 24577, 32768]
  const DISTEB: seq<nat> :=
    [0, 0, 0, 0, 1, 1, 2, 2, 3, 3, 4, 4, 5, 5, 6, 6, 7, 7, 8, 8, 9, 9, 10, 10, 11, 11, 12, 12, 13, 13]

  function Lengthc(j: nat): nat requires j < 30 { LENGTHC[j] }
  function Lengtheb(j: nat): nat requires j < 29 { LENGTHEB[j] }
  function Distc(k: nat): nat requires k < 31 { DISTC[k] }
  function Disteb(k: nat): nat requires k < 30 { DISTEB[k] }

  lemma {:induction false} LengthcGrows(a: nat, b: nat)
    requires a <= b < 30
    ensures Lengthc(a) <= Lengthc(b)
    decreases b - a
  {
    if a < b {
      LengthcGrows(a + 1, b);
    }
  }

  lemma {:induction false} DistcGrows(a: nat, b: nat)
    requires a <= b < 31
    ensures Distc(a) <= Distc(b)
    decreases b - a
  {
    if a < b {
      DistcGrows(a + 1, b);
    }
  }

  /** Code j's range, from its base value to the next one's, holds length. */
  predicate InLengthRange(j: nat, length: nat) {
    j < 29 && Lengthc(j) <= length < Lengthc(j + 1)
  }

  predicate InDistRange(k: nat, dist: nat) {
    k < 30 && Distc(k) <= dist < Distc(k + 1)
  }

  /** Finds the length code by walking the table. */
  method FindLength(length: nat) returns (j: nat)
    requires 3 <= length <= MAX_MATCH
    ensures InLengthRange(j, length)
  {
    j := 0;
    while length > Lengthc(j + 1) - 1
      invariant j < 29 && Lengthc(j) <= length
    {
      j := j + 1;
    }
  }

  method FindDist(dist: nat) returns (k: nat)
    requires 1 <= dist <= 32767
    ensures InDistRange(k, dist)
  {
    k := 0;
    while dist > Distc(k + 1) - 1
      invariant k < 30 && Distc(k) <= dist
    {
      k := k + 1;
    }
  }

  lemma {:induction false} LengthRangeExists(j: nat, length: nat)
    requires j < 29 && Lengthc(j) <= length < 259
    ensures exists r :: InLengthRange(r, length)
    decreases 29 - j
  {
    if length < Lengthc(j + 1) {
      assert InLengthRange(j, length);
    } else {
      LengthRangeExists(j + 1, length);
    }
  }

  lemma {:induction false} DistRangeExists(k: nat, dist: nat)
    requires k < 30 && Distc(k) <= dist < 32768
    ensures exists r :: InDistRange(r, dist)
    decreases 30 - k
  {
    if dist < Distc(k + 1) {
      assert InDistRange(k, dist);
    } else {
      DistRangeExists(k + 1, dist);
    }
  }

  lemma LengthRangesAreDisjoint(j: nat, k: nat, length: nat)
    requires InLengthRange(j, length) && InLengthRange(k, length)
    ensures j == k
  {
    hide Lengthc;
    if j < k {
      LengthcGrows(j + 1, k);
    } else if k < j {
      LengthcGrows(k + 1, j);
    }
  }

  lemma DistRangesAreDisjoint(j: nat, k: nat, dist: nat)
    requires InDistRange(j, dist) && InDistRange(k, dist)
    ensures j == k
  {
    hide Distc;
    if j < k {
      DistcGrows(j + 1, k);
    } else if k < j {
      DistcGrows(k + 1, j);
    }
  }

  ghost function LengthIndex(length: nat): (j: nat)
    requires 3 <= length <= MAX_MATCH
    ensures InLengthRange(j, length)
  {
    LengthRangeExists(0, length);
    var j :| InLengthRange(j, length); j
  }

  ghost function DistIndex(dist: nat): (k: nat)
    requires 1 <= dist <= 32767
    ensures InDistRange(k, dist)
  {
    DistRangeExists(0, dist);
    var k :| InDistRange(k, dist); k
  }

  lemma LengthExtraFits(j: nat, length: nat)
    requires InLengthRange(j, length)
    ensures length - Lengthc(j) < Pow2(Lengtheb(j)) && Lengtheb(j) <= 5
  {
    SmallPowers();
    hide Pow2;
  }

  lemma DistExtraFits(j: nat, dist: nat)
    requires InDistRange(j, dist)
    ensures dist - Distc(j) < Pow2(Disteb(j)) && Disteb(j) <= 13
  {
    SmallPowers();
    hide Pow2;
    if j >= 2 {
      assert Disteb(j) == j / 2 - 1;
    }
  }

  ghost function CopyBits(length: nat, dist: nat): seq<bool>
    requires 3 <= length <= MAX_MATCH && 1 <= dist <= 32767
  {
    var j, k := LengthIndex(length), DistIndex(dist);
    ZlibWriter.SymbolBits(257 + j) + LowBits(length - Lengthc(j), Lengtheb(j)) + HighBits(k, 5) +
      LowBits(dist - Distc(k), Disteb(k))
  }

  ghost function TokenBits(t: Token): seq<bool>
    requires Encodable(t)
  {
    match t
    case Literal(b) => ZlibWriter.SymbolBits(b)
    case Copy(length, dist) => CopyBits(length, dist)
  }

  ghost function TokensBits(ts: seq<Token>): seq<bool>
    requires forall t :: t in ts ==> Encodable(t)
  {
    if ts == [] then [] else TokenBits(ts[0]) + TokensBits(ts[1..])
  }

  // ---------- reading a field back ----------

  lemma FieldOf(v: nat, k: nat, rest: seq<bool>)
    requires v < Pow2(k)
    ensures Field(LowBits(v, k) + rest, k) == Got(v, rest)
  {
    LowValueOfLowBits(v, k);
    assert (LowBits(v, k) + rest)[..k] == LowBits(v, k);
    assert (LowBits(v, k) + rest)[k..] == rest;
  }

  lemma CodeOf(v: nat, k: nat, rest: seq<bool>)
    requires v < Pow2(k)
    ensures Code(HighBits(v, k) + rest, k) == Got(v, rest)
  {
    HighValueOfHighBits(v, k);
    assert (HighBits(v, k) + rest)[..k] == HighBits(v, k);
    assert (HighBits(v, k) + rest)[k..] == rest;
  }

  /** The first bits of a longer code, read as a shorter one, are the code's high bits. */
  lemma CodePrefix(v: nat, k: nat, rest: seq<bool>)
    requires k >= 1 && v < Pow2(k)
    ensures HighBits(v, k) + rest == HighBits(v / 2, k - 1) + ([v % 2 == 1] + rest)
    ensures Code(HighBits(v, k) + rest, k - 1) == Got(v / 2, [v % 2 == 1] + rest)
  {
    assert HighBits(v, k) + rest == HighBits(v / 2, k - 1) + ([v % 2 == 1] + rest);
    CodeOf(v / 2, k - 1, [v % 2 == 1] + rest);
  }

  /** The fixed Huffman code is uniquely decodable: every symbol is read back, whatever follows. */
  lemma SymbolOf(n: nat, rest: seq<bool>)
    requires n < 288
    ensures Symbol(ZlibWriter.SymbolBits(n) + rest) == Got(n, rest)
  {
    hide HighBits, HighValue, Code;
    SmallPowers();
    if n <= 143 {
      CodePrefix(0x30 + n, 8, rest);
      CodeOf(0x30 + n, 8, rest);
    } else if n <= 255 {
      var v := 0x190 + (n - 144);
      CodePrefix(v, 9, rest);
      CodePrefix(v / 2, 8, [v % 2 == 1] + rest);
      CodeOf(v, 9, rest);
    } else if n <= 279 {
      CodeOf(n - 256, 7, rest);
    } else {
      CodePrefix(0xC0 + (n - 280), 8, rest);
      CodeOf(0xC0 + (n - 280), 8, rest);
    }
  }

  /** The compressor's tables are those of RFC 1951, section 3.2.5, up to their last entries. */
  lemma TablesAgree()
    ensures forall j :: 0 <= j < 29 ==> Lengthc(j) == LengthBase(j) && Lengtheb(j) == LengthExtra(j)
    ensures forall k :: 0 <= k < 30 ==> Distc(k) == DistBase(k) && Disteb(k) == DistExtra(k)
  {
    assert LENGTHC[..29] == LENGTH_BASE;
    assert DISTC[..30] == DIST_BASE;
  }

  lemma PairOf(j: nat, k: nat, lengthExtra: nat, distExtra: nat, rest: seq<bool>)
    requires j < 29 && lengthExtra < Pow2(LengthExtra(j))
    requires k < 30 && distExtra < Pow2(DistExtra(k))
    ensures LengthDistance(j, LowBits(lengthExtra, LengthExtra(j)) +
                              (HighBits(k, 5) + (LowBits(distExtra, DistExtra(k)) + rest)))
         == Got((LengthBase(j) + lengthExtra, DistBase(k) + distExtra), rest)
  {
    SmallPowers();
    hide HighBits, LowBits, Code, Field, Pow2, LengthBase, LengthExtra, DistBase, DistExtra;
    var tail3 := LowBits(distExtra, DistExtra(k)) + rest;
    var tail2 := HighBits(k, 5) + tail3;
    FieldOf(lengthExtra, LengthExtra(j), tail2);
    CodeOf(k, 5, tail3);
    FieldOf(distExtra, DistExtra(k), rest);
  }

  /** A <length, distance> pair is read back, whatever follows. */
  lemma LengthDistanceOf(j: nat, k: nat, length: nat, dist: nat, rest: seq<bool>)
    requires InLengthRange(j, length) && InDistRange(k, dist)
    ensures LengthDistance(j, LowBits(length - Lengthc(j), Lengtheb(j)) +
                              (HighBits(k, 5) + (LowBits(dist - Distc(k), Disteb(k)) + rest)))
            == Got((length, dist), rest)
  {
    hide Lengthc, Lengtheb, Distc, Disteb, LowBits, HighBits;
    hide LengthDistance, Pow2, LengthBase, LengthExtra, DistBase, DistExtra;
    LengthExtraFits(j, length);
    DistExtraFits(k, dist);
    TablesAgree();
    PairOf(j, k, length - Lengthc(j), dist - Distc(k), rest);
  }

  // ---------- decoding tokens ----------

  lemma CodesOfPair(length: nat, dist: nat, rest: seq<bool>, out: seq<byte>)
    requires 3 <= length <= MAX_MATCH && 1 <= dist <= 32767 && dist <= |out|
    ensures Codes(CopyBits(length, dist) + rest, out) == Codes(rest, CopyBack(out, dist, length))
  {
    hide ZlibWriter.SymbolBits, Symbol, LengthDistance, LengthIndex, DistIndex, LowBits;
    hide HighBits, CopyBack, Lengthc, Lengtheb, Distc, Disteb;
    var j, k := LengthIndex(length), DistIndex(dist);
    var field1, field2, field3 := LowBits(length - Lengthc(j), Lengtheb(j)), HighBits(k, 5),
      LowBits(dist - Distc(k), Disteb(k));
    var tail := field1 + (field2 + (field3 + rest));
    assert CopyBits(length, dist) + rest == ZlibWriter.SymbolBits(257 + j) + tail by {
      assert CopyBits(length, dist) == ZlibWriter.SymbolBits(257 + j) + field1 + field2 + field3;
    }
    SymbolOf(257 + j, tail);
    LengthDistanceOf(j, k, length, dist, rest);
  }

  /** One token decodes to what it stands for, appended to the output so far. */
  lemma CodesOfToken(t: Token, rest: seq<bool>, out: seq<byte>)
    requires Encodable(t) && (t.Copy? ==> t.distance <= |out|)
    ensures Codes(TokenBits(t) + rest, out)
         == Codes(rest, if t.Literal? then out + [t.b] else CopyBack(out, t.distance, t.length))
  {
    match t
    case Literal(b) => SymbolOf(b, rest);
    case Copy(length, dist) => CodesOfPair(length, dist, rest, out);
  }

  /** Copying from the data itself continues the data, even where the copy overlaps its source. */
  lemma {:induction false} CopyContinues(data: seq<byte>, i: nat, dist: nat, n: nat)
    requires 1 <= dist <= i && i + n <= |data|
    requires forall y :: i <= y < i + n ==> data[y - dist] == data[y]
    ensures CopyBack(data[..i], dist, n) == data[..i + n]
    decreases n
  {
    if n > 0 {
      assert data[i - dist] == data[i];
      assert data[..i] + [data[i]] == data[..i + 1];
      CopyContinues(data, i + 1, dist, n - 1);
    }
  }

  /** Tokens that cover the data from i on, then the end-of-block symbol, decode to the data. */
  lemma EndOf(out: seq<byte>, rest: seq<bool>)
    ensures Codes(ZlibWriter.SymbolBits(256) + rest, out) == Got(out, rest)
  {
    hide ZlibWriter.SymbolBits, Symbol;
    SymbolOf(256, rest);
  }

  lemma {:induction false} CodesOfCover(data: seq<byte>, i: nat, ts: seq<Token>, rest: seq<bool>)
    requires i <= |data| && Covers(data, i, ts) && forall t :: t in ts ==> Encodable(t)
    ensures Codes(TokensBits(ts) + (ZlibWriter.SymbolBits(256) + rest), data[..i]) == Got(data, rest)
    decreases |ts|
  {
    hide ZlibWriter.SymbolBits, Symbol, TokenBits, Encodable, Codes, CopyBack;
    var end := ZlibWriter.SymbolBits(256) + rest;
    if ts == [] {
      EndOf(data, rest);
      assert TokensBits(ts) + end == end;
      assert data[..i] == data;
    } else {
      var t := ts[0];
      assert TokensBits(ts) + end == TokenBits(t) + (TokensBits(ts[1..]) + end);
      CodesOfToken(t, TokensBits(ts[1..]) + end, data[..i]);
      if t.Copy? {
        CopyContinues(data, i, t.distance, t.length);
      } else {
        assert data[..i] + [data[i]] == data[..i + 1];
      }
      CodesOfCover(data, i + Span(t), ts[1..], rest);
    }
  }
}
