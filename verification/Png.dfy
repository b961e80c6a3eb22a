/**
 The PNG writer: filtered scanlines, compressed, in the three chunks of the file;
 and a PNG decoder for such files (RFC 2083, sections 2.3, 3.1 to 3.4, 4.1 and 6).
 */
module Png {
  import opened Bits
  import Inflate
  import Crc
  import opened PngFilter

  // ---------- the decoder ----------

  const SIGNATURE: seq<byte> := [137, 80, 78, 71, 13, 10, 26, 10]
  const IHDR: seq<byte> := [73, 72, 68, 82]
  const IDAT: seq<byte> := [73, 68, 65, 84]
  const IEND: seq<byte> := [73, 69, 78, 68]

  datatype Image = Image(width: nat, height: nat, channels: nat, rows: seq<seq<byte>>)
  datatype ChunkRead = BadChunk | Chunk(kind: seq<byte>, data: seq<byte>, rest: seq<byte>)

  /** Four bytes, most significant first. */
  function Be32(v: nat): (b: seq<byte>)
    ensures |b| == 4
  {
    [v / 0x1000000 % 256, v / 0x10000 % 256, v / 0x100 % 256, v % 256]
  }

  function FromBe32(b: seq<byte>): nat
    requires |b| == 4
  {
    b[0] as int * 0x1000000 + b[1] as int * 0x10000 + b[2] as int * 0x100 + b[3]
  }

  function CrcBytes(c: bv32): (b: seq<byte>)
    ensures |b| == 4
  {
    [((c >> 24) as bv8) as int, (((c >> 16) & 0xFF) as bv8) as int, (((c >> 8) & 0xFF) as bv8) as int,
     ((c & 0xFF) as bv8) as int]
  }

  /** The chunk at the front: length, type, data, and a CRC over type and data. */
  function ReadChunk(file: seq<byte>): ChunkRead {
    if |file| < 12 then BadChunk else
    var len := FromBe32(file[..4]);
    if |file| < 12 + len then BadChunk else
    var kind, data, crc := file[4..8], file[8..8 + len], file[8 + len..12 + len];
    if crc == CrcBytes(Crc.Crc32(kind + data)) then Chunk(kind, data, file[12 + len..]) else BadChunk
  }

  function Channels(colorType: byte): nat {
    if colorType == 0 then 1
    else if colorType == 4 then 2
    else if colorType == 2 then 3
    else if colorType == 6 then 4
    else 0
  }

  /** The reconstructed rows: each is filtered against the one before it, the first against zeros. */
  function Rows(data: seq<byte>, len: nat, n: nat, count: nat, rows: seq<seq<byte>>): Option<seq<seq<byte>>>
    requires n >= 1 && forall r :: r in rows ==> |r| == len
    decreases count
  {
    if count == 0 then (if data == [] then Some(rows) else None)
    else if |data| < len + 1 || data[0] > 4 then None
    else
      var prior := if rows == [] then seq(len, i => 0) else rows[|rows| - 1];
      Rows(data[len + 1..], len, n, count - 1, rows + [Unfilter(data[0], n, prior, data[1..len + 1])])
  }

  datatype Header = Header(width: nat, height: nat, channels: nat)

  /** The header of an 8-bit, non-interlaced image. */
  function ReadHeader(header: seq<byte>): Option<Header> {
    if |header| != 13 then None else
    var width, height, n := FromBe32(header[..4]), FromBe32(header[4..8]), Channels(header[9]);
    if 1 <= width < 0x80000000 && 1 <= height < 0x80000000 && n > 0 && header[8] == 8 && header[10..] == [0, 0, 0]
    then Some(Header(width, height, n)) else None
  }

  function ReadPixels(h: Header, packed: seq<byte>): Option<Image> {
    hide Inflate.ZlibDecode, Rows;
    match Inflate.ZlibDecode(packed)
    case None => None
    case Some(data) =>
      if h.channels == 0 then None else
      match Rows(data, h.width * h.channels, h.channels, h.height, [])
      case None => None
      case Some(rows) => Some(Image(h.width, h.height, h.channels, rows))
  }

  /** An 8-bit, non-interlaced image whose data is in one IDAT chunk. */
  function PngDecode(file: seq<byte>): Option<Image> {
    if |file| < 8 || file[..8] != SIGNATURE then None else
    match ReadChunk(file[8..])
    case BadChunk => None
    case Chunk(kind1, header, rest1) =>
      if kind1 != IHDR || ReadHeader(header).None? then None else
      match ReadChunk(rest1)
      case BadChunk => None
      case Chunk(kind2, packed, rest2) =>
        if kind2 != IDAT || ReadChunk(rest2) != Chunk(IEND, [], []) then None else
        ReadPixels(ReadHeader(header).value, packed)
  }

  // ---------- choosing the filters ----------

  const INT_MAX: nat := 0x7FFFFFFF

  /** A sum kept in a 32-bit int that wraps around. */
  function Int32(v: int): int {
    (v + 0x8000_0000) % 0x1_0000_0000 - 0x8000_0000
  }

  lemma Int32Add(a: int, b: int)
    ensures Int32(Int32(a) + b) == Int32(a + b)
  {
  }

  /** It is the number that fits and differs by a multiple of 2^32. */
  lemma Int32Is(v: int)
    ensures -0x8000_0000 <= Int32(v) < 0x8000_0000 && (v - Int32(v)) % 0x1_0000_0000 == 0
  {
    var x := v + 0x8000_0000;
    assert v - Int32(v) == x / 0x1_0000_0000 * 0x1_0000_0000;
  }

  /** The estimated entropy of a filtered line: the sum of its magnitudes. */
  function Estimate(s: seq<schar>): nat {
    if s == [] then 0 else Estimate(s[..|s| - 1]) + Abs(s[|s| - 1])
  }

  /** Every byte adds its magnitude, wherever it stands. */
  lemma {:induction false} EstimateIs(s: seq<schar>, t: seq<schar>, v: schar)
    ensures Estimate(s + [v] + t) == Estimate(s + t) + (if v < 0 then -(v as int) else v) && Estimate([]) == 0
    decreases |t|
  {
    if t == [] {
      assert s + [v] + t == s + [v] && s + t == s;
    } else {
      var front := t[..|t| - 1];
      EstimateIs(s, front, v);
      assert (s + [v] + t)[..|s| + |t|] == s + [v] + front;
      assert (s + t)[..|s| + |t| - 1] == s + front;
    }
  }

  lemma {:induction false} EstimateBound(s: seq<schar>)
    ensures Estimate(s) <= 128 * |s|
  {
    if s != [] {
      EstimateBound(s[..|s| - 1]);
    }
  }

  /** The int is the sum itself exactly up to INT_MAX, and so on every line below 16 MB. */
  lemma EstimateFits(s: seq<schar>)
    ensures Int32(Estimate(s)) == Estimate(s) <==> Estimate(s) <= INT_MAX
    ensures |s| < 0x100_0000 ==> Int32(Estimate(s)) == Estimate(s)
  {
    EstimateBound(s);
  }

  method EstimateLine(lineBuffer: array<schar>) returns (est: int)
    ensures est == Int32(Estimate(lineBuffer[..]))
  {
    hide Int32;
    est := 0;
    assert Int32(0) == 0 by { ZeroFits(); }
    for i := 0 to lineBuffer.Length
      invariant est == Int32(Estimate(lineBuffer[..i]))
    {
      assert lineBuffer[..i + 1][..i] == lineBuffer[..i];
      Int32Add(Estimate(lineBuffer[..i]), Abs(lineBuffer[i]));
      est := Int32(est + Abs(lineBuffer[i]));
    }
    assert lineBuffer[..lineBuffer.Length] == lineBuffer[..];
  }

  lemma ZeroFits()
    ensures Int32(0) == 0
  {
  }

  /** What filter g costs on row y, as the encoder adds it up. */
  ghost function Cost(px: Pixels, y: nat, n: nat, g: nat): (c: int)
    requires px.Valid() && y < px.height && n >= 1
    ensures c <= INT_MAX
  {
    Int32(Estimate(Coded(g, n, px.Prior(y), px.Row(y))))
  }

  /** f is the first of the cheapest filters for row y. */
  ghost predicate IsCheapest(px: Pixels, y: nat, n: nat, f: nat)
    requires px.Valid() && y < px.height && n >= 1
  {
    f < 5 &&
    forall g :: 0 <= g < 5 ==>
      Cost(px, y, n, f) <= Cost(px, y, n, g) && (g < f ==> Cost(px, y, n, f) < Cost(px, y, n, g))
  }

  /** The filter of row y is the forced one, if any, or the first of the cheapest. */
  ghost predicate IsChoice(px: Pixels, y: nat, n: nat, force: int, f: nat)
    requires px.Valid() && y < px.height && n >= 1
  {
    if 0 <= force < 5 then f == force else IsCheapest(px, y, n, f)
  }

  /** A setting from 0 to 4 forces that filter; any other takes the first whose sum of magnitudes is least. */
  lemma ChoiceIs(px: Pixels, y: nat, n: nat, force: int, f: nat)
    requires px.Valid() && y < px.height && n >= 1
    ensures force in {0, 1, 2, 3, 4} ==> (IsChoice(px, y, n, force, f) <==> f == force)
    ensures force !in {0, 1, 2, 3, 4} && IsChoice(px, y, n, force, f) ==>
              f <= 4 && forall g :: 0 <= g <= 4 ==>
                var a, b := Int32(Estimate(Coded(f, n, px.Prior(y), px.Row(y)))),
                            Int32(Estimate(Coded(g, n, px.Prior(y), px.Row(y))));
                a <= b && (g < f ==> a < b)
  {
    hide Int32, Estimate, Coded, Pixels.Row, Pixels.Prior;
    forall g | 0 <= g <= 4 ensures Cost(px, y, n, g) == Int32(Estimate(Coded(g, n, px.Prior(y), px.Row(y)))) {
    }
  }

  /** Every row so far has its filter. */
  ghost predicate Chosen(px: Pixels, n: nat, force: int, fs: seq<filter>)
    requires px.Valid() && |fs| <= px.height && n >= 1
  {
    forall y :: 0 <= y < |fs| ==> IsChoice(px, y, n, force, fs[y])
  }

  method CheapestFilter(px: Pixels, y: nat, n: nat, lineBuffer: array<schar>) returns (best: filter)
    requires px.Valid() && y < px.height && 1 <= n <= px.rowLen && lineBuffer.Length == px.rowLen
    modifies lineBuffer
    ensures IsCheapest(px, y, n, best)
    ensures lineBuffer[..] == Coded(best, n, px.Prior(y), px.Row(y))
  {
    hide Coded, Pixels.Row, Pixels.Prior, Estimate, Int32;
    best := 0;
    var f, bestVal: int := 0, INT_MAX;
    while f < 5
      invariant 0 <= f <= 5 && (f > 0 ==> best < f)
      invariant f == 0 ==> best == 0 && bestVal == INT_MAX
      invariant f > 0 ==> bestVal == Cost(px, y, n, best)
      invariant forall g :: 0 <= g < f ==> bestVal <= Cost(px, y, n, g) && (g < best ==> bestVal < Cost(px, y, n, g))
    {
      EncodeLine(px, y, n, f, lineBuffer);
      var est := EstimateLine(lineBuffer);
      if est < bestVal {
        bestVal := est;
        best := f;
      }
      f := f + 1;
    }
    if f != best {
      EncodeLine(px, y, n, best, lineBuffer);
    }
  }

  // ---------- all the scanlines ----------

  /** The scanlines of the first |fs| rows, row y under filter fs[y]. */
  ghost function Scanlines(px: Pixels, n: nat, fs: seq<filter>): seq<byte>
    requires px.Valid() && n >= 1 && |fs| <= px.height
  {
    if fs == [] then [] else
    var y := |fs| - 1;
    Scanlines(px, n, fs[..y]) + Scanline(px, n, y, fs[y])
  }

  ghost function Scanline(px: Pixels, n: nat, y: nat, f: filter): (s: seq<byte>)
    requires px.Valid() && n >= 1 && y < px.height
    ensures |s| == px.rowLen + 1
  {
    [f] + AsBytes(Coded(f, n, px.Prior(y), px.Row(y)))
  }

  ghost function AllRows(px: Pixels, count: nat): (rows: seq<seq<byte>>)
    requires px.Valid() && count <= px.height
    ensures |rows| == count && forall r :: r in rows ==> |r| == px.rowLen
  {
    if count == 0 then [] else AllRows(px, count - 1) + [px.Row(count - 1)]
  }

  lemma AllRowsAre(px: Pixels, count: nat, y: nat)
    requires px.Valid() && y < count <= px.height
    ensures AllRows(px, count)[y] == px.Row(y)
  {
  }

  lemma OneScanline(px: Pixels, n: nat, y: nat, f: filter, rest: seq<byte>, count: nat)
    requires px.Valid() && n >= 1 && y < px.height
    ensures Rows(Scanline(px, n, y, f) + rest, px.rowLen, n, 1 + count, AllRows(px, y))
         == Rows(rest, px.rowLen, n, count, AllRows(px, y + 1))
  {
    hide Pixels.Row, Coded, Unfilter, AsBytes;
    var data := Scanline(px, n, y, f) + rest;
    var coded := AsBytes(Coded(f, n, px.Prior(y), px.Row(y)));
    assert data[1..px.rowLen + 1] == coded && data[px.rowLen + 1..] == rest && data[0] == f;
    UnfilterOfCoded(f, n, px.Prior(y), px.Row(y), px.rowLen);
    assert coded[..px.rowLen] == coded && px.Row(y)[..px.rowLen] == px.Row(y);
    if y > 0 {
      AllRowsAre(px, y, y - 1);
    }
  }

  /** The scanlines written reconstruct to the rows they were made from. */
  lemma {:induction false} ScanlinesDecode(px: Pixels, n: nat, fs: seq<filter>, rest: seq<byte>, count: nat)
    requires px.Valid() && n >= 1 && |fs| <= px.height
    ensures Rows(Scanlines(px, n, fs) + rest, px.rowLen, n, |fs| + count, [])
         == Rows(rest, px.rowLen, n, count, AllRows(px, |fs|))
    decreases |fs|
  {
    hide Scanline, Rows, Pixels.Row, Pixels.Valid;
    if fs == [] {
      assert Scanlines(px, n, fs) + rest == rest;
    } else {
      var y := |fs| - 1;
      var before, line := Scanlines(px, n, fs[..y]), Scanline(px, n, y, fs[y]);
      assert Scanlines(px, n, fs) == before + line;
      assert before + line + rest == before + (line + rest);
      ScanlinesDecode(px, n, fs[..y], line + rest, 1 + count);
      OneScanline(px, n, y, fs[y], rest, count);
    }
  }

  /** All of them reconstruct to the whole image. */
  lemma AllScanlinesDecode(px: Pixels, n: nat, fs: seq<filter>)
    requires px.Valid() && n >= 1 && |fs| == px.height
    ensures Rows(Scanlines(px, n, fs), px.rowLen, n, px.height, []) == Some(AllRows(px, px.height))
  {
    hide Scanlines, AllRows;
    ScanlinesDecode(px, n, fs, [], 0);
    assert Scanlines(px, n, fs) + [] == Scanlines(px, n, fs);
  }

  lemma {:induction false} ScanlinesLength(px: Pixels, n: nat, fs: seq<filter>)
    requires px.Valid() && n >= 1 && |fs| <= px.height
    ensures |Scanlines(px, n, fs)| == |fs| * (px.rowLen + 1)
  {
    hide Scanline;
    if fs != [] {
      var y := |fs| - 1;
      ScanlinesLength(px, n, fs[..y]);
      assert |fs| * (px.rowLen + 1) == y * (px.rowLen + 1) + (px.rowLen + 1);
    }
  }

  /** One row of the image into its place in the buffer. */
  method FilterRow(px: Pixels, n: nat, force: int, y: nat, buffer: array<byte>, lineBuffer: array<schar>)
    returns (filterType: filter)
    requires px.Valid() && y < px.height && 1 <= n <= px.rowLen && lineBuffer.Length == px.rowLen
    requires y * (px.rowLen + 1) + px.rowLen + 1 <= buffer.Length
    modifies buffer, lineBuffer
    ensures IsChoice(px, y, n, force, filterType)
    ensures var pos := y * (px.rowLen + 1);
            buffer[..pos + px.rowLen + 1] == old(buffer[..pos]) + Scanline(px, n, y, filterType)
  {
    hide Pixels.Row, Pixels.Prior, Coded, IsCheapest, AsBytes, Pixels.Valid;
    var forceFilter := if force >= 5 then -1 else force;
    if forceFilter > -1 {
      filterType := forceFilter;
      EncodeLine(px, y, n, filterType, lineBuffer);
    } else {
      filterType := CheapestFilter(px, y, n, lineBuffer);
    }
    PutScanline(buffer, y * (px.rowLen + 1), filterType, lineBuffer);
  }

  /** Filters every row into one buffer. */
  method FilterRows(px: Pixels, n: nat, force: int) returns (filt: seq<byte>, ghost fs: seq<filter>)
    requires px.Valid() && 1 <= n <= px.rowLen
    ensures |fs| == px.height && Chosen(px, n, force, fs)
    ensures filt == Scanlines(px, n, fs)
    ensures Rows(filt, px.rowLen, n, px.height, []) == Some(AllRows(px, px.height))
  {
    hide Pixels.Valid, Scanlines, Scanline, IsChoice, Chosen, Rows, AllRows;
    var size := px.rowLen + 1;
    var buffer := new byte[size * px.height];
    var lineBuffer := new schar[px.rowLen];
    fs := [];
    NothingFiltered(px, n, force);
    for j := 0 to px.height
      invariant |fs| == j && Chosen(px, n, force, fs)
      invariant j * size <= buffer.Length
      invariant buffer[..j * size] == Scanlines(px, n, fs)
    {
      NextFits(j, px.height, size);
      var filterType := FilterRow(px, n, force, j, buffer, lineBuffer);
      ScanlinesGrow(px, n, fs, filterType);
      ChosenGrow(px, n, force, fs, filterType);
      fs := fs + [filterType];
    }
    filt := buffer[..];
    assert filt == buffer[..px.height * size];
    AllScanlinesDecode(px, n, fs);
  }

  method PutScanline(buffer: array<byte>, pos: nat, f: filter, lineBuffer: array<schar>)
    requires pos + 1 + lineBuffer.Length <= buffer.Length
    modifies buffer
    ensures buffer[..pos + 1 + lineBuffer.Length] == old(buffer[..pos]) + ([f] + AsBytes(lineBuffer[..]))
  {
    ghost var before := buffer[..pos];
    buffer[pos] := f;
    ghost var bytes := AsBytes(lineBuffer[..]);
    forall i | 0 <= i < lineBuffer.Length {
      buffer[pos + 1 + i] := (lineBuffer[i] as int) % 256;
    }
    assert forall i :: 0 <= i < lineBuffer.Length ==> buffer[pos + 1 + i] == bytes[i];
    assert buffer[..pos + 1 + lineBuffer.Length] == before + ([f] + bytes);
  }

  /** None of the rows is left out. */
  lemma AllChosen(px: Pixels, n: nat, force: int, fs: seq<filter>)
    requires px.Valid() && n >= 1 && |fs| == px.height && Chosen(px, n, force, fs)
    ensures forall y :: 0 <= y < px.height ==> IsChoice(px, y, n, force, fs[y])
  {
    hide IsChoice;
  }

  lemma NothingFiltered(px: Pixels, n: nat, force: int)
    requires px.Valid() && n >= 1
    ensures Scanlines(px, n, []) == [] && Chosen(px, n, force, [])
  {
  }

  lemma ScanlinesGrow(px: Pixels, n: nat, fs: seq<filter>, f: filter)
    requires px.Valid() && n >= 1 && |fs| < px.height
    ensures Scanlines(px, n, fs + [f]) == Scanlines(px, n, fs) + Scanline(px, n, |fs|, f)
  {
    hide Scanline;
    Parts(fs, [f]);
  }

  lemma ChosenGrow(px: Pixels, n: nat, force: int, fs: seq<filter>, f: filter)
    requires px.Valid() && n >= 1 && |fs| < px.height && Chosen(px, n, force, fs) && IsChoice(px, |fs|, n, force, f)
    ensures Chosen(px, n, force, fs + [f])
  {
    hide IsChoice;
  }

  lemma NextFits(j: nat, count: nat, size: nat)
    requires j < count
    ensures j * size + size == (j + 1) * size <= size * count
  {
    assert (j + 1) * size <= count * size;
  }
}
